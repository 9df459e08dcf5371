# TransportGuide in Dafny

This project models the core of TransportGuide, a C++ transit catalogue.
The program reads one JSON document holding `base_requests` and
`stat_requests`, plus render settings, and prints one JSON array of answers.
The model covers five parts of it:

- **The catalogue** (`tg::TransportGuide`). It is a store of stops and buses.
  `AddStop` is an upsert. `AddBus` first creates every unknown stop it names,
  at (0,0), and stores a non-circular route out and back. The catalogue also
  keeps a stop-to-buses index, a directed distance table with a fallback to
  the reverse direction, and two name-ordered sets of copies.
  - `Catalogue.State` holds the members as one value. Its functions are the
    operations, and `Valid` is the invariant they keep.
  - `CatalogueObject.TransportGuide` is a class with the same fields. Its
    methods change them step by step and are proved equal to the functions.
  - Pointers become positions in the list of stops or buses. The hash maps
    become maps.
- **Route statistics** (`RequestHandler::GetBusStat`). These are the stop
  count, the distinct-name count and the road length as a sum of directed
  distances. The geographic length and the curvature are computed from
  parameters.
- **The JSON codec** (`json.cpp`/`json.h`).
  - The loaders work on a `seq<char>` with a cursor. The as-written loops of
    `LoadString` and `LoadDict` sit beside corrected ones (see Findings).
  - The printer writes nodes as `NodePrint` does, except that dict keys are
    escaped like string values (see Findings).
  - `JsonRoundTrip.LoadPrintRoundTrip` proves that loading a printed document
    gives it back. This holds for every document made without doubles.
- **The SVG writer** (`svg.h`/`svg.cpp`). It covers the colour and stroke
  spellings, the fixed attribute order, XML escaping of text, indentation and
  document framing. `Circle`, `Polyline`, `Text` and `Document` are classes
  with setters.
- **The request reader** (`json_reader.cpp`).
  - The base requests are applied as three passes over the catalogue.
  - The stat requests are answered in request order.
  - Stop answers list their bus names sorted. Map requests keep only the
    stops that some bus serves.

The trimming helpers of `geo.h` are modelled as methods that loop.

Some operations of the program are not visible here: the spherical distance,
floating-point division, the text form of a double, `std::stod` and the map
renderer. They are parameters of the model: `distance`, `divide`, `number`
(also `format` and `num`), `toDouble` and `draw`. An exception the program
throws is an `Err` result. `Indeterminate` stands for a step whose
behaviour C++ leaves undefined.

## Model

| member | source | states |
|---|---|---|
| `Geo.FirstNonSpace` | geo.h:10-12 | the position find_if stops at: at or after the start, at the end or on a non-space |
| `Geo.SpacesBefore` | geo.h:10-12 | every character skipped before that position is a space |
| `Geo.NonSpaceEnd` | geo.h:17-19 | the position the reverse find_if stops at: the start, or just after a non-space |
| `Geo.SpacesAfter` | geo.h:17-19 | every character after that position is a space |
| `Geo.LTrim` | geo.h:9-13 | the loop returns the string with its longest run of leading whitespace removed |
| `Geo.RTrim` | geo.h:16-20 | the loop returns the string with its longest run of trailing whitespace removed |
| `Geo.Trim` | geo.h:23-26 | trim is ltrim followed by rtrim |
| `Geo.TrimmedIsInnerPart` | geo.h:23-26 | trim gives the slice from the first to the last non-space character; the result is empty or starts and ends with a non-space |
| `Geo.TrimmedSlice` | geo.h:23-26 | when the string has a non-space character, trim gives the slice between the two trim points |
| `Geo.TrimmedUnchanged` | geo.h:23-26 | a string with no whitespace at either end comes back unchanged |
| `Geo.TrimmedAllSpace` | geo.h:23-26 | an all-whitespace string trims to the empty string |
| `Geo.TrimmedIdempotent` | geo.h:23-26 | trimming twice is trimming once |
| `Lexicographic.LessIrreflexive` | domain.h:34-36 | no name sorts before itself |
| `Lexicographic.LessTransitive` | domain.h:34-36 | the name order is transitive |
| `Lexicographic.LessTotal` | domain.h:34-36 | of two different names one sorts first |
| `Lexicographic.LessAsymmetric` | domain.h:34-36 | two names never sort before each other |
| `Lexicographic.SortedKeys` | domain.h:49-50 | the iteration order of a set of names: strictly ascending, holding each name once |
| `Lexicographic.AscendingUnique` | domain.h:49-50 | only one strictly ascending sequence holds a given set of names |
| `Lexicographic.InsertSorted` | json_reader.cpp:118-119 | inserting into a sorted sequence keeps it sorted and adds exactly the new name |
| `Lexicographic.NonDescendingUnique` | json_reader.cpp:118-119 | two sorted permutations of the same names are equal, so the sort result does not depend on the input order |
| `Domain.StopComparatorIsStrictByName` | domain.h:40-47 | StopComparator is irreflexive and transitive; two stops are equivalent exactly when their names are equal |
| `Domain.BusComparatorIsStrictByName` | domain.h:31-38 | BusComparator is irreflexive and transitive; two buses are equivalent exactly when their names are equal |
| `Domain.Insert` | transport_catalogue.cpp:19 | set insert adds the element's name and keeps every element already there; a new name gets the new element |
| `Domain.InOrder` | domain.h:49-50 | iterating a Stops or Buses set yields one element per name, in sorted name order |
| `Domain.InOrderAscending` | domain.h:49-50 | the iteration is strictly ascending by name and reaches every element |
| `Catalogue.Reversed` | transport_catalogue.cpp:40-42 | the way-back loop reads the route from the end: element k is element n-1-k |
| `Catalogue.ExpandShape` | transport_catalogue.cpp:39-43 | a non-circular route of n>0 stops is stored as 2n-1 stops, forward and then back from n-2 to 0; a circular or empty route is stored as given |
| `Catalogue.RegisteredSpec` | transport_catalogue.cpp:49-51 | after the bus is registered, each stop on its route has an entry holding the bus, and no other entry changes |
| `Catalogue.RegisteredStep` | transport_catalogue.cpp:50 | one iteration adds the bus to one stop's set, creating the entry when it is missing |
| `Catalogue.TwoStopHash` | transport_catalogue.h:43-48 | TwoStopHasher on two pointer hashes in wrapping size_t arithmetic stays below 2^64 |
| `Catalogue.TwoStopHashSwap` | transport_catalogue.h:43-48 | swapping the pair keeps the hash exactly when the two pointer hashes are equal |
| `Catalogue.FirstBusIndexSpec` | transport_catalogue.cpp:46 | name_to_route_ maps each bus name to the first bus added under it, and every added bus's name is indexed |
| `Catalogue.ReverseIndexSpec` | transport_catalogue.cpp:49-51 | stop_to_routes_ holds only non-empty sets, and a bus is in a stop's set exactly when its stored route visits that stop |
| `Catalogue.BusSnapshotsSpec` | transport_catalogue.cpp:47 | buses_ptr_set_ holds, for each bus name, a copy of the first bus added under it |
| `Catalogue.AppendBus` | transport_catalogue.cpp:45-51 | appending a bus updates the three derived members as AddBus does |
| `Catalogue.State.HasStop` | transport_catalogue.cpp:127-130 | true exactly when some stop of the list has the name |
| `Catalogue.State.FindStop` | transport_catalogue.cpp:65-72 | null exactly when no stop has the name; otherwise the stop of that name |
| `Catalogue.State.FindBus` | transport_catalogue.cpp:55-62 | null exactly when no bus has the name; otherwise the first bus added under it |
| `Catalogue.State.FindAllBusesToStop` | transport_catalogue.cpp:75-83 | exactly the buses whose stored route visits the stop, and the empty set for a stop with no entry |
| `Catalogue.State.IsStopDontHaveBuses` | transport_catalogue.cpp:85-97 | true exactly when the stop's name is known and some bus serves the stop of that name |
| `Catalogue.State.GetRealStopsDistance` | transport_catalogue.cpp:100-115 | the (A,B) entry if present; else 0 when A is B; else the (B,A) entry if present; else 0 |
| `Catalogue.State.AddStop` | transport_catalogue.cpp:11-21 | an upsert: afterwards the name maps to a stop with the given coordinates, the set of names grows by that name only, and no known name moves |
| `Catalogue.State.AddStopFrame` | transport_catalogue.cpp:11-21 | for a known name no list grows and no copy in the set changes; a new name is appended and copied into the set; nothing on the bus side changes |
| `Catalogue.State.AddStopKeepsValid` | transport_catalogue.cpp:11-21 | AddStop keeps the catalogue invariant |
| `Catalogue.State.GetStopsInInsertionOrder` | transport_catalogue.cpp:136-138 | GetStops lists stops in insertion order: a new name goes last, and a known one changes no position |
| `Catalogue.State.AddIfMissing` | transport_catalogue.cpp:29-34 | afterwards the name is known and every known name keeps its stop |
| `Catalogue.State.AddIfMissingFrame` | transport_catalogue.cpp:29-34 | only this name can be added, at (0,0) and at the end of the list; every copy already in the ordered stop set is kept, and nothing else changes |
| `Catalogue.State.AddMissingStopsIndex` | transport_catalogue.cpp:28-37 | after the first loop of AddBus every referenced name is known, and the known names are the old ones plus the referenced ones |
| `Catalogue.State.AddMissingStopsStops` | transport_catalogue.cpp:28-37 | the first loop of AddBus only appends stops, all at (0,0), keeps every copy already in the ordered stop set, and leaves buses and distances alone |
| `Catalogue.State.AddMissingStopsKeepsValid` | transport_catalogue.cpp:28-37 | the first loop of AddBus keeps the invariant |
| `Catalogue.State.KnownRefs` | transport_catalogue.cpp:35-36 | the stop looked up for each position is the stop of the name given there |
| `Catalogue.State.RegisterBusKeepsValid` | transport_catalogue.cpp:45-51 | registering a bus whose stops are known keeps the invariant |
| `Catalogue.State.AddBus` | transport_catalogue.cpp:24-52 | AddBus keeps the invariant, appends one bus with the expanded route of the looked-up stops, and leaves the distances alone |
| `Catalogue.State.AddBusFindBus` | transport_catalogue.cpp:45-47 | a second bus under a known name leaves FindBus and the set of buses as they were; a new name finds the new bus; other names are unaffected |
| `Catalogue.State.AddBusStops` | transport_catalogue.cpp:28-37 | AddBus keeps every stop, index entry and copy in the ordered stop set; the stops it adds are named in the request and sit at (0,0); every requested name is then known |
| `Catalogue.State.GetBusesInInsertionOrder` | transport_catalogue.cpp:132-134 | GetBuses lists buses in insertion order, a second bus under a known name included |
| `Catalogue.State.SetStopsDistance` | transport_catalogue.cpp:118-125 | nothing changes when either name is unknown; otherwise only the (A,B) entry is set, even when A is B |
| `Catalogue.DistanceAfterSet` | transport_catalogue.cpp:100-125 | after setting (A,B), (A,B) reads back the distance; (B,A) reads it too, unless (B,A) has an entry of its own, which it then keeps |
| `Catalogue.DistanceIsDirected` | transport_catalogue.cpp:100-115 | when both directions are recorded, each direction reads its own entry |
| `Catalogue.StopSnapshotIsACopy` | transport_catalogue.cpp:12-19 | re-adding a stop updates what FindStop sees, but the ordered set keeps the copy made when the stop was first added |
| `Catalogue.EmptyIsValid` | transport_catalogue.h:60-72 | the empty catalogue meets the invariant |
| `CatalogueObject.TransportGuide.constructor` | transport_catalogue.h:60-72 | a new catalogue is empty and valid |
| `CatalogueObject.TransportGuide.AddStop` | transport_catalogue.cpp:11-21 | the fields end up as State.AddStop says, and the invariant holds |
| `CatalogueObject.TransportGuide.AddMissingStops` | transport_catalogue.cpp:25-37 | the first loop of AddBus: the fields end up as State.AddMissingStops says, and the returned stops are the looked-up ones |
| `CatalogueObject.TransportGuide.RegisterUnderStops` | transport_catalogue.cpp:49-51 | the last loop of AddBus adds the bus to the set of every stop on its route, and changes nothing else |
| `CatalogueObject.TransportGuide.PushBus` | transport_catalogue.cpp:45-47 | the bus is appended and indexed by name and in the ordered set; the stop-to-buses index is left to RegisterUnderStops |
| `CatalogueObject.TransportGuide.AddBus` | transport_catalogue.cpp:24-52 | the fields end up as State.AddBus says, and the invariant holds |
| `CatalogueObject.TransportGuide.SetStopsDistance` | transport_catalogue.cpp:118-125 | the fields end up as State.SetStopsDistance says, and the invariant holds |
| `RequestHandler.BusStat` | request_handler.cpp:13-16 | no statistics exactly when no bus has the name |
| `RequestHandler.BusStatCounts` | request_handler.cpp:18-34 | for a known bus: the stop count is the stored route's length; the distinct-name count is at most that, 0 only for an empty route, and equal to the number of distinct stops; a route of at most one stop has length 0 |
| `RequestHandler.StopNamesSpec` | request_handler.cpp:18-19 | the names collected are exactly the names of the stops visited |
| `RequestHandler.StopNamesCount` | request_handler.cpp:30 | at most one name per visit, and none only for an empty route |
| `RequestHandler.StopNamesCountsStops` | request_handler.cpp:30 | counting distinct names is counting distinct stops, since each name belongs to one stop |
| `RequestHandler.StopNamesOfExpand` | request_handler.cpp:27-30 | the way back of a route adds no new names |
| `RequestHandler.RoadLengthConcat` | request_handler.cpp:18-25 | the road length of two joined routes is the sum of their lengths plus the leg where they meet |
| `RequestHandler.RoadLengthOutAndBack` | request_handler.cpp:18-25 | the out-and-back route's length is the forward length plus the length of the reversed route |
| `RequestHandler.RequestHandler.constructor` | request_handler.cpp:3 | the handler refers to the given catalogue |
| `RequestHandler.RequestHandler.GetBusStat` | request_handler.cpp:5-34 | both loops compute BusStat of the catalogue, and the catalogue is only read |
| `Json.AccessorsMatchCheckers` | json.cpp:200-296 | each As accessor succeeds exactly when its Is checker holds and returns the held value; AsDouble also accepts an int; IsDouble holds for ints and IsPureDouble does not |
| `Json.DictAtSpec` | json_reader.cpp:16 | map::at finds a key exactly when it is present, returns its value, and otherwise throws out_of_range |
| `Json.DictInsertSpec` | json.cpp:139 | Dict insert keeps the value of a key already present; a new key adds exactly its pair; no pair is lost |
| `Json.DictInsertLast` | json.cpp:139 | a key greater than all present keys goes at the end |
| `Json.DictInsert` | json.cpp:139 | Dict insert keeps the keys strictly ascending and adds only the given pair |
| `Json.EqualIsIdentity` | json.cpp:299-305 | Node equality is equality of the held data |
| `Json.DocumentEqualIsIdentity` | json.cpp:307-313 | Document equality compares the roots, and != is its negation |
| `JsonLoad.Extract` | json.cpp:133 | `input >> c` skips whitespace and takes the next non-space character, if any |
| `JsonLoad.StringAt` | json.cpp:96-128 | a loaded string ends just after a closing quote inside the text |
| `JsonLoad.LoadString` | json.cpp:96-128 | the loop computes the corrected string loader |
| `JsonLoad.StringAsWrittenAgrees` | json.cpp:105-126 | the loop as written agrees with the corrected one wherever the corrected one succeeds; it succeeds alone only at the end of the text |
| `JsonLoad.UnterminatedDocumentAsWritten` | json.cpp:105-126 | as written, the string loop reads the text `"abc\"` as the string `abc"`; the corrected load rejects it with "Failed to read string" |
| `JsonLoad.Word` | json.cpp:157-159 | at most n characters are taken, and a non-empty word moves forward in the text |
| `JsonLoad.NullOrBoolAt` | json.cpp:147-172 | reading a literal moves forward in the text |
| `JsonLoad.LoadWord` | json.cpp:156-159 | the loop computes Word |
| `JsonLoad.LoadNullOrBool` | json.cpp:147-172 | the method computes NullOrBoolAt |
| `JsonLoad.DigitsEnd` | json.cpp:45-47 | the digit loop stops at the end or at a non-digit |
| `JsonLoad.DigitsRun` | json.cpp:45-47 | everything the digit loop takes is a digit |
| `JsonLoad.ReadDigits` | json.cpp:41-48 | read_digits fails unless at least one digit follows, and then reads the whole digit run |
| `JsonLoad.IntegerEnd` | json.cpp:54-59 | the integer part is a digit run, and is exactly one character when it starts with 0 |
| `JsonLoad.FractionEnd` | json.cpp:63-67 | a fraction is a point followed by digits; with no point nothing is read |
| `JsonLoad.ExponentEnd` | json.cpp:70-77 | an exponent is e or E, an optional sign, and digits; without e nothing is read |
| `JsonLoad.NumberShapeSpec` | json.cpp:50-77 | a number's text is a minus sign, an integer part, an optional fraction and an optional exponent; a missing digit is "A digit is expected" |
| `JsonLoad.NumberValue` | json.cpp:79-93 | an Int node exactly when the text has no fraction or exponent and fits an int; otherwise the double stod gives; an error naming the text exactly when neither converts |
| `JsonLoad.NumberAt` | json.cpp:28-94 | a number read moves forward in the text |
| `JsonLoad.LoadDigits` | json.cpp:41-48 | the loop computes ReadDigits |
| `JsonLoad.LoadIntegerPart` | json.cpp:54-59 | the method computes IntegerEnd |
| `JsonLoad.LoadFraction` | json.cpp:63-67 | the method computes FractionEnd |
| `JsonLoad.LoadExponent` | json.cpp:70-77 | the method computes ExponentEnd |
| `JsonLoad.LoadNumber` | json.cpp:28-94 | the method computes NumberAt |
| `JsonLoad.NodeAt` | json.cpp:174-195 | LoadNode moves forward in the text |
| `JsonLoad.LoadNode` | json.cpp:174-195 | the dispatch on the first character computes NodeAt |
| `JsonLoad.LoadArray` | json.cpp:13-26 | the loop computes ArrayRest |
| `JsonLoad.DictRest` | json.cpp:130-145 | a dict read moves forward in the text |
| `JsonLoad.LoadDict` | json.cpp:130-145 | the loop computes the corrected dict loader |
| `JsonLoad.DictRestBraced` | json.cpp:141-143 | the corrected dict loader succeeds only when the last character it took is a closing brace |
| `JsonLoad.DictAsWrittenAgrees` | json.cpp:130-145 | the loop as written agrees with the corrected one wherever the corrected one succeeds; it succeeds alone only at the end of the text |
| `JsonLoad.UnclosedDictAsWritten` | json.cpp:133-143 | as written, the dict loop reads the text `{"a"}1` as the dict {"a": 1} |
| `JsonLoad.UnclosedDictRejected` | json.cpp:141-143 | the corrected loader rejects `{"a"}1` with "Parse error" |
| `JsonLoad.NodeAtCanonical` | json.cpp:139 | a loaded node has the keys of each of its dicts strictly ascending, as a std::map holds them |
| `JsonLoad.LoadTextCanonical` | json.cpp:315-317 | a loaded document has the keys of each of its dicts strictly ascending |
| `JsonLoad.Load` | json.cpp:315-317 | the method computes LoadText: one node read from the text, as the document's root |
| `JsonPrint.PrintString` | json.cpp:358-375 | a string prints between quotes with `"`, `\` and newline escaped |
| `JsonPrint.PrintArray` | json.cpp:327-338 | the loop writes the items on separate lines, separated by commas, between brackets |
| `JsonPrint.PrintDict` | json.cpp:339-351 | the loop writes the pairs in key order, separated by commas, between braces |
| `JsonPrint.PrintMember` | json.cpp:343-344 | one pair is the quoted key, a colon and a space, and the value (with the key escaped, as corrected) |
| `JsonPrint.PrintNode` | json.cpp:386-388 | the visitor writes the node's printed text |
| `JsonPrint.Print` | json.cpp:390-392 | a document prints as its root |
| `JsonScalarRoundTrip.StringRoundTrip` | json.cpp:105-123 | the loader reads an escaped string body back as the original string |
| `JsonScalarRoundTrip.QuotedRoundTrip` | json.cpp:358-375 | a printed string loads back to itself |
| `JsonScalarRoundTrip.WordRoundTrip` | json.cpp:157-159 | a word with no spaces is read back whole |
| `JsonScalarRoundTrip.LiteralRoundTrip` | json.cpp:147-172 | printed null, true and false load back to themselves |
| `JsonScalarRoundTrip.IntRoundTrip` | json.cpp:352-354 | a printed int loads back to the same Int node |
| `JsonRoundTrip.NodeRoundTrip` | json.cpp:174-195 | a printed node without doubles, followed by a delimiter, loads back to itself |
| `JsonRoundTrip.ArrayRoundTrip` | json.cpp:327-338 | a printed array loads back to itself |
| `JsonRoundTrip.DictRoundTrip` | json.cpp:339-351 | a printed dict loads back to itself |
| `JsonRoundTrip.LoadPrintRoundTrip` | json.cpp:315-392 | loading the printed text of a document without doubles gives back the document |
| `JsonRoundTrip.StringLoadPrint` | json.cpp:358-375 | a document holding one string loads back from its printed text |
| `JsonRoundTrip.PlainKeyAsWritten` | json.cpp:343 | a key without quote, backslash or newline prints the same raw or escaped |
| `JsonRoundTrip.UnescapedKeyAsWritten` | json.cpp:343 | as written, the dict {"\"": null} prints as text that does not load |
| `JsonRoundTrip.EscapedKeyLoads` | json.cpp:343 | with its key escaped, that dict loads back |
| `Svg.StrokeNamesRead` | svg.cpp:19-55 | every cap and every join is spelled under a name of its own |
| `Svg.NoColorIsNone` | svg.h:63-68 | the empty colour and NoneColor both print as none, and a named colour prints as its name |
| `Svg.RgbTextInjective` | svg.h:69-71 | two rgb colours that print alike are the same colour |
| `Svg.AttrValue` | svg.h:108-130 | an attribute has a value exactly when its field is set |
| `Svg.AttrsFromFields` | svg.h:108-130 | RenderAttrs writes one attribute per set field, named after the field, with the field's value |
| `Svg.SetFieldsRange` | svg.h:108-130 | the fields are written in the fixed order fill, stroke, stroke-width, stroke-linecap, stroke-linejoin |
| `Svg.SetFieldsMembers` | svg.h:108-130 | a field is written exactly when it is set |
| `Svg.NoAttrsWritten` | svg.h:108-130 | with nothing set, nothing is written |
| `SvgObjects.RenderContext.Indented` | svg.h:163-165 | Indented keeps the step and adds it to the indentation |
| `SvgObjects.Spaces` | svg.h:167-171 | the indentation is that many spaces, and none when it is not positive |
| `SvgObjects.RenderIndent` | svg.h:167-171 | the loop writes the indentation's spaces |
| `SvgObjects.RenderPoints` | svg.cpp:94-99 | the loop writes the points as x,y joined by single spaces |
| `SvgObjects.PointsSeparated` | svg.cpp:94-99 | n points are separated by exactly n-1 spaces, with none trailing |
| `SvgObjects.EscapedChar` | svg.cpp:151-171 | a markup character becomes an entity, which starts with &; any other character is copied |
| `SvgObjects.RenderData` | svg.cpp:150-172 | the loop writes the text data escaped |
| `SvgObjects.UnescapedEscaped` | svg.cpp:150-172 | the escaped data decodes back to the original data |
| `SvgObjects.EscapedSafe` | svg.cpp:150-172 | the escaped data has no markup character except the ampersands that start entities |
| `SvgObjects.OptionalAttribute` | svg.cpp:142-147 | a font attribute is written only when its value is not empty |
| `SvgObjects.RenderCircle` | svg.cpp:76-82 | writes centre, radius, then the path attributes |
| `SvgObjects.RenderPolyline` | svg.cpp:91-103 | writes the points, then the path attributes |
| `SvgObjects.RenderText` | svg.cpp:137-174 | writes the path attributes, position, offset and size, then the non-empty font attributes, then the escaped data |
| `SvgObjects.RenderObject` | svg.h:187 | each kind of object writes its own text |
| `SvgObjects.RenderLine` | svg.cpp:58-62 | Object::Render writes the indentation, the object and one newline |
| `SvgObjects.TextsAt` | svg.cpp:185-187 | object k's line comes after the lines of the objects before it and before the lines of those after it |
| `SvgObjects.DocumentIndent` | svg.cpp:184-186 | in a document every object is indented by two spaces |
| `SvgObjects.EmptyDocument` | svg.cpp:181-189 | an empty document is the XML declaration line, the svg line and the closing tag with no newline |
| `SvgObjects.Circle.constructor` | svg.h:229-230 | a new circle is centred at (0,0) with radius 1 and no attributes |
| `SvgObjects.Circle.SetCenter` | svg.cpp:66-69 | sets the centre only and returns the same circle |
| `SvgObjects.Circle.SetRadius` | svg.cpp:71-74 | sets the radius only and returns the same circle |
| `SvgObjects.Circle.SetFillColor` | svg.h:84-87 | sets the fill only and returns the same circle |
| `SvgObjects.Circle.SetStrokeColor` | svg.h:88-91 | sets the stroke only and returns the same circle |
| `SvgObjects.Circle.SetStrokeWidth` | svg.h:92-95 | sets the stroke width only and returns the same circle |
| `SvgObjects.Circle.SetStrokeLineCap` | svg.h:96-99 | sets the line cap only and returns the same circle |
| `SvgObjects.Circle.SetStrokeLineJoin` | svg.h:100-103 | sets the line join only and returns the same circle |
| `SvgObjects.Polyline.constructor` | svg.h:238-246 | a new polyline has no points and no attributes |
| `SvgObjects.Polyline.AddPoint` | svg.cpp:86-89 | appends the point and returns the same polyline |
| `SvgObjects.Polyline.SetFillColor` | svg.h:84-87 | sets the fill only and returns the same polyline |
| `SvgObjects.Polyline.SetStrokeColor` | svg.h:88-91 | sets the stroke only and returns the same polyline |
| `SvgObjects.Polyline.SetStrokeWidth` | svg.h:92-95 | sets the stroke width only and returns the same polyline |
| `SvgObjects.Polyline.SetStrokeLineCap` | svg.h:96-99 | sets the line cap only and returns the same polyline |
| `SvgObjects.Polyline.SetStrokeLineJoin` | svg.h:100-103 | sets the line join only and returns the same polyline |
| `SvgObjects.Text.constructor` | svg.h:275-280 | a new text has font size 1, position and offset (0,0), and empty data and font fields |
| `SvgObjects.Text.SetData` | svg.cpp:107-110 | sets the data only and returns the same text |
| `SvgObjects.Text.SetPosition` | svg.cpp:112-115 | sets the position only and returns the same text |
| `SvgObjects.Text.SetOffset` | svg.cpp:117-120 | sets the offset only and returns the same text |
| `SvgObjects.Text.SetFontSize` | svg.cpp:122-125 | sets the font size only and returns the same text |
| `SvgObjects.Text.SetFontFamily` | svg.cpp:127-130 | sets the font family only and returns the same text |
| `SvgObjects.Text.SetFontWeight` | svg.cpp:132-135 | sets the font weight only and returns the same text |
| `SvgObjects.Text.SetFillColor` | svg.h:84-87 | sets the fill only and returns the same text |
| `SvgObjects.Text.SetStrokeColor` | svg.h:88-91 | sets the stroke only and returns the same text |
| `SvgObjects.Text.SetStrokeWidth` | svg.h:92-95 | sets the stroke width only and returns the same text |
| `SvgObjects.Text.SetStrokeLineCap` | svg.h:96-99 | sets the line cap only and returns the same text |
| `SvgObjects.Text.SetStrokeLineJoin` | svg.h:100-103 | sets the line join only and returns the same text |
| `SvgObjects.Document.constructor` | svg.h:198 | a new document holds no objects |
| `SvgObjects.Document.Add` | svg.h:201-206 | Add appends the object at the back |
| `SvgObjects.Document.AddPtr` | svg.cpp:177-179 | AddPtr appends the object at the back |
| `SvgObjects.Document.Render` | svg.cpp:181-189 | the document writes its head lines, its objects in order, and the closing tag |
| `Numerals.NatToString` | svg.h:70 | a count prints as decimal digits with no leading zero, and they read back as the number |
| `Numerals.IntToString` | json.cpp:352-354 | an int prints with a minus sign exactly when it is negative, followed by the digits of its magnitude |
| `JsonRequests.StringsOf` | json_reader.cpp:52-54 | the stop names of a bus are read only when every item is a string, and then in order |
| `JsonRequests.StopStep` | json_reader.cpp:31-40 | a Stop request that succeeds leaves a valid catalogue |
| `JsonRequests.StopStepNames` | json_reader.cpp:33-39 | a Stop request adds exactly its own name to the known stops |
| `JsonRequests.RoadsFrom` | json_reader.cpp:67-69 | each road distance is set in turn: the invariant holds, only the distance table changes, and no entry is lost |
| `JsonRequests.RoadsFromLast` | json_reader.cpp:67-68 | the last road is SetStopsDistance from the request's stop to the named stop with the int distance |
| `JsonRequests.DistanceStep` | json_reader.cpp:63-70 | a Stop request's road distances change only the distance table, and lose no entry of it |
| `JsonRequests.BusStep` | json_reader.cpp:46-57 | a Bus request keeps the invariant, every stop and stop index entry already there, and the distances |
| `JsonRequests.Apply` | json_reader.cpp:31-41 | a pass over the base requests keeps the invariant |
| `JsonRequests.ApplyFailStays` | json_reader.cpp:31-41 | an exception ends the pass: the requests after it change nothing |
| `JsonRequests.BaseRequests` | json_reader.cpp:15-22 | BaseRequestsCommands keeps the invariant |
| `JsonRequests.BaseRequestsPasses` | json_reader.cpp:15-21 | the catalogue after the base requests is the result of the three passes |
| `JsonRequests.PassesInOrder` | json_reader.cpp:18-20 | the three passes run in full one after another: stops, then distances, then buses |
| `JsonRequests.StopsPassNames` | json_reader.cpp:30-42 | after the stop pass the known stops are the old ones plus the declared ones |
| `JsonRequests.DistancesPassFrame` | json_reader.cpp:62-72 | the distance pass changes nothing but the distance table |
| `JsonRequests.DistancesPassRecords` | json_reader.cpp:62-72 | each road between two stops known before the distance pass is recorded |
| `JsonRequests.BusesPassFrame` | json_reader.cpp:45-59 | the bus pass keeps every stop, index entry and distance |
| `JsonRequests.UndeclaredStopHasNoDistances` | json_reader.cpp:18-20 | a stop never declared in a Stop request has no recorded distance, so every distance that names it reads 0 |
| `JsonRequests.DeclaredStopsKeepDistances` | json_reader.cpp:62-72 | a road between two declared stops is in the final distance table |
| `JsonRequests.DictOf` | json_reader.cpp:101-102 | a Dict built from pairs keeps its keys ascending and holds only pairs it was given |
| `JsonRequests.InsertedInOrder` | json_reader.cpp:137-142 | pairs already in key order make a Dict with the pairs in that order |
| `JsonRequests.SwappedPair` | json_reader.cpp:101-102 | two pairs given out of key order are stored in key order |
| `JsonRequests.NotFoundAnswer` | json_reader.cpp:100-102 | the not-found answer is error_message "not found" then request_id |
| `JsonRequests.BusesAnswer` | json_reader.cpp:128-129 | the stop answer is the buses array then request_id |
| `JsonRequests.ToInt32` | request_handler.cpp:30-31 | a size_t count converted to int is kept when it fits, and is otherwise congruent modulo 2^32 |
| `JsonRequests.StatsAnswer` | json_reader.cpp:137-142 | the bus answer has exactly curvature, request_id, route_length, stop_count and unique_stop_count, in that order |
| `JsonRequests.MapDict` | json_reader.cpp:232-234 | the map answer is the map text then request_id |
| `JsonRequests.VisitingBuses` | json_reader.cpp:113-116 | the buses visiting a stop, once each, in ascending position |
| `JsonRequests.Sorted` | json_reader.cpp:118-119 | std::sort by name gives a sorted permutation of the names |
| `JsonRequests.StopBusNamesSpec` | json_reader.cpp:104-124 | a stop's bus names are sorted, each name appears as often as buses of that name serve the stop, and with distinct bus names they are strictly ascending |
| `JsonRequests.StopBusNamesAnyOrder` | json_reader.cpp:113-119 | the answer does not depend on the order the set of buses is iterated in |
| `JsonRequests.StopAnswerShape` | json_reader.cpp:97-130 | an unknown stop is answered not found; a known stop with its sorted bus names; a stop no bus serves with an empty list |
| `JsonRequests.MapRoutesResolve` | json_reader.cpp:219 | every route position of a bus handed to the renderer is a stop in the list it gets, as each `Stop*` of a route points into stops_ |
| `JsonRequests.ServedStopsSpec` | json_reader.cpp:211-216 | a stop goes to the renderer exactly when it is known and some bus visits it, and what goes is the set's own copy |
| `JsonRequests.StatAnswersNext` | json_reader.cpp:78-91 | each request adds its answer at the end, or nothing for a request of another type |
| `JsonRequests.StatAnswersFailStays` | json_reader.cpp:78-91 | an exception ends the loop: the requests after it are not answered |
| `JsonRequests.AnswerOfId` | json_reader.cpp:79-90 | a request gets an answer exactly when its type is Stop, Bus or Map, and the answer carries its id |
| `JsonRequests.StatAnswersFollowRequests` | json_reader.cpp:74-95 | there is one answer per answered request, in request order, each carrying that request's id |
| `ReaderObject.JsonReader.constructor` | json_reader.h:13-14 | the reader holds the given catalogue and empty request members |
| `ReaderObject.JsonReader.StopRequest` | json_reader.cpp:32-39 | one iteration of BaseRequestsStops: the catalogue becomes StopStep of the old one |
| `ReaderObject.JsonReader.DistanceRequest` | json_reader.cpp:64-69 | one iteration of BaseRequestsDistances: the catalogue becomes DistanceStep of the old one |
| `ReaderObject.JsonReader.BusRequest` | json_reader.cpp:47-56 | one iteration of BaseRequestsBuses: the catalogue becomes BusStep of the old one |
| `ReaderObject.JsonReader.BaseRequestsStops` | json_reader.cpp:30-42 | the loop applies the stop pass to the catalogue |
| `ReaderObject.JsonReader.BaseRequestsDistances` | json_reader.cpp:62-72 | the loop applies the distance pass to the catalogue |
| `ReaderObject.JsonReader.BaseRequestsBuses` | json_reader.cpp:45-59 | the loop applies the bus pass to the catalogue |
| `ReaderObject.JsonReader.BaseRequestsRenderSettings` | json_reader.cpp:25-27 | the render settings are the render_settings map, and the other members are unchanged |
| `ReaderObject.JsonReader.BaseRequestsCommands` | json_reader.cpp:15-22 | the catalogue and the render settings end up as BaseRequests says; base_requests is kept as the member, and the stat requests are unchanged |
| `ReaderObject.JsonReader.StatRequestsStop` | json_reader.cpp:97-130 | the method computes StopAnswer |
| `ReaderObject.JsonReader.StatRequestsBus` | json_reader.cpp:132-148 | the method computes BusAnswer |
| `ReaderObject.JsonReader.StatRequestsMap` | json_reader.cpp:211-235 | the method filters the stops as ServedStops does, hands the renderer the list of stops with the served stops and the buses, and returns MapAnswer |
| `ReaderObject.JsonReader.AnswerRequest` | json_reader.cpp:79-90 | one iteration of StatRequestsCommands computes AnswerOf |
| `ReaderObject.JsonReader.StatRequestsCommands` | json_reader.cpp:74-95 | the loop prints the answers as StatOutput says; stat_requests is kept as the member, and the base requests are unchanged |
| `ReaderObject.JsonReader.RunCommands` | json_reader.cpp:239-243 | load, base requests, then stat requests: the output is Run of the old catalogue; the catalogue stays valid, and after success it, the render settings and the three request members are those the loaded document gives through BaseRequests, base_requests and stat_requests |

## Findings

| source | as written | input that shows it | evidently intended | confidence | as-written member | corrected member |
|---|---|---|---|---|---|---|
| json.cpp:105-126 | When the text ends just after an escaped quote, `input.get(c)` fails and leaves `c` as that quote. The check after the loop then passes, so an unterminated string is accepted. | the document `"abc\"` with nothing after it loads as the string `abc"` | end of input before the closing quote throws "Failed to read string" | not executed | `JsonLoad.UnterminatedDocumentAsWritten` (loop: `JsonLoad.StringRestAsWritten`) | `JsonLoad.StringAt`, `JsonLoad.StringAsWrittenAgrees` |
| json.cpp:130-145 | The separator read after a key at line 138 is never checked. If the text then ends, `input >> c` at line 133 fails and `c` keeps that separator. When the separator was `}`, the check at line 141 passes. | `{"a"}1` loads as the dict {"a": 1} | a dict is accepted only when the loop stops at its closing brace, so this text throws "Parse error" | not executed | `JsonLoad.UnclosedDictAsWritten` (loop: `JsonLoad.DictRestAsWritten`) | `JsonLoad.DictRestBraced`, `JsonLoad.UnclosedDictRejected`, `JsonLoad.DictAsWrittenAgrees` |
| json.cpp:343 | Dict keys are printed raw, while string values are escaped. | the dict {"\"": null} prints as a text with three quotes in a row, which Load rejects with "A digit is expected" | keys are escaped like string values, so every printed document loads back | not executed | `JsonRoundTrip.UnescapedKeyAsWritten` (printer: `JsonRoundTrip.MemberTextAsWritten`) | `JsonPrint.MemberText`, `JsonRoundTrip.LoadPrintRoundTrip`, `JsonRoundTrip.EscapedKeyLoads` |

The rest of the model uses the corrected definitions. For the program's own
output the key correction changes nothing, by `JsonRoundTrip.PlainKeyAsWritten`:
every key it writes is one of its fixed ASCII keys.

## Left out

- `JsonLoad.NumberValue`: rounding to double is not modelled. `std::stod` is the parameter `toDouble` over the exact decimal value, which fails exactly where stod throws. Two texts with the same exact value, such as `0.1` and `0.10`, therefore give the same double, apart from the sign of zero (`-0.0` and `0.0` are one exact value, where stod gives -0.0 and +0.0, which print as `-0` and `0`), but texts that round to the same double are told apart.
- `JsonLoad.NumberValue`: `std::stoi` is modelled as success exactly when the value fits a 32-bit int.
- The spherical distance `ComputeDistance` (geo.h:34-40) is the parameter `distance`. Floating-point division in GetBusStat's curvature is kept as an unevaluated `Quotient`, which the parameter `divide` turns into a real.
- `JsonRequests.StatsAnswer`: the curvature is always some real, `divide` of the quotient. When the geographic length is zero, request_handler.cpp:33 divides by zero and the source writes `nan`, `-nan` or `inf`, which no real stands for. The JSON input can make such routes: a bus with an empty `stops` array, a bus with one stop, or a bus whose distinct stops sit at one point, such as stops that `AddBus` created at (0,0).
- The text form of a double (`out << real` in json.cpp and svg.cpp, and Rgba opacity) is a parameter: `format`, `number` or `num`.
- The map renderer, `SphereProjector`, `render::MakeColor`, `ColorFromJsonMaker` and the reading of render settings: only their declarations are in map_renderer.h, and none of it is part of this model. `StatRequestsMap` hands the settings, the list of stops, the served stops and the buses to the parameter `draw`. The routes of the buses are positions in that list, so `draw` can follow them to each stop's name and coordinates, as the renderer follows the buses' `Stop` pointers; the stop filter it applies first is modelled.
- `svg::Drawable` and the `Rgb`/`Rgba` default constructors: nothing in the model calls them. Colours are built from their channels.
- Streams, `main.cpp`, `std::endl` flushing: input is a `string` and output is the returned text.
- shared_ptr ownership and pointer identity. Stops and buses are positions in their lists, and the ordered sets hold copies by name.
- `std::unordered_set<Bus*>` iteration order: it is left open. `JsonRequests.StopBusNamesAnyOrder` shows that the sorted answer does not depend on it.
- `RequestHandler.BusStat`: the road length is summed as an exact integer. The source sums into a `double`, which is exact only while the sum stays below 2^53.
- `RequestHandler.BusStat`: the route length is unbounded. The source's `(int)length` is undefined past the int range, so the Bus answer for such a route is `Err(Indeterminate)`.
- `JsonRequests.ToInt32` wraps the stop and distinct-stop counts modulo 2^32. This is the implementation-defined size_t-to-int conversion of common platforms.
- `Indeterminate` stands for undefined behaviour. It covers `from->name` on a stop that is not found (json_reader.cpp:68), reading a character that was never assigned, and LoadNode at the end of the text.
- Strings are sequences of Unicode characters, not UTF-8 bytes. For ASCII text the two agree.
- `Lexicographic.Less` compares characters as unsigned code points, as `std::string`'s `operator<` and `std::map` do. The comparators' `std::lexicographical_compare` on `char` (domain.h:34-36, 43-45) compares signed chars on common platforms. For names with bytes above 0x7F, `Domain.InOrder`, the order of `GetStopsSharedPtrs`/`GetBusesSharedPtrs`, can therefore differ from the source.
- `JsonRoundTrip.LoadPrintRoundTrip` requires a document without doubles (`Printable`), because the text form of a double is a parameter. The same holds for the other round-trip lemmas.
- The state after an exception is left unspecified: the results are `Err`, and the catalogue methods promise only the invariant.
- A stop answer lists a bus name twice when two buses of that name serve the stop, as the source does. `JsonRequests.StopBusNamesSpec` counts the names.
- `BusStatistics`'s default member initialisers (domain.h:23-28) are not modelled: GetBusStat sets all four fields, so the defaults are never observed.
- `GetStops` and `GetBuses` return the lists themselves. Their members state nothing of their own; `Catalogue.State.GetStopsInInsertionOrder` and `Catalogue.State.GetBusesInInsertionOrder` cover them.
