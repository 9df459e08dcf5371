/** json_reader.cpp, as functions of the catalogue's state: the three passes
    BaseRequestsCommands makes over base_requests, the answers to
    stat_requests, and the stop filter of a map request. An exception the
    source would throw is an Err. */
module JsonRequests {
  import opened Wrappers
  import opened Geo
  import opened Domain
  import opened Lexicographic
  import opened Catalogue
  import opened RequestHandler
  import opened Json
  import JsonLoad
  import JsonPrint
  import SvgObjects

  /** What the reader hands to code outside this model: the spherical
      distance, floating-point division, the printing of a double, std::stod, and the
      map renderer (which reads its settings and draws the map). The renderer
      gets the list of stops as well: a bus's route holds positions in it, as
      the source's routes hold pointers into stops_. */
  datatype Environment = Environment(
    distance: (Coordinates, Coordinates) -> real,
    divide: Quotient -> real,
    number: real -> string,
    toDouble: JsonLoad.Conversion,
    draw: (seq<Entry>, seq<Stop>, NameSet<Stop>, NameSet<Bus>) -> Result<seq<SvgObjects.Shape>, Exception>)

  /** Whether an operation completed or threw, without its value. */
  function Outcome<T>(r: Result<T, Exception>): Result<(), Exception> {
    if r.Ok? then Ok(()) else Err(r.error)
  }

  // Reading a request: request.AsMap().at(key), then an As* accessor

  function Field(request: Node, key: string): Result<Node, Exception> {
    var fields :- AsMap(request);
    DictAt(fields, key)
  }

  function StringField(request: Node, key: string): Result<string, Exception> {
    var n :- Field(request, key);
    AsString(n)
  }

  function DoubleField(request: Node, key: string): Result<real, Exception> {
    var n :- Field(request, key);
    AsDouble(n)
  }

  function IntField(request: Node, key: string): Result<Int32, Exception> {
    var n :- Field(request, key);
    AsInt(n)
  }

  function BoolField(request: Node, key: string): Result<bool, Exception> {
    var n :- Field(request, key);
    AsBool(n)
  }

  function ArrayField(request: Node, key: string): Result<seq<Node>, Exception> {
    var n :- Field(request, key);
    AsArray(n)
  }

  function MapField(request: Node, key: string): Result<seq<Entry>, Exception> {
    var n :- Field(request, key);
    AsMap(n)
  }

  /** loaded_requests_.at(key).AsArray() */
  function ArrayAt(entries: seq<Entry>, key: string): Result<seq<Node>, Exception> {
    var n :- DictAt(entries, key);
    AsArray(n)
  }

  /** loaded_requests_.at(key).AsMap() */
  function MapAt(entries: seq<Entry>, key: string): Result<seq<Entry>, Exception> {
    var n :- DictAt(entries, key);
    AsMap(n)
  }

  /** stop.AsString() for each element of an array, in order. */
  function StringsOf(items: seq<Node>): (r: Result<seq<string>, Exception>)
    ensures r.Ok? <==> forall k :: 0 <= k < |items| ==> items[k].String?
    ensures r.Ok? ==> |r.value| == |items| && forall k :: 0 <= k < |items| ==> items[k] == String(r.value[k])
    decreases |items|
  {
    if items == [] then Ok([])
    else
      var init :- StringsOf(items[..|items| - 1]);
      var last :- AsString(items[|items| - 1]);
      Ok(init + [last])
  }

  // The base requests

  /** One request of BaseRequestsStops: a Stop request adds its stop, or
      moves it if the name is known; another type is skipped. */
  function StopStep(c: State, request: Node): (r: Result<State, Exception>)
    requires c.Valid()
    ensures r.Ok? ==> r.value.Valid()
  {
    var kind :- StringField(request, "type");
    if kind != "Stop" then Ok(c)
    else
      var name :- StringField(request, "name");
      var latitude :- DoubleField(request, "latitude");
      var longitude :- DoubleField(request, "longitude");
      c.AddStopKeepsValid(name, Coordinates(latitude, longitude));
      Ok(c.AddStop(name, Coordinates(latitude, longitude)))
  }

  /** d is c with distances added or overwritten and nothing else changed. */
  predicate DistancesGrown(c: State, d: State) {
    d == c.(stopsDistance := d.stopsDistance) && c.stopsDistance.Keys <= d.stopsDistance.Keys
  }

  /** The inner loop of BaseRequestsDistances: each road distance, in key
      order, recorded from the stop `from` points to. When FindStop found no
      stop, `from->name` dereferences a null pointer, which is undefined
      behaviour, as soon as there is a road distance to record. */
  function RoadsFrom(c: State, from: Option<StopRef>, roads: seq<Entry>): (r: Result<State, Exception>)
    requires c.Valid()
    requires from.Some? ==> from.value < |c.stops|
    ensures r.Ok? ==> r.value.Valid() && DistancesGrown(c, r.value)
    decreases |roads|
  {
    if roads == [] then Ok(c)
    else
      var before :- RoadsFrom(c, from, roads[..|roads| - 1]);
      if from.None? then Err(Indeterminate)
      else
        var road := roads[|roads| - 1];
        var distance :- AsInt(road.value);
        Ok(before.SetStopsDistance(before.stops[from.value].name, road.key, distance))
  }

  /** One request of BaseRequestsDistances: a Stop request records its road distances. */
  function DistanceStep(c: State, request: Node): (r: Result<State, Exception>)
    requires c.Valid()
    ensures r.Ok? ==> r.value.Valid() && DistancesGrown(c, r.value)
  {
    var kind :- StringField(request, "type");
    if kind != "Stop" then Ok(c)
    else
      var name :- StringField(request, "name");
      var roads :- MapField(request, "road_distances");
      RoadsFrom(c, c.FindStop(name), roads)
  }

  /** d keeps c's distances, c's stops as its first stops, and c's index entries. */
  predicate StopsKept(c: State, d: State) {
    && d.stopsDistance == c.stopsDistance
    && |c.stops| <= |d.stops| && d.stops[..|c.stops|] == c.stops
    && forall n :: n in c.nameToStop ==> n in d.nameToStop && d.nameToStop[n] == c.nameToStop[n]
  }

  lemma StopsKeptTransitive(a: State, b: State, c: State)
    requires StopsKept(a, b) && StopsKept(b, c)
    ensures StopsKept(a, c)
  {
    assert c.stops[..|a.stops|] == c.stops[..|b.stops|][..|a.stops|];
  }

  /** One request of BaseRequestsBuses: a Bus request adds its bus (and any
      stop its route names that is not known yet). */
  function BusStep(c: State, request: Node): (r: Result<State, Exception>)
    requires c.Valid()
    ensures r.Ok? ==> r.value.Valid() && StopsKept(c, r.value)
  {
    var kind :- StringField(request, "type");
    if kind != "Bus" then Ok(c)
    else
      var name :- StringField(request, "name");
      var isCircle :- BoolField(request, "is_roundtrip");
      var items :- ArrayField(request, "stops");
      var stopNames :- StringsOf(items);
      c.AddBusStops(name, stopNames, isCircle);
      Ok(c.AddBus(name, stopNames, isCircle))
  }

  /** The three loops over base_requests. */
  datatype Pass = StopsPass | DistancesPass | BusesPass

  function Step(pass: Pass, c: State, request: Node): (r: Result<State, Exception>)
    requires c.Valid()
    ensures r.Ok? ==> r.value.Valid()
  {
    match pass
    case StopsPass => StopStep(c, request)
    case DistancesPass => DistanceStep(c, request)
    case BusesPass => BusStep(c, request)
  }

  /** One pass: the step applied to every base request in order; the first
      exception ends it. */
  function Apply(pass: Pass, c: State, requests: seq<Node>): (r: Result<State, Exception>)
    requires c.Valid()
    ensures r.Ok? ==> r.value.Valid()
    decreases |requests|
  {
    if requests == [] then Ok(c)
    else
      var before :- Apply(pass, c, requests[..|requests| - 1]);
      Step(pass, before, requests[|requests| - 1])
  }

  /** The three passes of BaseRequestsCommands: all stops, then all
      distances, then all buses. */
  function Passes(c: State, requests: seq<Node>): (r: Result<State, Exception>)
    requires c.Valid()
    ensures r.Ok? ==> r.value.Valid()
  {
    var stops :- Apply(StopsPass, c, requests);
    var distances :- Apply(DistancesPass, stops, requests);
    Apply(BusesPass, distances, requests)
  }

  /** BaseRequestsCommands: the passes over base_requests, then the render settings. */
  function BaseRequests(c: State, loaded: seq<Entry>): (r: Result<(State, seq<Entry>), Exception>)
    requires c.Valid()
    ensures r.Ok? ==> r.value.0.Valid()
  {
    var requests :- ArrayAt(loaded, "base_requests");
    var state :- Passes(c, requests);
    var settings :- MapAt(loaded, "render_settings");
    Ok((state, settings))
  }

  /** One more request runs the step over what the pass made of those before it. */
  lemma ApplyNext(pass: Pass, c: State, requests: seq<Node>, k: nat)
    requires c.Valid() && k < |requests| && Apply(pass, c, requests[..k]).Ok?
    ensures Apply(pass, c, requests[..k + 1]) == Step(pass, Apply(pass, c, requests[..k]).value, requests[k])
  {
    assert requests[..k + 1][..k] == requests[..k];
  }

  /** A pass that completes ran its step on the last request, over what it
      made of the others. */
  lemma ApplyLast(pass: Pass, c: State, requests: seq<Node>)
    requires c.Valid() && requests != [] && Apply(pass, c, requests).Ok?
    ensures Apply(pass, c, requests[..|requests| - 1]).Ok?
    ensures Apply(pass, c, requests) ==
      Step(pass, Apply(pass, c, requests[..|requests| - 1]).value, requests[|requests| - 1])
  {
  }

  /** When BaseRequestsCommands completes, the passes completed with the state it returns. */
  lemma BaseRequestsPasses(c: State, loaded: seq<Entry>, requests: seq<Node>)
    requires c.Valid() && BaseRequests(c, loaded).Ok? && ArrayAt(loaded, "base_requests") == Ok(requests)
    ensures Passes(c, requests) == Ok(BaseRequests(c, loaded).value.0)
  {
  }

  /** When the passes complete, each completed on the state the one before left. */
  lemma PassesInOrder(c: State, requests: seq<Node>)
    requires c.Valid() && Passes(c, requests).Ok?
    ensures Apply(StopsPass, c, requests).Ok?
    ensures Apply(DistancesPass, Apply(StopsPass, c, requests).value, requests).Ok?
    ensures var d := Apply(DistancesPass, Apply(StopsPass, c, requests).value, requests).value;
      Apply(BusesPass, d, requests) == Passes(c, requests)
  {
  }

  /** Once a pass has thrown on a prefix of the requests, it throws the same on all of them. */
  lemma {:induction false} ApplyFailStays(pass: Pass, c: State, requests: seq<Node>, k: nat)
    requires c.Valid() && k <= |requests| && Apply(pass, c, requests[..k]).Err?
    ensures Apply(pass, c, requests) == Apply(pass, c, requests[..k])
    decreases |requests|
  {
    if k < |requests| {
      var init := requests[..|requests| - 1];
      assert init[..k] == requests[..k];
      ApplyFailStays(pass, c, init, k);
    } else {
      assert requests[..k] == requests;
    }
  }

  lemma {:induction false} RoadsFromFailStays(c: State, from: Option<StopRef>, roads: seq<Entry>, k: nat)
    requires c.Valid() && (from.Some? ==> from.value < |c.stops|)
    requires k <= |roads| && RoadsFrom(c, from, roads[..k]).Err?
    ensures RoadsFrom(c, from, roads) == RoadsFrom(c, from, roads[..k])
    decreases |roads|
  {
    if k < |roads| {
      var init := roads[..|roads| - 1];
      assert init[..k] == roads[..k];
      RoadsFromFailStays(c, from, init, k);
    } else {
      assert roads[..k] == roads;
    }
  }

  lemma {:induction false} StringsOfFailStays(items: seq<Node>, k: nat)
    requires k <= |items| && StringsOf(items[..k]).Err?
    ensures StringsOf(items) == StringsOf(items[..k])
    decreases |items|
  {
    if k < |items| {
      var init := items[..|items| - 1];
      assert init[..k] == items[..k];
      StringsOfFailStays(init, k);
    } else {
      assert items[..k] == items;
    }
  }

  /** The stop a Stop request names, if it is one. */
  function Declared(request: Node): Option<string> {
    if StringField(request, "type") == Ok("Stop") && StringField(request, "name").Ok? then
      Some(StringField(request, "name").value)
    else None
  }

  /** The names f picks out of the elements. */
  function Collected<T>(xs: seq<T>, f: T -> Option<string>): set<string>
    decreases |xs|
  {
    if xs == [] then {}
    else
      var init := Collected(xs[..|xs| - 1], f);
      match f(xs[|xs| - 1])
      case Some(name) => init + {name}
      case None => init
  }

  /** A name is collected exactly when f picks it out of some element. */
  lemma {:induction false} CollectedSpec<T>(xs: seq<T>, f: T -> Option<string>)
    ensures forall n :: n in Collected(xs, f) <==> exists k :: 0 <= k < |xs| && f(xs[k]) == Some(n)
    decreases |xs|
  {
    if xs != [] {
      var init := xs[..|xs| - 1];
      CollectedSpec(init, f);
      assert forall k :: 0 <= k < |init| ==> init[k] == xs[k];
    }
  }

  /** The last element adds what f picks out of it. */
  lemma CollectedLast<T>(xs: seq<T>, f: T -> Option<string>)
    requires xs != []
    ensures Collected(xs, f) == Collected(xs[..|xs| - 1], f) +
      (if f(xs[|xs| - 1]).Some? then {f(xs[|xs| - 1]).value} else {})
  {
  }

  /** What f picks out of an element is collected. */
  lemma {:induction false} CollectedHas<T>(xs: seq<T>, f: T -> Option<string>, k: nat)
    requires k < |xs| && f(xs[k]).Some?
    ensures f(xs[k]).value in Collected(xs, f)
    decreases |xs|
  {
    if k < |xs| - 1 {
      assert xs[..|xs| - 1][k] == xs[k];
      CollectedHas(xs[..|xs| - 1], f, k);
    }
  }

  /** The names the Stop requests among the requests declare. */
  function DeclaredNames(requests: seq<Node>): set<string> {
    Collected(requests, Declared)
  }

  /** One Stop request adds its name to those known; another request adds none. */
  lemma StopStepNames(c: State, request: Node)
    requires c.Valid() && StopStep(c, request).Ok?
    ensures StopStep(c, request).value.nameToStop.Keys ==
      c.nameToStop.Keys + (if Declared(request).Some? then {Declared(request).value} else {})
  {
  }

  lemma UnionAssociative(a: set<string>, b: set<string>, c: set<string>)
    ensures a + b + c == a + (b + c)
  {
  }

  /** The stops pass knows exactly the stops known before and those the
      requests declare. */
  lemma {:induction false} StopsPassNames(c: State, requests: seq<Node>)
    requires c.Valid() && Apply(StopsPass, c, requests).Ok?
    ensures Apply(StopsPass, c, requests).value.nameToStop.Keys == c.nameToStop.Keys + DeclaredNames(requests)
    decreases |requests|
  {
    if requests != [] {
      var init, last := requests[..|requests| - 1], requests[|requests| - 1];
      StopsPassNames(c, init);
      var before := Apply(StopsPass, c, init).value;
      ApplyLast(StopsPass, c, requests);
      StopStepNames(before, last);
      CollectedLast(requests, Declared);
      var extra := if Declared(last).Some? then {Declared(last).value} else {};
      UnionAssociative(c.nameToStop.Keys, DeclaredNames(init), extra);
    }
  }

  /** The distances pass changes the distance table alone, and only adds keys. */
  lemma {:induction false} DistancesPassFrame(c: State, requests: seq<Node>)
    requires c.Valid() && Apply(DistancesPass, c, requests).Ok?
    ensures DistancesGrown(c, Apply(DistancesPass, c, requests).value)
    decreases |requests|
  {
    if requests != [] {
      DistancesPassFrame(c, requests[..|requests| - 1]);
    }
  }

  /** The buses pass keeps the distance table, every stop known before it, and its index entry. */
  lemma {:induction false} BusesPassFrame(c: State, requests: seq<Node>)
    requires c.Valid() && Apply(BusesPass, c, requests).Ok?
    ensures StopsKept(c, Apply(BusesPass, c, requests).value)
    decreases |requests|
  {
    if requests == [] {
      assert c.stops[..|c.stops|] == c.stops;
    } else {
      var init := requests[..|requests| - 1];
      ApplyLast(BusesPass, c, requests);
      BusesPassFrame(c, init);
      var before := Apply(BusesPass, c, init).value;
      assert StopsKept(before, BusStep(before, requests[|requests| - 1]).value);
      StopsKeptTransitive(c, before, Apply(BusesPass, c, requests).value);
    }
  }

  /** A road distance from a known stop to a known stop is recorded. */
  lemma {:induction false} RoadsFromRecords(c: State, from: Option<StopRef>, roads: seq<Entry>, j: nat)
    requires c.Valid() && from.Some? && from.value < |c.stops| && RoadsFrom(c, from, roads).Ok?
    requires j < |roads| && roads[j].key in c.nameToStop
    ensures (from.value, c.nameToStop[roads[j].key]) in RoadsFrom(c, from, roads).value.stopsDistance
    decreases |roads|
  {
    var init := roads[..|roads| - 1];
    var p := (from.value, c.nameToStop[roads[j].key]);
    if j < |init| {
      assert init[j] == roads[j];
      RoadsFromRecords(c, from, init, j);
      RoadsFromKeeps(c, from, roads, p);
    } else {
      RoadsFromRecordsLast(c, from, roads);
    }
  }

  /** The last road distance keeps every distance recorded before it. */
  lemma RoadsFromKeeps(c: State, from: Option<StopRef>, roads: seq<Entry>, p: (StopRef, StopRef))
    requires c.Valid() && from.Some? && from.value < |c.stops| && roads != [] && RoadsFrom(c, from, roads).Ok?
    requires RoadsFrom(c, from, roads[..|roads| - 1]).Ok?
    requires p in RoadsFrom(c, from, roads[..|roads| - 1]).value.stopsDistance
    ensures p in RoadsFrom(c, from, roads).value.stopsDistance
  {
    RoadsFromLast(c, from, roads);
  }

  /** The last road distance is recorded when its stop is known. */
  lemma RoadsFromRecordsLast(c: State, from: Option<StopRef>, roads: seq<Entry>)
    requires c.Valid() && from.Some? && from.value < |c.stops| && roads != [] && RoadsFrom(c, from, roads).Ok?
    requires roads[|roads| - 1].key in c.nameToStop
    ensures (from.value, c.nameToStop[roads[|roads| - 1].key]) in RoadsFrom(c, from, roads).value.stopsDistance
  {
    RoadsFromLast(c, from, roads);
    var before := RoadsFrom(c, from, roads[..|roads| - 1]).value;
    var key := roads[|roads| - 1].key;
    assert before.nameToStop == c.nameToStop && before.stops == c.stops;
    assert before.FindStop(before.stops[from.value].name) == Some(from.value);
    assert before.FindStop(key) == Some(c.nameToStop[key]);
  }

  /** The inner loop, when it completes, recorded its last road distance over what it made of the others. */
  lemma RoadsFromLast(c: State, from: Option<StopRef>, roads: seq<Entry>)
    requires c.Valid() && from.Some? && from.value < |c.stops| && roads != [] && RoadsFrom(c, from, roads).Ok?
    ensures RoadsFrom(c, from, roads[..|roads| - 1]).Ok? && AsInt(roads[|roads| - 1].value).Ok?
    ensures var before := RoadsFrom(c, from, roads[..|roads| - 1]).value;
      RoadsFrom(c, from, roads) ==
        Ok(before.SetStopsDistance(before.stops[from.value].name, roads[|roads| - 1].key, AsInt(roads[|roads| - 1].value).value))
  {
  }

  /** A Stop request records the road distances it lists from the stop it names. */
  lemma DistanceStepRoads(c: State, request: Node, from: string, roads: seq<Entry>)
    requires c.Valid() && Declared(request) == Some(from) && MapField(request, "road_distances") == Ok(roads)
    ensures DistanceStep(c, request) == RoadsFrom(c, c.FindStop(from), roads)
  {
  }

  /** Every road distance of a Stop request whose two stops are known when
      the distances pass runs ends up in the table. */
  lemma {:induction false} DistancesPassRecords(c: State, requests: seq<Node>, k: nat, from: string, roads: seq<Entry>, j: nat)
    requires c.Valid() && Apply(DistancesPass, c, requests).Ok?
    requires k < |requests| && Declared(requests[k]) == Some(from) && MapField(requests[k], "road_distances") == Ok(roads)
    requires j < |roads| && from in c.nameToStop && roads[j].key in c.nameToStop
    ensures (c.nameToStop[from], c.nameToStop[roads[j].key]) in Apply(DistancesPass, c, requests).value.stopsDistance
    decreases |requests|
  {
    var init := requests[..|requests| - 1];
    if k < |init| {
      ApplyLast(DistancesPass, c, requests);
      assert init[k] == requests[k];
      DistancesPassRecords(c, init, k, from, roads, j);
      DistancesStepKeeps(c, requests, (c.nameToStop[from], c.nameToStop[roads[j].key]));
    } else {
      DistancesLastRecords(c, requests, from, roads, j);
    }
  }

  /** A distance recorded before the last request stays recorded after it. */
  lemma DistancesStepKeeps(c: State, requests: seq<Node>, p: (StopRef, StopRef))
    requires c.Valid() && requests != [] && Apply(DistancesPass, c, requests).Ok?
    requires Apply(DistancesPass, c, requests[..|requests| - 1]).Ok?
    requires p in Apply(DistancesPass, c, requests[..|requests| - 1]).value.stopsDistance
    ensures p in Apply(DistancesPass, c, requests).value.stopsDistance
  {
    ApplyLast(DistancesPass, c, requests);
  }

  /** The last request's road distances between stops known before the pass are recorded. */
  lemma DistancesLastRecords(c: State, requests: seq<Node>, from: string, roads: seq<Entry>, j: nat)
    requires c.Valid() && requests != [] && Apply(DistancesPass, c, requests).Ok?
    requires Declared(requests[|requests| - 1]) == Some(from)
    requires MapField(requests[|requests| - 1], "road_distances") == Ok(roads)
    requires j < |roads| && from in c.nameToStop && roads[j].key in c.nameToStop
    ensures (c.nameToStop[from], c.nameToStop[roads[j].key]) in Apply(DistancesPass, c, requests).value.stopsDistance
  {
    var init := requests[..|requests| - 1];
    ApplyLast(DistancesPass, c, requests);
    var before := Apply(DistancesPass, c, init).value;
    DistancesPassFrame(c, init);
    DistanceStepRoads(before, requests[|requests| - 1], from, roads);
    RoadsFromRecords(before, Some(c.nameToStop[from]), roads, j);
  }

  /** A stop whose name d does not know is in none of d's distances, nor in
      those of a state f that keeps d's distances and stops and adds stops
      after them. */
  lemma NoDistancesInvolving(d: State, f: State, n: string)
    requires d.Valid() && n !in d.nameToStop
    requires f.Valid() && f.stopsDistance == d.stopsDistance
    requires |d.stops| <= |f.stops| && f.stops[..|d.stops|] == d.stops
    ensures forall p :: p in f.stopsDistance ==> f.stops[p.0].name != n && f.stops[p.1].name != n
    ensures n in f.nameToStop ==> forall j: StopRef ::
      f.GetRealStopsDistance(f.nameToStop[n], j) == 0 && f.GetRealStopsDistance(j, f.nameToStop[n]) == 0
  {
    forall p | p in f.stopsDistance ensures f.stops[p.0].name != n && f.stops[p.1].name != n {
      assert f.stops[p.0] == d.stops[p.0] && f.stops[p.1] == d.stops[p.1];
    }
  }

  /** Because the distances pass runs before the buses pass, a stop that no
      Stop request declares has no recorded distance, even when a bus route
      creates it later: every lookup from or to it reads 0. */
  lemma UndeclaredStopHasNoDistances(loaded: seq<Entry>, requests: seq<Node>, n: string)
    requires BaseRequests(Empty, loaded).Ok?
    requires ArrayAt(loaded, "base_requests") == Ok(requests) && n !in DeclaredNames(requests)
    ensures var f := BaseRequests(Empty, loaded).value.0;
      && (forall p :: p in f.stopsDistance ==> f.stops[p.0].name != n && f.stops[p.1].name != n)
      && (n in f.nameToStop ==> forall j: StopRef ::
            f.GetRealStopsDistance(f.nameToStop[n], j) == 0 && f.GetRealStopsDistance(j, f.nameToStop[n]) == 0)
  {
    EmptyIsValid();
    BaseRequestsPasses(Empty, loaded, requests);
    PassesInOrder(Empty, requests);
    var s := Apply(StopsPass, Empty, requests).value;
    StopsPassNames(Empty, requests);
    var d := Apply(DistancesPass, s, requests).value;
    DistancesPassFrame(s, requests);
    BusesPassFrame(d, requests);
    NoDistancesInvolving(d, Apply(BusesPass, d, requests).value, n);
  }

  /** The other direction: a road distance between two declared stops is recorded. */
  lemma DeclaredStopsKeepDistances(loaded: seq<Entry>, requests: seq<Node>, k: nat, from: string, roads: seq<Entry>, j: nat)
    requires BaseRequests(Empty, loaded).Ok?
    requires ArrayAt(loaded, "base_requests") == Ok(requests)
    requires k < |requests| && Declared(requests[k]) == Some(from) && MapField(requests[k], "road_distances") == Ok(roads)
    requires j < |roads| && roads[j].key in DeclaredNames(requests)
    ensures var f := BaseRequests(Empty, loaded).value.0;
      && from in f.nameToStop && roads[j].key in f.nameToStop
      && (f.nameToStop[from], f.nameToStop[roads[j].key]) in f.stopsDistance
  {
    EmptyIsValid();
    var s := Apply(StopsPass, Empty, requests).value;
    StopsPassNames(Empty, requests);
    var d := Apply(DistancesPass, s, requests).value;
    DistancesPassFrame(s, requests);
    CollectedHas(requests, Declared, k);
    assert from in s.nameToStop && roads[j].key in s.nameToStop;
    DistancesPassRecords(s, requests, k, from, roads, j);
    assert d.nameToStop == s.nameToStop;
    BaseRequestsPasses(Empty, loaded, requests);
    PassesInOrder(Empty, requests);
    BusesPassFrame(d, requests);
  }

  // The stat requests

  const NotFound := "not found"

  /** A json::Dict built from an initializer list: the pairs are inserted in
      turn, so the keys come out in order and a repeated key keeps its first value. */
  function DictOf(pairs: seq<Entry>): (r: seq<Entry>)
    ensures KeysAscending(r)
    ensures forall e :: e in r ==> e in pairs
    decreases |pairs|
  {
    if pairs == [] then []
    else
      var last := pairs[|pairs| - 1];
      var r := DictInsert(DictOf(pairs[..|pairs| - 1]), last.key, last.value);
      assert forall e :: e in pairs[..|pairs| - 1] ==> e in pairs;
      r
  }

  /** The answer for a name the catalogue does not know. */
  function NotFoundAnswer(id: Int32): (r: Node)
    ensures r == Dict([Entry("error_message", String(NotFound)), Entry("request_id", Int(id))])
  {
    assert Less("error_message", "request_id");
    SwappedPair(Entry("request_id", Int(id)), Entry("error_message", String(NotFound)));
    Dict(DictOf([Entry("request_id", Int(id)), Entry("error_message", String(NotFound))]))
  }

  /** The answer listing the buses of a stop. */
  function BusesAnswer(buses: seq<Node>, id: Int32): (r: Node)
    ensures r == Dict([Entry("buses", Array(buses)), Entry("request_id", Int(id))])
  {
    var pairs := [Entry("buses", Array(buses)), Entry("request_id", Int(id))];
    assert Less("buses", "request_id");
    InsertedInOrder(pairs);
    Dict(DictOf(pairs))
  }

  /** The int a json::Node holds for a count: two's-complement wrap-around to 32 bits. */
  function ToInt32(x: int): (r: Int32)
    ensures -0x8000_0000 <= x <= 0x7FFF_FFFF ==> r == x
    ensures (r - x) % 0x1_0000_0000 == 0
  {
    (x + 0x8000_0000) % 0x1_0000_0000 - 0x8000_0000
  }

  /** The keys of a bus answer, in the order the std::map holds them. */
  lemma BusKeysAscending()
    ensures Less("curvature", "request_id") && Less("request_id", "route_length")
    ensures Less("route_length", "stop_count") && Less("stop_count", "unique_stop_count")
  {
    assert "request_id"[1..] == "equest_id" && "route_length"[1..] == "oute_length";
  }

  /** The answer with a bus's statistics. */
  function StatsAnswer(stat: BusStatistics, id: Int32, divide: Quotient -> real): (r: Node)
    ensures r == Dict([
      Entry("curvature", Double(divide(stat.curvature))),
      Entry("request_id", Int(id)),
      Entry("route_length", Int(ToInt32(stat.routeLength))),
      Entry("stop_count", Int(ToInt32(stat.stops))),
      Entry("unique_stop_count", Int(ToInt32(stat.uniqueStops)))])
  {
    var pairs := [
      Entry("curvature", Double(divide(stat.curvature))),
      Entry("request_id", Int(id)),
      Entry("route_length", Int(ToInt32(stat.routeLength))),
      Entry("stop_count", Int(ToInt32(stat.stops))),
      Entry("unique_stop_count", Int(ToInt32(stat.uniqueStops)))];
    BusKeysAscending();
    LessTransitive("curvature", "request_id", "route_length");
    LessTransitive("request_id", "route_length", "stop_count");
    LessTransitive("route_length", "stop_count", "unique_stop_count");
    LessTransitive("curvature", "route_length", "stop_count");
    LessTransitive("request_id", "stop_count", "unique_stop_count");
    LessTransitive("curvature", "stop_count", "unique_stop_count");
    InsertedInOrder(pairs);
    Dict(DictOf(pairs))
  }

  /** Pairs whose keys already ascend are their own dict. */
  lemma {:induction false} InsertedInOrder(pairs: seq<Entry>)
    requires KeysAscending(pairs)
    ensures DictOf(pairs) == pairs
    decreases |pairs|
  {
    if pairs != [] {
      var init := pairs[..|pairs| - 1];
      assert KeysAscending(init);
      InsertedInOrder(init);
      DictInsertLast(init, pairs[|pairs| - 1].key, pairs[|pairs| - 1].value);
      assert init + [pairs[|pairs| - 1]] == pairs;
    }
  }

  /** Two pairs given against key order come out swapped. */
  lemma SwappedPair(a: Entry, b: Entry)
    requires Less(b.key, a.key)
    ensures DictOf([a, b]) == [b, a]
  {
    assert [a, b][..1] == [a];
    assert [a][..0] == [];
    LessIrreflexive(a.key);
    assert DictOf([a]) == [a];
    AscendingFront(b, [a]);
  }

  /** The answer holding the map's SVG text. */
  function MapDict(svg: string, id: Int32): (r: Node)
    ensures r == Dict([Entry("map", String(svg)), Entry("request_id", Int(id))])
  {
    assert Less("map", "request_id");
    SwappedPair(Entry("request_id", Int(id)), Entry("map", String(svg)));
    Dict(DictOf([Entry("request_id", Int(id)), Entry("map", String(svg))]))
  }

  /** The buses among the first k whose stored route visits the stop, in index order. */
  function VisitingBuses(c: State, stop: StopRef, k: nat): (r: seq<BusRef>)
    requires k <= |c.buses|
    ensures forall i :: 0 <= i < |r| ==> r[i] < k && stop in c.buses[r[i]].stops
    ensures forall b: BusRef :: b < k && stop in c.buses[b].stops ==> b in r
    ensures forall i, j :: 0 <= i < j < |r| ==> r[i] < r[j]
    decreases k
  {
    if k == 0 then []
    else
      var r := VisitingBuses(c, stop, k - 1);
      if stop in c.buses[k - 1].stops then r + [k - 1] else r
  }

  /** The name of a bus. */
  function BusNameOf(c: State): BusRef -> string {
    (b: BusRef) => if b < |c.buses| then c.buses[b].name else ""
  }

  /** f applied to each element, in order. */
  function Mapped<T>(xs: seq<T>, f: T -> string): (r: seq<string>)
    ensures |r| == |xs| && forall i :: 0 <= i < |xs| ==> r[i] == f(xs[i])
  {
    seq(|xs|, i requires 0 <= i < |xs| => f(xs[i]))
  }

  /** The elements f maps to n. */
  ghost function With<T>(xs: seq<T>, f: T -> string, n: string): set<T> {
    set x | x in xs && f(x) == n
  }

  /** Mapping distinct elements gives n once for each element mapped to n. */
  lemma {:induction false} MappedCount<T>(xs: seq<T>, f: T -> string, n: string)
    requires forall i, j :: 0 <= i < j < |xs| ==> xs[i] != xs[j]
    ensures multiset(Mapped(xs, f))[n] == |With(xs, f, n)|
    decreases |xs|
  {
    if xs != [] {
      var init, x := xs[..|xs| - 1], xs[|xs| - 1];
      MappedCount(init, f, n);
      assert Mapped(xs, f) == Mapped(init, f) + [f(x)];
      assert forall i :: 0 <= i < |init| ==> init[i] == xs[i] && init[i] != x;
      if f(x) == n {
        assert With(xs, f, n) == With(init, f, n) + {x};
      } else {
        assert With(xs, f, n) == With(init, f, n);
      }
    }
  }

  /** Two orders of the same distinct elements map to the same names, repeats counted. */
  lemma MappedPermutation<T>(xs: seq<T>, ys: seq<T>, f: T -> string)
    requires forall i, j :: 0 <= i < j < |xs| ==> xs[i] != xs[j]
    requires forall i, j :: 0 <= i < j < |ys| ==> ys[i] != ys[j]
    requires forall x :: x in xs <==> x in ys
    ensures multiset(Mapped(xs, f)) == multiset(Mapped(ys, f))
  {
    forall n ensures multiset(Mapped(xs, f))[n] == multiset(Mapped(ys, f))[n] {
      MappedCount(xs, f, n);
      MappedCount(ys, f, n);
      assert With(xs, f, n) == With(ys, f, n);
    }
  }

  /** std::sort by name, as insertion steps. */
  function Sorted(names: seq<string>): (r: seq<string>)
    ensures NonDescending(r) && multiset(r) == multiset(names)
    decreases |names|
  {
    if names == [] then []
    else
      assert names == names[..|names| - 1] + [names[|names| - 1]];
      InsertSorted(Sorted(names[..|names| - 1]), names[|names| - 1])
  }

  /** The bus names a Stop answer lists: those of the buses visiting the stop, sorted. */
  function StopBusNames(c: State, stop: StopRef): seq<string>
    requires c.Valid()
  {
    Sorted(Mapped(VisitingBuses(c, stop, |c.buses|), BusNameOf(c)))
  }

  function NameNodes(names: seq<string>): (r: seq<Node>)
    ensures |r| == |names| && forall i :: 0 <= i < |names| ==> r[i] == String(names[i])
  {
    seq(|names|, i requires 0 <= i < |names| => String(names[i]))
  }

  /** StatRequestsStop. */
  function StopAnswer(c: State, query: seq<Entry>, id: Int32): Result<Node, Exception>
    requires c.Valid()
  {
    var nameNode :- DictAt(query, "name");
    var name :- AsString(nameNode);
    match c.FindStop(name)
    case None => Ok(NotFoundAnswer(id))
    case Some(stop) =>
      if c.FindAllBusesToStop(stop) == {} then Ok(BusesAnswer([], id))
      else Ok(BusesAnswer(NameNodes(StopBusNames(c, stop)), id))
  }

  /** How many buses of the name a set holds. */
  function NamedIn(c: State, buses: set<BusRef>, n: string): set<BusRef>
    requires forall b :: b in buses ==> b < |c.buses|
  {
    set b | b in buses && c.buses[b].name == n
  }

  /** Each name occurs in a stop's answer as often as buses of that name visit the stop. */
  lemma StopBusNamesCount(c: State, stop: StopRef, n: string)
    requires c.Valid()
    ensures multiset(StopBusNames(c, stop))[n] == |NamedIn(c, c.FindAllBusesToStop(stop), n)|
  {
    var refs := VisitingBuses(c, stop, |c.buses|);
    var buses := c.FindAllBusesToStop(stop);
    MappedCount(refs, BusNameOf(c), n);
    forall b ensures b in With(refs, BusNameOf(c), n) <==> b in NamedIn(c, buses, n) {
      assert b in refs <==> b in buses;
      if b in refs { assert BusNameOf(c)(b) == c.buses[b].name; }
    }
    assert With(refs, BusNameOf(c), n) == NamedIn(c, buses, n);
  }

  /** A name is in a stop's answer exactly when a bus of that name visits the stop. */
  lemma StopBusNamesMember(c: State, stop: StopRef, n: string)
    requires c.Valid()
    ensures n in StopBusNames(c, stop) <==> exists b :: b in c.FindAllBusesToStop(stop) && c.buses[b].name == n
  {
    StopBusNamesCount(c, stop, n);
    var buses := c.FindAllBusesToStop(stop);
    if n in StopBusNames(c, stop) {
      assert multiset(StopBusNames(c, stop))[n] > 0;
      var b :| b in NamedIn(c, buses, n);
    }
    if exists b :: b in buses && c.buses[b].name == n {
      var b :| b in buses && c.buses[b].name == n;
      assert b in NamedIn(c, buses, n);
    }
  }

  /** With unique bus names, a name occurs at most once in a stop's answer. */
  lemma StopBusNamesOnce(c: State, stop: StopRef, n: string)
    requires c.Valid()
    requires forall i, j :: 0 <= i < j < |c.buses| ==> c.buses[i].name != c.buses[j].name
    ensures multiset(StopBusNames(c, stop))[n] <= 1
  {
    StopBusNamesCount(c, stop, n);
    var named := NamedIn(c, c.FindAllBusesToStop(stop), n);
    forall x, y | x in named && y in named ensures x == y {
      assert c.buses[x].name == c.buses[y].name;
    }
    AtMostOne(named);
  }

  /** With unique bus names, each of a stop's buses is named once, in strictly ascending order. */
  lemma StopBusNamesUnique(c: State, stop: StopRef)
    requires c.Valid()
    requires forall i, j :: 0 <= i < j < |c.buses| ==> c.buses[i].name != c.buses[j].name
    ensures Ascending(StopBusNames(c, stop))
  {
    forall n ensures multiset(StopBusNames(c, stop))[n] <= 1 {
      StopBusNamesOnce(c, stop, n);
    }
    NonDescendingOnce(StopBusNames(c, stop));
  }

  /** A known stop's answer: its buses' names, sorted by name, each name as
      often as there are buses of that name visiting the stop; once each, and
      strictly ascending, when bus names are unique. */
  lemma StopBusNamesSpec(c: State, stop: StopRef)
    requires c.Valid()
    ensures var names := StopBusNames(c, stop);
      && NonDescending(names)
      && (forall n :: multiset(names)[n] == |NamedIn(c, c.FindAllBusesToStop(stop), n)|)
      && (forall n :: n in names <==> exists b :: b in c.FindAllBusesToStop(stop) && c.buses[b].name == n)
      && ((forall i, j :: 0 <= i < j < |c.buses| ==> c.buses[i].name != c.buses[j].name) ==> Ascending(names))
  {
    forall n ensures multiset(StopBusNames(c, stop))[n] == |NamedIn(c, c.FindAllBusesToStop(stop), n)| {
      StopBusNamesCount(c, stop, n);
    }
    forall n ensures n in StopBusNames(c, stop) <==> exists b :: b in c.FindAllBusesToStop(stop) && c.buses[b].name == n {
      StopBusNamesMember(c, stop, n);
    }
    if forall i, j :: 0 <= i < j < |c.buses| ==> c.buses[i].name != c.buses[j].name {
      StopBusNamesUnique(c, stop);
    }
  }

  /** The set of buses is walked in pointer order, which the model does not
      fix: any order of its buses gives the same sorted names. */
  lemma StopBusNamesAnyOrder(c: State, stop: StopRef, order: seq<BusRef>)
    requires c.Valid()
    requires forall i, j :: 0 <= i < j < |order| ==> order[i] != order[j]
    requires forall b :: b in order <==> b in c.FindAllBusesToStop(stop)
    ensures Sorted(Mapped(order, BusNameOf(c))) == StopBusNames(c, stop)
  {
    var refs := VisitingBuses(c, stop, |c.buses|);
    MappedPermutation(order, refs, BusNameOf(c));
    NonDescendingUnique(Sorted(Mapped(order, BusNameOf(c))), StopBusNames(c, stop));
  }

  /** A set whose elements are all equal has at most one. */
  lemma AtMostOne(s: set<BusRef>)
    requires forall x, y :: x in s && y in s ==> x == y
    ensures |s| <= 1
  {
    if s != {} {
      var x :| x in s;
      assert s == {x};
    }
  }

  /** Sorted names that occur at most once each strictly ascend. */
  lemma NonDescendingOnce(names: seq<string>)
    requires NonDescending(names) && forall n :: multiset(names)[n] <= 1
    ensures Ascending(names)
  {
    forall i, j | 0 <= i < j < |names| ensures Less(names[i], names[j]) {
      CountedTwice(names, i, j);
      LessTotal(names[i], names[j]);
    }
  }

  /** Two equal elements at different positions are counted twice. */
  lemma CountedTwice(s: seq<string>, i: nat, j: nat)
    requires i < j < |s|
    ensures s[i] == s[j] ==> multiset(s)[s[i]] >= 2
  {
    if s[i] == s[j] {
      assert s == s[..j] + [s[j]] + s[j + 1..];
      assert s[i] in s[..j];
    }
  }

  /** The shape of StatRequestsStop's answer. */
  lemma StopAnswerShape(c: State, query: seq<Entry>, id: Int32, name: string)
    requires c.Valid() && DictAt(query, "name") == Ok(String(name))
    ensures c.FindStop(name).None? ==> StopAnswer(c, query, id) == Ok(NotFoundAnswer(id))
    ensures c.FindStop(name).Some? ==>
      StopAnswer(c, query, id) == Ok(BusesAnswer(NameNodes(StopBusNames(c, c.FindStop(name).value)), id))
    ensures c.FindStop(name).Some? && c.FindAllBusesToStop(c.FindStop(name).value) == {} ==>
      StopBusNames(c, c.FindStop(name).value) == []
  {
    if c.FindStop(name).Some? {
      var stop := c.FindStop(name).value;
      StopBusNamesSpec(c, stop);
      if c.FindAllBusesToStop(stop) == {} {
        assert multiset(StopBusNames(c, stop)) == multiset{};
      }
    }
  }

  /** StatRequestsBus. */
  function BusAnswer(c: State, query: seq<Entry>, id: Int32, env: Environment): Result<Node, Exception>
    requires c.Valid()
  {
    var nameNode :- DictAt(query, "name");
    var name :- AsString(nameNode);
    match BusStat(c, name, env.distance)
    case Some(stat) =>
      // GetBusStat's (int)length has no defined result past the range of an int
      if -0x8000_0000 <= stat.routeLength <= 0x7FFF_FFFF then Ok(StatsAnswer(stat, id, env.divide))
      else Err(Indeterminate)
    case None => Ok(NotFoundAnswer(id))
  }

  /** The stops handed to the renderer: those of the ordered set of stops for
      which IsStopDontHaveBuses holds. */
  function ServedStops(c: State): NameSet<Stop>
    requires c.Valid()
  {
    map n | n in c.stopsPtrSet && c.IsStopDontHaveBuses(c.stopsPtrSet[n]) :: c.stopsPtrSet[n]
  }

  /** A stop is handed to the renderer exactly when it is known and some bus
      visits it, and what is handed over is the set's own copy. */
  lemma ServedStopsSpec(c: State)
    requires c.Valid()
    ensures var r := ServedStops(c);
      && (forall n :: n in r <==> n in c.nameToStop && exists b :: 0 <= b < |c.buses| && c.nameToStop[n] in c.buses[b].stops)
      && (forall n :: n in r ==> r[n] == c.stopsPtrSet[n] && r[n].name == n)
  {
    forall n | n in c.nameToStop
      ensures c.IsStopDontHaveBuses(c.stopsPtrSet[n]) <==> exists b :: 0 <= b < |c.buses| && c.nameToStop[n] in c.buses[b].stops
    {
      var buses := c.FindAllBusesToStop(c.nameToStop[n]);
      if buses != {} {
        var b :| b in buses;
        assert 0 <= b < |c.buses| && c.nameToStop[n] in c.buses[b].stops;
      }
    }
  }

  /** The buses handed to the renderer can be followed to their stops: every
      position on a route in the ordered set of buses is a stop in the list
      the renderer gets, as every pointer in a route points into stops_. */
  lemma {:induction false} MapRoutesResolve(c: State)
    requires c.Valid()
    ensures forall n, k :: n in c.busesPtrSet && 0 <= k < |c.busesPtrSet[n].stops| ==>
      c.busesPtrSet[n].stops[k] < |c.stops|
  {
    BusSnapshotsSpec(c.buses);
  }

  /** StatRequestsMap: the renderer reads its settings and draws the served
      stops and the buses, following routes through the list of stops; the
      document it returns is rendered to text. */
  function MapAnswer(c: State, settings: seq<Entry>, id: Int32, env: Environment): Result<Node, Exception>
    requires c.Valid()
  {
    var shapes :- env.draw(settings, c.stops, ServedStops(c), c.busesPtrSet);
    Ok(MapDict(SvgObjects.DocumentText(shapes, env.number), id))
  }

  /** One request of StatRequestsCommands: the type and id are read first;
      Stop, Bus and Map requests are answered, any other type is skipped. */
  function AnswerOf(c: State, settings: seq<Entry>, request: Node, env: Environment): Result<Option<Node>, Exception>
    requires c.Valid()
  {
    var info :- AsMap(request);
    var kind :- StringField(request, "type");
    var id :- IntField(request, "id");
    if kind == "Stop" then
      var answer :- StopAnswer(c, info, id);
      Ok(Some(answer))
    else if kind == "Bus" then
      var answer :- BusAnswer(c, info, id, env);
      Ok(Some(answer))
    else if kind == "Map" then
      var answer :- MapAnswer(c, settings, id, env);
      Ok(Some(answer))
    else Ok(None)
  }

  /** The loop of StatRequestsCommands: the answers in request order. */
  function StatAnswers(c: State, settings: seq<Entry>, requests: seq<Node>, env: Environment): Result<seq<Node>, Exception>
    requires c.Valid()
    decreases |requests|
  {
    if requests == [] then Ok([])
    else
      var before :- StatAnswers(c, settings, requests[..|requests| - 1], env);
      var answer :- AnswerOf(c, settings, requests[|requests| - 1], env);
      match answer
      case None => Ok(before)
      case Some(a) => Ok(before + [a])
  }

  /** One more stat request: its answer is appended, nothing is for a request
      of another type, and its exception ends the loop. */
  lemma StatAnswersNext(c: State, settings: seq<Entry>, requests: seq<Node>, env: Environment, k: nat)
    requires c.Valid() && k < |requests| && StatAnswers(c, settings, requests[..k], env).Ok?
    ensures var before, answer := StatAnswers(c, settings, requests[..k], env).value, AnswerOf(c, settings, requests[k], env);
      StatAnswers(c, settings, requests[..k + 1], env) ==
        if answer.Err? then Err(answer.error)
        else if answer.value.None? then Ok(before)
        else Ok(before + [answer.value.value])
  {
    assert requests[..k + 1][..k] == requests[..k];
  }

  lemma {:induction false} StatAnswersFailStays(c: State, settings: seq<Entry>, requests: seq<Node>, env: Environment, k: nat)
    requires c.Valid() && k <= |requests| && StatAnswers(c, settings, requests[..k], env).Err?
    ensures StatAnswers(c, settings, requests, env) == StatAnswers(c, settings, requests[..k], env)
    decreases |requests|
  {
    if k < |requests| {
      var init := requests[..|requests| - 1];
      assert init[..k] == requests[..k];
      StatAnswersFailStays(c, settings, init, env, k);
    } else {
      assert requests[..k] == requests;
    }
  }

  /** The requests that get an answer: those of type Stop, Bus or Map. */
  predicate Answered(request: Node) {
    var kind := StringField(request, "type");
    kind == Ok("Stop") || kind == Ok("Bus") || kind == Ok("Map")
  }

  function AnsweredRequests(requests: seq<Node>): seq<Node>
    decreases |requests|
  {
    if requests == [] then []
    else
      var init := AnsweredRequests(requests[..|requests| - 1]);
      if Answered(requests[|requests| - 1]) then init + [requests[|requests| - 1]] else init
  }

  // Each kind of answer carries the request's id under request_id.

  lemma NotFoundAnswerId(id: Int32)
    ensures DictAt(NotFoundAnswer(id).entries, "request_id") == Ok(Int(id))
  {
    assert "error_message" != "request_id";
  }

  lemma BusesAnswerId(buses: seq<Node>, id: Int32)
    ensures DictAt(BusesAnswer(buses, id).entries, "request_id") == Ok(Int(id))
  {
    assert "buses" != "request_id";
  }

  lemma StatsAnswerId(stat: BusStatistics, id: Int32, divide: Quotient -> real)
    ensures DictAt(StatsAnswer(stat, id, divide).entries, "request_id") == Ok(Int(id))
  {
    assert "curvature" != "request_id";
  }

  lemma MapDictId(svg: string, id: Int32)
    ensures DictAt(MapDict(svg, id).entries, "request_id") == Ok(Int(id))
  {
    assert "map" != "request_id";
  }

  lemma StopAnswerId(c: State, query: seq<Entry>, id: Int32)
    requires c.Valid() && StopAnswer(c, query, id).Ok?
    ensures StopAnswer(c, query, id).value.Dict?
    ensures DictAt(StopAnswer(c, query, id).value.entries, "request_id") == Ok(Int(id))
  {
    var name := AsString(DictAt(query, "name").value).value;
    match c.FindStop(name)
    case None => NotFoundAnswerId(id);
    case Some(stop) =>
      BusesAnswerId([], id);
      BusesAnswerId(NameNodes(StopBusNames(c, stop)), id);
  }

  lemma BusAnswerId(c: State, query: seq<Entry>, id: Int32, env: Environment)
    requires c.Valid() && BusAnswer(c, query, id, env).Ok?
    ensures BusAnswer(c, query, id, env).value.Dict?
    ensures DictAt(BusAnswer(c, query, id, env).value.entries, "request_id") == Ok(Int(id))
  {
    var name := AsString(DictAt(query, "name").value).value;
    match BusStat(c, name, env.distance)
    case None => NotFoundAnswerId(id);
    case Some(stat) => StatsAnswerId(stat, id, env.divide);
  }

  lemma MapAnswerId(c: State, settings: seq<Entry>, id: Int32, env: Environment)
    requires c.Valid() && MapAnswer(c, settings, id, env).Ok?
    ensures MapAnswer(c, settings, id, env).value.Dict?
    ensures DictAt(MapAnswer(c, settings, id, env).value.entries, "request_id") == Ok(Int(id))
  {
    var shapes := env.draw(settings, c.stops, ServedStops(c), c.busesPtrSet).value;
    MapDictId(SvgObjects.DocumentText(shapes, env.number), id);
  }

  /** An answered request gets a dict whose request_id is the request's id. */
  lemma AnswerOfId(c: State, settings: seq<Entry>, request: Node, env: Environment)
    requires c.Valid() && AnswerOf(c, settings, request, env).Ok?
    ensures var a := AnswerOf(c, settings, request, env).value;
      && (a.Some? <==> Answered(request))
      && (a.Some? ==> a.value.Dict? && DictAt(a.value.entries, "request_id") == Field(request, "id"))
  {
    var info := AsMap(request).value;
    var kind := StringField(request, "type").value;
    var id := IntField(request, "id").value;
    assert Field(request, "id") == Ok(Int(id));
    if kind == "Stop" {
      StopAnswerId(c, info, id);
    } else if kind == "Bus" {
      BusAnswerId(c, info, id, env);
    } else if kind == "Map" {
      MapAnswerId(c, settings, id, env);
    }
  }

  /** One answer per Stop, Bus or Map request, in request order, each carrying
      its request's id. */
  lemma {:induction false} StatAnswersFollowRequests(c: State, settings: seq<Entry>, requests: seq<Node>, env: Environment)
    requires c.Valid() && StatAnswers(c, settings, requests, env).Ok?
    ensures var answers, asked := StatAnswers(c, settings, requests, env).value, AnsweredRequests(requests);
      && |answers| == |asked|
      && forall k :: 0 <= k < |answers| ==>
           answers[k].Dict? && DictAt(answers[k].entries, "request_id") == Field(asked[k], "id")
    decreases |requests|
  {
    if requests != [] {
      var init, last := requests[..|requests| - 1], requests[|requests| - 1];
      StatAnswersFollowRequests(c, settings, init, env);
      AnswerOfId(c, settings, last, env);
    }
  }

  /** StatRequestsCommands: the answers to stat_requests, printed as one array. */
  function StatOutput(c: State, loaded: seq<Entry>, settings: seq<Entry>, env: Environment): Result<string, Exception>
    requires c.Valid()
  {
    var requests :- ArrayAt(loaded, "stat_requests");
    var answers :- StatAnswers(c, settings, requests, env);
    Ok(JsonPrint.Printed(Array(answers), env.number))
  }

  /** RunCommands: load the input, apply the base requests to the catalogue,
      answer the stat requests. */
  function Run(c: State, input: string, env: Environment): Result<string, Exception>
    requires c.Valid()
  {
    var document :- JsonLoad.LoadText(input, env.toDouble);
    var loaded :- AsMap(document.root);
    var base :- BaseRequests(c, loaded);
    StatOutput(base.0, loaded, base.1, env)
  }
}
