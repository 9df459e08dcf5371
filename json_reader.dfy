/** JsonReader: the object that reads the input document, fills the
    catalogue it was given from base_requests and answers stat_requests. Its
    members are updated in place, as in json_reader.cpp; every method is
    proved against the functions of JsonRequests. */
module ReaderObject {
  import opened Wrappers
  import opened Geo
  import opened Domain
  import opened Catalogue
  import opened CatalogueObject
  import opened RequestHandler
  import opened Json
  import opened JsonRequests
  import JsonLoad
  import JsonPrint
  import SvgObjects

  class JsonReader {
    const transGuide: TransportGuide
    var loadedRequests: seq<Entry>
    var baseRequests: seq<Node>
    var statRequests: seq<Node>
    var renderSettings: seq<Entry>

    /** The reader refers to the catalogue it fills; the documents start empty. */
    constructor(transGuide: TransportGuide)
      ensures this.transGuide == transGuide
      ensures loadedRequests == [] && baseRequests == [] && statRequests == [] && renderSettings == []
    {
      this.transGuide := transGuide;
      loadedRequests, baseRequests, statRequests, renderSettings := [], [], [], [];
    }

    // The base requests

    /** The body of BaseRequestsStops's loop, for one request. */
    method StopRequest(request: Node) returns (r: Result<(), Exception>)
      requires transGuide.Valid()
      modifies transGuide
      ensures transGuide.Valid()
      ensures r == Outcome(StopStep(old(transGuide.Model()), request))
      ensures r.Ok? ==> transGuide.Model() == StopStep(old(transGuide.Model()), request).value
    {
      var kind := StringField(request, "type");
      if kind.Err? { return Err(kind.error); }
      if kind.value != "Stop" { return Ok(()); }
      var name := StringField(request, "name");
      if name.Err? { return Err(name.error); }
      var latitude := DoubleField(request, "latitude");
      if latitude.Err? { return Err(latitude.error); }
      var longitude := DoubleField(request, "longitude");
      if longitude.Err? { return Err(longitude.error); }
      transGuide.AddStop(name.value, Coordinates(latitude.value, longitude.value));
      r := Ok(());
    }

    /** The body of BaseRequestsDistances's loop, for one request, with its
        inner loop over the road distances. */
    method DistanceRequest(request: Node) returns (r: Result<(), Exception>)
      requires transGuide.Valid()
      modifies transGuide
      ensures transGuide.Valid()
      ensures r == Outcome(DistanceStep(old(transGuide.Model()), request))
      ensures r.Ok? ==> transGuide.Model() == DistanceStep(old(transGuide.Model()), request).value
    {
      var start := transGuide.Model();
      var kind := StringField(request, "type");
      if kind.Err? { return Err(kind.error); }
      if kind.value != "Stop" { return Ok(()); }
      var name := StringField(request, "name");
      if name.Err? { return Err(name.error); }
      var from := start.FindStop(name.value);
      var roads := MapField(request, "road_distances");
      if roads.Err? { return Err(roads.error); }
      var j := 0;
      while j < |roads.value|
        invariant 0 <= j <= |roads.value|
        invariant transGuide.Valid()
        invariant RoadsFrom(start, from, roads.value[..j]) == Ok(transGuide.Model())
        invariant from.Some? ==> from.value < |transGuide.Model().stops|
      {
        assert roads.value[..j + 1][..j] == roads.value[..j];
        if from.None? {
          RoadsFromFailStays(start, from, roads.value, j + 1);
          return Err(Indeterminate);
        }
        var road := roads.value[j];
        var distance := AsInt(road.value);
        if distance.Err? {
          RoadsFromFailStays(start, from, roads.value, j + 1);
          return Err(distance.error);
        }
        transGuide.SetStopsDistance(transGuide.Model().stops[from.value].name, road.key, distance.value);
        j := j + 1;
      }
      assert roads.value[..j] == roads.value;
      r := Ok(());
    }

    /** The body of BaseRequestsBuses's loop, for one request, with its inner
        loop collecting the stop names. */
    method BusRequest(request: Node) returns (r: Result<(), Exception>)
      requires transGuide.Valid()
      modifies transGuide
      ensures transGuide.Valid()
      ensures r == Outcome(BusStep(old(transGuide.Model()), request))
      ensures r.Ok? ==> transGuide.Model() == BusStep(old(transGuide.Model()), request).value
    {
      var kind := StringField(request, "type");
      if kind.Err? { return Err(kind.error); }
      if kind.value != "Bus" { return Ok(()); }
      var name := StringField(request, "name");
      if name.Err? { return Err(name.error); }
      var isCircle := BoolField(request, "is_roundtrip");
      if isCircle.Err? { return Err(isCircle.error); }
      var items := ArrayField(request, "stops");
      if items.Err? { return Err(items.error); }
      var stopNames: seq<string> := [];
      var j := 0;
      while j < |items.value|
        invariant 0 <= j <= |items.value|
        invariant StringsOf(items.value[..j]) == Ok(stopNames)
      {
        assert items.value[..j + 1][..j] == items.value[..j];
        var stop := AsString(items.value[j]);
        if stop.Err? {
          StringsOfFailStays(items.value, j + 1);
          return Err(stop.error);
        }
        stopNames := stopNames + [stop.value];
        j := j + 1;
      }
      assert items.value[..j] == items.value;
      transGuide.AddBus(name.value, stopNames, isCircle.value);
      r := Ok(());
    }

    /** The loop body of one of the three passes. */
    method RunStep(pass: Pass, request: Node) returns (r: Result<(), Exception>)
      requires transGuide.Valid()
      modifies transGuide
      ensures transGuide.Valid()
      ensures r == Outcome(Step(pass, old(transGuide.Model()), request))
      ensures r.Ok? ==> transGuide.Model() == Step(pass, old(transGuide.Model()), request).value
    {
      match pass {
        case StopsPass => r := StopRequest(request);
        case DistancesPass => r := DistanceRequest(request);
        case BusesPass => r := BusRequest(request);
      }
    }

    /** One of the three loops over base_requests. */
    method RunPass(pass: Pass) returns (r: Result<(), Exception>)
      requires transGuide.Valid()
      modifies transGuide
      ensures transGuide.Valid()
      ensures r == Outcome(Apply(pass, old(transGuide.Model()), baseRequests))
      ensures r.Ok? ==> transGuide.Model() == Apply(pass, old(transGuide.Model()), baseRequests).value
    {
      var k := 0;
      while k < |baseRequests|
        invariant 0 <= k <= |baseRequests|
        invariant Apply(pass, old(transGuide.Model()), baseRequests[..k]) == Ok(transGuide.Model())
      {
        ApplyNext(pass, old(transGuide.Model()), baseRequests, k);
        var step := RunStep(pass, baseRequests[k]);
        if step.Err? {
          ApplyFailStays(pass, old(transGuide.Model()), baseRequests, k + 1);
          return step;
        }
        k := k + 1;
      }
      assert baseRequests[..k] == baseRequests;
      r := Ok(());
    }

    method BaseRequestsStops() returns (r: Result<(), Exception>)
      requires transGuide.Valid()
      modifies transGuide
      ensures transGuide.Valid()
      ensures r == Outcome(Apply(StopsPass, old(transGuide.Model()), baseRequests))
      ensures r.Ok? ==> transGuide.Model() == Apply(StopsPass, old(transGuide.Model()), baseRequests).value
    {
      r := RunPass(StopsPass);
    }

    method BaseRequestsDistances() returns (r: Result<(), Exception>)
      requires transGuide.Valid()
      modifies transGuide
      ensures transGuide.Valid()
      ensures r == Outcome(Apply(DistancesPass, old(transGuide.Model()), baseRequests))
      ensures r.Ok? ==> transGuide.Model() == Apply(DistancesPass, old(transGuide.Model()), baseRequests).value
    {
      r := RunPass(DistancesPass);
    }

    method BaseRequestsBuses() returns (r: Result<(), Exception>)
      requires transGuide.Valid()
      modifies transGuide
      ensures transGuide.Valid()
      ensures r == Outcome(Apply(BusesPass, old(transGuide.Model()), baseRequests))
      ensures r.Ok? ==> transGuide.Model() == Apply(BusesPass, old(transGuide.Model()), baseRequests).value
    {
      r := RunPass(BusesPass);
    }

    method BaseRequestsRenderSettings() returns (r: Result<(), Exception>)
      modifies this
      ensures r == Outcome(MapAt(loadedRequests, "render_settings"))
      ensures r.Ok? ==> renderSettings == MapAt(loadedRequests, "render_settings").value
      ensures loadedRequests == old(loadedRequests) && baseRequests == old(baseRequests)
      ensures statRequests == old(statRequests)
    {
      var settings := MapAt(loadedRequests, "render_settings");
      if settings.Err? { return Err(settings.error); }
      renderSettings := settings.value;
      r := Ok(());
    }

    /** BaseRequestsCommands: the stops, the distances and the buses, then the render settings. */
    method BaseRequestsCommands() returns (r: Result<(), Exception>)
      requires transGuide.Valid()
      modifies this, transGuide
      ensures transGuide.Valid()
      ensures loadedRequests == old(loadedRequests)
      ensures r == Outcome(BaseRequests(old(transGuide.Model()), loadedRequests))
      ensures r.Ok? ==> (transGuide.Model(), renderSettings) == BaseRequests(old(transGuide.Model()), loadedRequests).value
      ensures r.Ok? ==> baseRequests == ArrayAt(loadedRequests, "base_requests").value
      ensures statRequests == old(statRequests)
    {
      var start := transGuide.Model();
      var requests := ArrayAt(loadedRequests, "base_requests");
      if requests.Err? { return Err(requests.error); }
      baseRequests := requests.value;
      r := BaseRequestsStops();
      if r.Err? { return; }
      r := BaseRequestsDistances();
      if r.Err? { return; }
      r := BaseRequestsBuses();
      if r.Err? { return; }
      assert Passes(start, baseRequests) == Ok(transGuide.Model());
      r := BaseRequestsRenderSettings();
    }

    // The stat requests

    /** StatRequestsStop: the set of buses is copied into a vector, sorted by
        name, and the names listed. */
    method StatRequestsStop(query: seq<Entry>, id: Int32) returns (r: Result<Node, Exception>)
      requires transGuide.Valid()
      ensures r == StopAnswer(transGuide.Model(), query, id)
    {
      var c := transGuide.Model();
      var nameNode := DictAt(query, "name");
      if nameNode.Err? { return Err(nameNode.error); }
      var name := AsString(nameNode.value);
      if name.Err? { return Err(name.error); }
      var found := c.FindStop(name.value);
      if found.None? { return Ok(NotFoundAnswer(id)); }
      var buses := c.FindAllBusesToStop(found.value);
      if buses == {} { return Ok(BusesAnswer([], id)); }
      var vector := CopyBuses(buses);
      // std::sort compares the names alone, so sorting the buses and then
      // reading their names gives the names sorted.
      var names := Sorted(Mapped(vector, BusNameOf(c)));
      StopBusNamesAnyOrder(c, found.value, vector);
      var nodes := NameNodesOf(names);
      r := Ok(BusesAnswer(nodes, id));
    }

    /** The loop copying a set of buses into a vector, in an order the model leaves open. */
    static method CopyBuses(buses: set<BusRef>) returns (vector: seq<BusRef>)
      ensures forall b :: b in vector <==> b in buses
      ensures forall i, j :: 0 <= i < j < |vector| ==> vector[i] != vector[j]
    {
      var remaining := buses;
      vector := [];
      while remaining != {}
        invariant remaining <= buses
        invariant forall b :: b in vector <==> b in buses && b !in remaining
        invariant forall i, j :: 0 <= i < j < |vector| ==> vector[i] != vector[j]
        decreases |remaining|
      {
        var b :| b in remaining;
        vector := vector + [b];
        remaining := remaining - {b};
      }
    }

    /** The loop pushing each name onto the array of the answer. */
    static method NameNodesOf(names: seq<string>) returns (nodes: seq<Node>)
      ensures nodes == NameNodes(names)
    {
      nodes := [];
      var k := 0;
      while k < |names|
        invariant 0 <= k <= |names|
        invariant |nodes| == k && forall i :: 0 <= i < k ==> nodes[i] == String(names[i])
      {
        nodes := nodes + [String(names[k])];
        k := k + 1;
      }
    }

    /** StatRequestsBus: a RequestHandler over the catalogue computes the statistics. */
    method StatRequestsBus(query: seq<Entry>, id: Int32, env: Environment) returns (r: Result<Node, Exception>)
      requires transGuide.Valid()
      ensures r == BusAnswer(transGuide.Model(), query, id, env)
    {
      var nameNode := DictAt(query, "name");
      if nameNode.Err? { return Err(nameNode.error); }
      var name := AsString(nameNode.value);
      if name.Err? { return Err(name.error); }
      var handler := new RequestHandler(transGuide);
      var stat := handler.GetBusStat(name.value, env.distance);
      match stat {
        case Some(s) =>
          if -0x8000_0000 <= s.routeLength <= 0x7FFF_FFFF {
            r := Ok(StatsAnswer(s, id, env.divide));
          } else {
            r := Err(Indeterminate);
          }
        case None => r := Ok(NotFoundAnswer(id));
      }
    }

    /** StatRequestsMap: the stops some bus visits are picked out of the
        ordered set of stops; the renderer draws them with the buses, and the
        document is rendered to text. */
    method StatRequestsMap(id: Int32, env: Environment) returns (r: Result<Node, Exception>)
      requires transGuide.Valid()
      ensures r == MapAnswer(transGuide.Model(), renderSettings, id, env)
    {
      var c := transGuide.Model();
      var served := ServedStopsOf(c);
      var shapes := env.draw(renderSettings, c.stops, served, c.busesPtrSet);
      if shapes.Err? { return Err(shapes.error); }
      var text := RenderShapes(shapes.value, env.number);
      r := Ok(MapDict(text, id));
    }

    /** The loop over the ordered set of stops keeping those IsStopDontHaveBuses accepts. */
    static method ServedStopsOf(c: State) returns (served: NameSet<Stop>)
      requires c.Valid()
      ensures served == ServedStops(c)
    {
      served := Kept(c.stopsPtrSet, (stop: Stop) => c.IsStopDontHaveBuses(stop));
    }

    /** The entries of m whose value keep accepts, one entry at a time. */
    static method Kept<T>(m: map<string, T>, keep: T -> bool) returns (r: map<string, T>)
      ensures r == map n | n in m && keep(m[n]) :: m[n]
    {
      var remaining := m.Keys;
      r := map[];
      while remaining != {}
        invariant remaining <= m.Keys
        invariant forall n :: n in r <==> n in m && n !in remaining && keep(m[n])
        invariant forall n :: n in r ==> r[n] == m[n]
        decreases |remaining|
      {
        var n :| n in remaining;
        if keep(m[n]) {
          r := r[n := m[n]];
        }
        remaining := remaining - {n};
      }
    }

    /** The document the renderer returns, filled with its shapes and rendered to text. */
    static method RenderShapes(shapes: seq<SvgObjects.Shape>, num: real -> string) returns (text: string)
      ensures text == SvgObjects.DocumentText(shapes, num)
    {
      var doc := new SvgObjects.Document();
      var k := 0;
      while k < |shapes|
        invariant 0 <= k <= |shapes|
        invariant doc.objects == shapes[..k]
      {
        doc.Add(shapes[k]);
        k := k + 1;
      }
      assert shapes[..k] == shapes;
      text := doc.Render(num);
    }

    /** The body of StatRequestsCommands's loop: the type and id, then the answer. */
    method AnswerRequest(request: Node, env: Environment) returns (r: Result<Option<Node>, Exception>)
      requires transGuide.Valid()
      ensures r == AnswerOf(transGuide.Model(), renderSettings, request, env)
    {
      var info := AsMap(request);
      if info.Err? { return Err(info.error); }
      var kind := StringField(request, "type");
      if kind.Err? { return Err(kind.error); }
      var id := IntField(request, "id");
      if id.Err? { return Err(id.error); }
      var answer;
      if kind.value == "Stop" {
        answer := StatRequestsStop(info.value, id.value);
      } else if kind.value == "Bus" {
        answer := StatRequestsBus(info.value, id.value, env);
      } else if kind.value == "Map" {
        answer := StatRequestsMap(id.value, env);
      } else {
        return Ok(None);
      }
      if answer.Err? { return Err(answer.error); }
      r := Ok(Some(answer.value));
    }

    /** StatRequestsCommands: every answer in order, printed as one document. */
    method StatRequestsCommands(env: Environment) returns (r: Result<string, Exception>)
      requires transGuide.Valid()
      modifies this
      ensures r == StatOutput(transGuide.Model(), loadedRequests, renderSettings, env)
      ensures loadedRequests == old(loadedRequests) && renderSettings == old(renderSettings)
      ensures r.Ok? ==> statRequests == ArrayAt(loadedRequests, "stat_requests").value
      ensures baseRequests == old(baseRequests)
    {
      var c := transGuide.Model();
      var requests := ArrayAt(loadedRequests, "stat_requests");
      if requests.Err? { return Err(requests.error); }
      statRequests := requests.value;
      var result: seq<Node> := [];
      var k := 0;
      while k < |statRequests|
        invariant 0 <= k <= |statRequests|
        invariant statRequests == requests.value
        invariant baseRequests == old(baseRequests)
        invariant loadedRequests == old(loadedRequests) && renderSettings == old(renderSettings)
        invariant StatAnswers(c, renderSettings, statRequests[..k], env) == Ok(result)
      {
        StatAnswersNext(c, renderSettings, statRequests, env, k);
        var answer := AnswerRequest(statRequests[k], env);
        if answer.Err? {
          StatAnswersFailStays(c, renderSettings, statRequests, env, k + 1);
          return Err(answer.error);
        }
        if answer.value.Some? {
          result := result + [answer.value.value];
        }
        k := k + 1;
      }
      assert statRequests[..k] == statRequests;
      var out := JsonPrint.Print(Document(Array(result)), env.number);
      r := Ok(out);
    }

    /** RunCommands: load the input document, then the base requests, then
        the stat requests; the text returned is what is written to the output. */
    method RunCommands(input: string, env: Environment) returns (r: Result<string, Exception>)
      requires transGuide.Valid()
      modifies this, transGuide
      ensures r == Run(old(transGuide.Model()), input, env)
      ensures transGuide.Valid()
      ensures r.Ok? ==>
        && JsonLoad.LoadText(input, env.toDouble).Ok?
        && AsMap(JsonLoad.LoadText(input, env.toDouble).value.root) == Ok(loadedRequests)
        && BaseRequests(old(transGuide.Model()), loadedRequests) == Ok((transGuide.Model(), renderSettings))
        && ArrayAt(loadedRequests, "base_requests") == Ok(baseRequests)
        && ArrayAt(loadedRequests, "stat_requests") == Ok(statRequests)
    {
      var document := JsonLoad.Load(input, env.toDouble);
      if document.Err? { return Err(document.error); }
      var loaded := AsMap(document.value.root);
      if loaded.Err? { return Err(loaded.error); }
      loadedRequests := loaded.value;
      var base := BaseRequestsCommands();
      if base.Err? { return Err(base.error); }
      r := StatRequestsCommands(env);
    }
  }
}
