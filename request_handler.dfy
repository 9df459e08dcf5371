/** request_handler.h / request_handler.cpp: the statistics of one bus route,
    read through a const reference to the catalogue. */
module RequestHandler {
  import opened Wrappers
  import opened Geo
  import opened Domain
  import opened Catalogue
  import opened CatalogueObject

  /** Every position of the route names one of the catalogue's stops. */
  ghost predicate WithinStops(c: State, route: seq<StopRef>) {
    forall k :: 0 <= k < |route| ==> route[k] < |c.stops|
  }

  /** The names inserted into unique_stops while walking the route. */
  function StopNames(c: State, route: seq<StopRef>): set<string>
    requires WithinStops(c, route)
    decreases |route|
  {
    if route == [] then {} else StopNames(c, route[..|route| - 1]) + {c.stops[route[|route| - 1]].name}
  }

  /** The road length: GetRealStopsDistance summed over consecutive pairs. */
  function RoadLength(c: State, route: seq<StopRef>): int
    decreases |route|
  {
    if |route| < 2 then 0
    else RoadLength(c, route[..|route| - 1]) + c.GetRealStopsDistance(route[|route| - 2], route[|route| - 1])
  }

  /** The geographic length: ComputeDistance, a parameter here, summed over consecutive pairs. */
  function GeoLength(c: State, route: seq<StopRef>, distance: (Coordinates, Coordinates) -> real): real
    requires WithinStops(c, route)
    decreases |route|
  {
    if |route| < 2 then 0.0
    else GeoLength(c, route[..|route| - 1], distance) +
         distance(c.stops[route[|route| - 2]].coordinates, c.stops[route[|route| - 1]].coordinates)
  }

  /** What GetBusStat reports: nothing for an unknown bus name; otherwise the
      length of the stored route, its number of distinct stop names, its road
      length, and the ratio of road to geographic length. */
  function BusStat(c: State, busName: string, distance: (Coordinates, Coordinates) -> real): (r: Option<BusStatistics>)
    requires c.Valid()
    ensures r.None? <==> c.FindBus(busName).None?
  {
    match c.FindBus(busName)
    case None => None
    case Some(b) =>
      var route := c.buses[b].stops;
      var length := RoadLength(c, route);
      Some(BusStatistics(|route|, |StopNames(c, route)|, length, Quotient(length as real, GeoLength(c, route, distance))))
  }

  /** A name is in StopNames exactly when some position of the route carries it. */
  lemma {:induction false} StopNamesSpec(c: State, route: seq<StopRef>)
    requires WithinStops(c, route)
    ensures forall k :: 0 <= k < |route| ==> c.stops[route[k]].name in StopNames(c, route)
    ensures forall n :: n in StopNames(c, route) ==> exists k :: 0 <= k < |route| && c.stops[route[k]].name == n
    decreases |route|
  {
    if route != [] {
      var prefix := route[..|route| - 1];
      StopNamesSpec(c, prefix);
      forall k | 0 <= k < |route| ensures c.stops[route[k]].name in StopNames(c, route) {
        if k < |prefix| {
          assert route[k] == prefix[k];
        }
      }
      forall n | n in StopNames(c, route) ensures exists k :: 0 <= k < |route| && c.stops[route[k]].name == n {
        if n in StopNames(c, prefix) {
          var k :| 0 <= k < |prefix| && c.stops[prefix[k]].name == n;
          assert route[k] == prefix[k];
        } else {
          assert c.stops[route[|route| - 1]].name == n;
        }
      }
    }
  }

  /** There are never more distinct names than stops on the route, and there is none only for an empty route. */
  lemma {:induction false} StopNamesCount(c: State, route: seq<StopRef>)
    requires WithinStops(c, route)
    ensures |StopNames(c, route)| <= |route|
    ensures |StopNames(c, route)| == 0 <==> route == []
    decreases |route|
  {
    if route != [] {
      var prefix := route[..|route| - 1];
      StopNamesCount(c, prefix);
      assert c.stops[route[|route| - 1]].name in StopNames(c, route);
    }
  }

  /** The stops (as opposed to their names) the route visits. */
  function VisitedStops(route: seq<StopRef>): (r: set<StopRef>)
    ensures forall x :: x in r <==> x in route
    decreases |route|
  {
    if route == [] then {}
    else
      var r := VisitedStops(route[..|route| - 1]) + {route[|route| - 1]};
      assert forall x :: x in route <==> x in route[..|route| - 1] || x == route[|route| - 1];
      r
  }

  /** A stop's name was met before exactly when the stop itself was. */
  lemma NameMetIffStopMet(c: State, prefix: seq<StopRef>, last: StopRef)
    requires StopIndexOk(c.nameToStop, c.stops) && WithinStops(c, prefix) && last < |c.stops|
    ensures c.stops[last].name in StopNames(c, prefix) <==> last in VisitedStops(prefix)
  {
    StopNamesSpec(c, prefix);
    var name := c.stops[last].name;
    if name in StopNames(c, prefix) {
      var k :| 0 <= k < |prefix| && c.stops[prefix[k]].name == name;
      assert c.nameToStop[name] == prefix[k] && c.nameToStop[name] == last;
    }
    if last in VisitedStops(prefix) {
      var k :| 0 <= k < |prefix| && prefix[k] == last;
    }
  }

  /** Since a name belongs to one stop only, the distinct names are as many as the distinct stops visited. */
  lemma {:induction false} StopNamesCountsStops(c: State, route: seq<StopRef>)
    requires StopIndexOk(c.nameToStop, c.stops) && WithinStops(c, route)
    ensures |StopNames(c, route)| == |VisitedStops(route)|
    decreases |route|
  {
    if route != [] {
      var prefix, last := route[..|route| - 1], route[|route| - 1];
      StopNamesCountsStops(c, prefix);
      NameMetIffStopMet(c, prefix, last);
      var name, names, visited := c.stops[last].name, StopNames(c, prefix), VisitedStops(prefix);
      assert StopNames(c, route) == names + {name};
      assert VisitedStops(route) == visited + {last};
      GrowTogether(names, visited, name, last);
    }
  }

  /** Two sets of one size stay of one size when each gains an element it
      already holds exactly when the other does. */
  lemma GrowTogether<A, B>(names: set<A>, visited: set<B>, name: A, last: B)
    requires |names| == |visited| && (name in names <==> last in visited)
    ensures |names + {name}| == |visited + {last}|
  {
    if name in names {
      assert names + {name} == names && visited + {last} == visited;
    } else {
      assert |names + {name}| == |names| + 1 && |visited + {last}| == |visited| + 1;
    }
  }

  /** The way back of a non-circular route visits no new stop. */
  lemma StopNamesOfExpand(c: State, forward: seq<StopRef>, isCircle: bool)
    requires WithinStops(c, forward)
    ensures WithinStops(c, Expand(forward, isCircle))
    ensures StopNames(c, Expand(forward, isCircle)) == StopNames(c, forward)
  {
    var route := Expand(forward, isCircle);
    ExpandShape(forward, isCircle);
    StopNamesSpec(c, forward);
    StopNamesSpec(c, route);
    forall n | n in StopNames(c, route) ensures n in StopNames(c, forward) {
      var k :| 0 <= k < |route| && c.stops[route[k]].name == n;
      if k >= |forward| {
        assert route[k] == forward[2 * |forward| - 2 - k];
      }
    }
    forall n | n in StopNames(c, forward) ensures n in StopNames(c, route) {
      var k :| 0 <= k < |forward| && c.stops[forward[k]].name == n;
      assert route[k] == forward[k];
    }
  }

  /** Joining two legs adds the distance from the end of the first to the start of the second. */
  lemma {:induction false} RoadLengthConcat(c: State, a: seq<StopRef>, b: seq<StopRef>)
    requires a != [] && b != []
    ensures RoadLength(c, a + b) == RoadLength(c, a) + c.GetRealStopsDistance(a[|a| - 1], b[0]) + RoadLength(c, b)
    decreases |b|
  {
    if |b| == 1 {
      assert (a + b)[..|a + b| - 1] == a;
    } else {
      var b' := b[..|b| - 1];
      RoadLengthConcat(c, a, b');
      assert (a + b)[..|a + b| - 1] == a + b';
      assert b'[0] == b[0];
    }
  }

  /** The road length of an out-and-back route is that of the way out plus that
      of the way back, each leg measured in the direction it is driven. */
  lemma RoadLengthOutAndBack(c: State, forward: seq<StopRef>)
    requires forward != []
    ensures RoadLength(c, Expand(forward, false)) == RoadLength(c, forward) + RoadLength(c, Reversed(forward))
  {
    var n := |forward|;
    var back := Reversed(forward[..n - 1]);
    ReversedStep(forward);
    assert Reversed(forward) == [forward[n - 1]] + back by {
      assert Reversed(forward[..n]) == Reversed(forward);
      ReversedSnoc(forward);
    }
    if back != [] {
      RoadLengthConcat(c, forward, back);
      RoadLengthConcat(c, [forward[n - 1]], back);
    } else {
      assert Expand(forward, false) == forward;
    }
  }

  /** Reversing a non-empty sequence puts its last element first. */
  lemma {:induction false} ReversedSnoc<T>(s: seq<T>)
    requires s != []
    ensures Reversed(s) == [s[|s| - 1]] + Reversed(s[..|s| - 1])
  {
    var r, t := Reversed(s), Reversed(s[..|s| - 1]);
    assert |r| == |t| + 1;
    forall k | 0 <= k < |r| ensures r[k] == ([s[|s| - 1]] + t)[k] {
      if k > 0 {
        assert t[k - 1] == s[..|s| - 1][|s| - 2 - (k - 1)];
      }
    }
  }

  /** The statistics of a known bus: the counts are bounded by the route as the
      source promises, and they come from the stored, already expanded route. */
  lemma BusStatCounts(c: State, busName: string, distance: (Coordinates, Coordinates) -> real)
    requires c.Valid() && c.FindBus(busName).Some?
    ensures var route := c.buses[c.FindBus(busName).value].stops;
      var r := BusStat(c, busName, distance).value;
      && r.stops == |route|
      && 0 <= r.uniqueStops <= r.stops
      && (r.uniqueStops == 0 <==> r.stops == 0)
      && r.uniqueStops == |VisitedStops(route)|
      && (|route| <= 1 ==> r.routeLength == 0)
  {
    var route := c.buses[c.FindBus(busName).value].stops;
    StopNamesCount(c, route);
    StopNamesCountsStops(c, route);
  }

  /** RequestHandler: a facade over a catalogue it only reads. */
  class RequestHandler {
    const db: TransportGuide

    constructor(db: TransportGuide)
      ensures this.db == db
    {
      this.db := db;
    }

    /** GetBusStat: both loops of the source; the second re-inserts every name
        and leaves the set as it was. */
    method GetBusStat(busName: string, distance: (Coordinates, Coordinates) -> real) returns (r: Option<BusStatistics>)
      requires db.Valid()
      ensures r == BusStat(db.Model(), busName, distance)
    {
      var c := db.Model();
      var found := c.FindBus(busName);
      if found.None? {
        return None;
      }
      var route := c.buses[found.value].stops;
      var coordsLength: real := 0.0;
      var length: int := 0;
      var previous: Option<StopRef> := None;
      var uniqueStops: set<string> := {};
      var k := 0;
      while k < |route|
        invariant 0 <= k <= |route|
        invariant uniqueStops == StopNames(c, route[..k])
        invariant length == RoadLength(c, route[..k])
        invariant coordsLength == GeoLength(c, route[..k], distance)
        invariant previous == if k == 0 then None else Some(route[k - 1])
      {
        var current := route[k];
        assert route[..k + 1][..k] == route[..k];
        uniqueStops := uniqueStops + {c.stops[current].name};
        if previous.Some? {
          coordsLength := coordsLength + distance(c.stops[previous.value].coordinates, c.stops[current].coordinates);
          length := length + c.GetRealStopsDistance(previous.value, current);
        }
        previous := Some(current);
        k := k + 1;
      }
      assert route[..k] == route;
      StopNamesSpec(c, route);
      var j := 0;
      while j < |route|
        invariant 0 <= j <= |route|
        invariant uniqueStops == StopNames(c, route)
      {
        uniqueStops := uniqueStops + {c.stops[route[j]].name};
        j := j + 1;
      }
      r := Some(BusStatistics(|route|, |uniqueStops|, length, Quotient(length as real, coordsLength)));
    }
  }
}
