/** transport_catalogue.h / transport_catalogue.cpp: the TransportGuide store.

    Pointers become positions: a `Stop*` is a StopRef (index into the list of
    stops_), a `Bus*` is a BusRef (index into buses_). std::list never moves its
    elements, so a position names the same element for the store's lifetime.
    The hash maps become Dafny maps; the two std::set members of shared
    pointers become NameSets, maps from a name to the copy held for it. */
module Catalogue {
  import opened Wrappers
  import opened Geo
  import opened Domain

  /** A `Bus*`: the position of the bus in the list of buses. */
  type BusRef = nat

  /** The sequence reversed: the order in which AddBus appends the way back. */
  function Reversed<T>(s: seq<T>): (r: seq<T>)
    ensures |r| == |s|
    ensures forall k :: 0 <= k < |s| ==> r[k] == s[|s| - 1 - k]
  {
    if s == [] then [] else Reversed(s[1..]) + [s[0]]
  }

  /** The stored stop sequence of a bus: a non-circular, non-empty route is
      followed by its way back without repeating the last stop. */
  function Expand(refs: seq<StopRef>, isCircle: bool): seq<StopRef>
  {
    if !isCircle && |refs| > 0 then refs + Reversed(refs[..|refs| - 1]) else refs
  }

  /** Reversing a non-empty sequence puts its first element last. */
  lemma ReversedStep<T>(s: seq<T>)
    requires s != []
    ensures Reversed(s) == Reversed(s[1..]) + [s[0]]
  {
  }

  /** The out-and-back shape: 2n-1 stops, the forward list, then stops n-2 down to 0. */
  lemma ExpandShape(refs: seq<StopRef>, isCircle: bool)
    ensures isCircle || refs == [] ==> Expand(refs, isCircle) == refs
    ensures !isCircle && refs != [] ==>
      && |Expand(refs, isCircle)| == 2 * |refs| - 1
      && Expand(refs, isCircle)[..|refs|] == refs
      && forall j :: |refs| <= j < 2 * |refs| - 1 ==> Expand(refs, isCircle)[j] == refs[2 * |refs| - 2 - j]
  {
  }

  /** stop_to_routes_ after `stop_to_routes_[s].insert(b)` for every s of route. */
  function Registered(m: map<StopRef, set<BusRef>>, route: seq<StopRef>, b: BusRef): map<StopRef, set<BusRef>>
  {
    map s | s in m.Keys + (set x | x in route) :: (if s in m then m[s] else {}) + (if s in route then {b} else {})
  }

  /** Registering bus b under a route adds b to the entry of every stop on it. */
  lemma RegisteredSpec(m: map<StopRef, set<BusRef>>, route: seq<StopRef>, b: BusRef)
    ensures forall s :: s in Registered(m, route, b) <==> s in m || s in route
    ensures forall s, c :: s in Registered(m, route, b) ==>
      (c in Registered(m, route, b)[s] <==> (s in m && c in m[s]) || (s in route && c == b))
  {
  }

  lemma RegisteredEmpty(m: map<StopRef, set<BusRef>>, b: BusRef)
    ensures Registered(m, [], b) == m
  {
    var r := Registered(m, [], b);
    assert r.Keys == m.Keys;
    forall s | s in r ensures r[s] == m[s] {
    }
  }

  lemma RegisteredStep(m: map<StopRef, set<BusRef>>, route: seq<StopRef>, s: StopRef, b: BusRef)
    ensures var before := Registered(m, route, b);
      Registered(m, route + [s], b) == before[s := (if s in before then before[s] else {}) + {b}]
  {
    var before := Registered(m, route, b);
    var after := Registered(m, route + [s], b);
    var expected := before[s := (if s in before then before[s] else {}) + {b}];
    assert forall x :: x in route + [s] <==> x in route || x == s;
    assert after.Keys == expected.Keys;
    forall x | x in after.Keys ensures after[x] == expected[x] {
    }
  }

  /** The largest value std::size_t holds, plus one. */
  const SizeModulus: nat := 0x1_0000_0000_0000_0000

  /** TwoStopHasher on the two pointer hashes a and b, in wrapping size_t arithmetic. */
  function TwoStopHash(a: nat, b: nat): (h: nat)
    requires a < SizeModulus && b < SizeModulus
    ensures h < SizeModulus
  {
    var s := (a + b) % SizeModulus;
    ((s * ((s + 1) % SizeModulus)) % SizeModulus / 2 + b) % SizeModulus
  }

  /** Swapping the pair changes the hash unless both pointers hash alike. */
  lemma {:induction false} TwoStopHashSwap(a: nat, b: nat)
    requires a < SizeModulus && b < SizeModulus
    ensures TwoStopHash(a, b) == TwoStopHash(b, a) <==> a == b
  {
    var s := (a + b) % SizeModulus;
    assert s == (b + a) % SizeModulus;
    var t := (s * ((s + 1) % SizeModulus)) % SizeModulus / 2;
    assert TwoStopHash(a, b) == (t + b) % SizeModulus;
    assert TwoStopHash(b, a) == (t + a) % SizeModulus;
    ModularAddCancel(t, a, b);
  }

  lemma ModularAddCancel(t: nat, a: nat, b: nat)
    requires a < SizeModulus && b < SizeModulus && t < SizeModulus
    ensures (t + a) % SizeModulus == (t + b) % SizeModulus <==> a == b
  {
    var m := SizeModulus;
    if t + a < m && t + b < m {
    } else if t + a >= m && t + b >= m {
      assert (t + a) % m == t + a - m;
      assert (t + b) % m == t + b - m;
    } else if t + a >= m {
      assert (t + a) % m == t + a - m;
    } else {
      assert (t + b) % m == t + b - m;
    }
  }

  /** name_to_stop_ and stops_ agree: each name maps to the one stop of that
      name, and every stop is reachable by its name. */
  ghost predicate StopIndexOk(index: map<string, StopRef>, stops: seq<Stop>) {
    && (forall n :: n in index ==> index[n] < |stops| && stops[index[n]].name == n)
    && (forall i :: 0 <= i < |stops| ==> stops[i].name in index && index[stops[i].name] == i)
  }

  /** Every stop a bus visits is one of the first `count` stops. */
  ghost predicate RoutesWithin(buses: seq<Bus>, count: nat) {
    forall i, k :: 0 <= i < |buses| && 0 <= k < |buses[i].stops| ==> buses[i].stops[k] < count
  }

  /** Distances are recorded only between the first `count` stops. */
  ghost predicate DistancesWithin(distances: map<(StopRef, StopRef), int>, count: nat) {
    forall p :: p in distances ==> p.0 < count && p.1 < count
  }

  /** The ordered set of stops holds one copy per known stop name. */
  ghost predicate StopSnapshotsOk(snapshots: NameSet<Stop>, index: map<string, StopRef>) {
    && snapshots.Keys == index.Keys
    && (forall n :: n in snapshots ==> snapshots[n].name == n)
  }

  /** name_to_route_ as AddBus builds it: a name is indexed by the first bus
      added under it, since unordered_map::insert keeps an existing entry. */
  function FirstBusIndex(buses: seq<Bus>): map<string, BusRef>
    decreases |buses|
  {
    if buses == [] then map[]
    else
      var m := FirstBusIndex(buses[..|buses| - 1]);
      var last := buses[|buses| - 1];
      if last.name in m then m else m[last.name := |buses| - 1]
  }

  /** stop_to_routes_ as AddBus builds it, bus after bus. */
  function ReverseIndex(buses: seq<Bus>): map<StopRef, set<BusRef>>
    decreases |buses|
  {
    if buses == [] then map[]
    else Registered(ReverseIndex(buses[..|buses| - 1]), buses[|buses| - 1].stops, |buses| - 1)
  }

  /** buses_ptr_set_ as AddBus builds it: a std::set by name keeps the first insert. */
  function BusSnapshots(buses: seq<Bus>): NameSet<Bus>
    decreases |buses|
  {
    if buses == [] then map[] else Insert(BusSnapshots(buses[..|buses| - 1]), buses[|buses| - 1], BusName)
  }

  /** A name is indexed exactly when some bus has it, and it points to the first such bus. */
  lemma {:induction false} FirstBusIndexSpec(buses: seq<Bus>)
    ensures forall n :: n in FirstBusIndex(buses) ==>
      FirstBusIndex(buses)[n] < |buses| && buses[FirstBusIndex(buses)[n]].name == n
    ensures forall n, j :: n in FirstBusIndex(buses) && 0 <= j < FirstBusIndex(buses)[n] ==> buses[j].name != n
    ensures forall i :: 0 <= i < |buses| ==> buses[i].name in FirstBusIndex(buses)
    decreases |buses|
  {
    if buses != [] {
      var prefix, last := buses[..|buses| - 1], buses[|buses| - 1];
      FirstBusIndexSpec(prefix);
      var pm, m := FirstBusIndex(prefix), FirstBusIndex(buses);
      assert m == if last.name in pm then pm else pm[last.name := |prefix|];
      forall n | n in m ensures m[n] < |buses| && buses[m[n]].name == n {
        if n in pm {
          assert buses[pm[n]] == prefix[pm[n]];
        }
      }
      forall n, j | n in m && 0 <= j < m[n] ensures buses[j].name != n {
        assert buses[j] == prefix[j];
      }
      forall i | 0 <= i < |buses| ensures buses[i].name in m {
        if i < |prefix| {
          assert buses[i] == prefix[i];
        }
      }
    }
  }

  /** The reverse index holds exactly the (stop, bus) pairs of the stored routes. */
  lemma {:induction false} ReverseIndexSpec(buses: seq<Bus>)
    ensures forall s :: s in ReverseIndex(buses) ==> ReverseIndex(buses)[s] != {}
    ensures forall s: StopRef, b: BusRef :: s in ReverseIndex(buses) && b in ReverseIndex(buses)[s] ==> b < |buses|
    ensures forall s: StopRef, b: BusRef :: s in ReverseIndex(buses) && b in ReverseIndex(buses)[s] ==> s in buses[b].stops
    ensures forall b: BusRef, s: StopRef :: b < |buses| && s in buses[b].stops ==>
              s in ReverseIndex(buses) && b in ReverseIndex(buses)[s]
    decreases |buses|
  {
    if buses != [] {
      var prefix, last, top := buses[..|buses| - 1], buses[|buses| - 1], |buses| - 1;
      ReverseIndexSpec(prefix);
      var pm, m := ReverseIndex(prefix), ReverseIndex(buses);
      assert m == Registered(pm, last.stops, top);
      RegisteredSpec(pm, last.stops, top);
      forall s | s in m ensures m[s] != {} {
        if s in pm {
          assert pm[s] != {};
          var c :| c in pm[s];
          assert c in m[s];
        } else {
          assert top in m[s];
        }
      }
      forall s: StopRef, b: BusRef | s in m && b in m[s] ensures b < |buses| && s in buses[b].stops {
        if s in pm && b in pm[s] {
          assert b < |prefix| && s in prefix[b].stops;
          assert prefix[b] == buses[b];
        } else {
          assert b == top && s in last.stops;
        }
      }
      forall b: BusRef, s: StopRef | b < |buses| && s in buses[b].stops ensures s in m && b in m[s] {
        if b < top {
          assert prefix[b] == buses[b];
        }
      }
    } else {
      assert ReverseIndex(buses) == map[];
    }
  }

  /** The bus snapshots hold, for each name, the first bus added under it. */
  lemma {:induction false} BusSnapshotsSpec(buses: seq<Bus>)
    ensures BusSnapshots(buses).Keys == FirstBusIndex(buses).Keys
    ensures forall n :: n in BusSnapshots(buses) ==>
      FirstBusIndex(buses)[n] < |buses| && BusSnapshots(buses)[n] == buses[FirstBusIndex(buses)[n]]
    decreases |buses|
  {
    if buses != [] {
      var prefix, last := buses[..|buses| - 1], buses[|buses| - 1];
      BusSnapshotsSpec(prefix);
      var ps, pm := BusSnapshots(prefix), FirstBusIndex(prefix);
      var r, m := BusSnapshots(buses), FirstBusIndex(buses);
      assert r == Insert(ps, last, BusName);
      assert m == if last.name in pm then pm else pm[last.name := |prefix|];
      forall n | n in r ensures m[n] < |buses| && r[n] == buses[m[n]] {
        if n in ps {
          assert buses[pm[n]] == prefix[pm[n]];
        }
      }
    }
  }

  /** Appending a bus updates the three derived indexes the way AddBus does. */
  lemma AppendBus(buses: seq<Bus>, bus: Bus)
    ensures FirstBusIndex(buses + [bus]) ==
      if bus.name in FirstBusIndex(buses) then FirstBusIndex(buses) else FirstBusIndex(buses)[bus.name := |buses|]
    ensures ReverseIndex(buses + [bus]) == Registered(ReverseIndex(buses), bus.stops, |buses|)
    ensures BusSnapshots(buses + [bus]) == Insert(BusSnapshots(buses), bus, BusName)
  {
    assert (buses + [bus])[..|buses|] == buses;
  }

  lemma RoutesWithinAppend(buses: seq<Bus>, bus: Bus, count: nat)
    requires RoutesWithin(buses, count)
    requires forall k :: 0 <= k < |bus.stops| ==> bus.stops[k] < count
    ensures RoutesWithin(buses + [bus], count)
  {
    assert forall i :: 0 <= i < |buses| ==> (buses + [bus])[i] == buses[i];
  }

  /** The members of a TransportGuide, as one value. */
  datatype State = State(
    nameToStop: map<string, StopRef>,                  // name_to_stop_
    nameToRoute: map<string, BusRef>,                  // name_to_route_
    stopToRoutes: map<StopRef, set<BusRef>>,           // stop_to_routes_
    stopsDistance: map<(StopRef, StopRef), int>,       // stops_distance
    stops: seq<Stop>,                                  // stops_
    buses: seq<Bus>,                                   // buses_
    stopsPtrSet: NameSet<Stop>,                        // stops_ptr_set_
    busesPtrSet: NameSet<Bus>)                         // buses_ptr_set_
  {
    /** The invariant every public operation keeps. */
    ghost predicate Valid() {
      && StopIndexOk(nameToStop, stops)
      && nameToRoute == FirstBusIndex(buses)
      && stopToRoutes == ReverseIndex(buses)
      && busesPtrSet == BusSnapshots(buses)
      && RoutesWithin(buses, |stops|)
      && DistancesWithin(stopsDistance, |stops|)
      && StopSnapshotsOk(stopsPtrSet, nameToStop)
    }

    /** HasStop: the name is a declared (or auto-created) stop. */
    function HasStop(name: string): (r: bool)
      requires Valid()
      ensures r <==> exists i :: 0 <= i < |stops| && stops[i].name == name
    {
      if name in nameToStop then assert stops[nameToStop[name]].name == name; true else false
    }

    /** FindStop: the stop of that name, or null. */
    function FindStop(name: string): (r: Option<StopRef>)
      requires Valid()
      ensures r.None? <==> forall i :: 0 <= i < |stops| ==> stops[i].name != name
      ensures r.Some? ==> r.value < |stops| && stops[r.value].name == name
    {
      if name in nameToStop then Some(nameToStop[name]) else None
    }

    /** FindBus: the first bus added under that name, or null. */
    function FindBus(name: string): (r: Option<BusRef>)
      requires Valid()
      ensures r.None? <==> forall i :: 0 <= i < |buses| ==> buses[i].name != name
      ensures r.Some? ==> r.value < |buses| && buses[r.value].name == name
      ensures r.Some? ==> forall j :: 0 <= j < r.value ==> buses[j].name != name
    {
      FirstBusIndexSpec(buses);
      if name in nameToRoute then Some(nameToRoute[name]) else None
    }

    /** FindAllBusesToStop: exactly the buses whose stored route visits the stop
        (the empty set when the stop has no entry). */
    function FindAllBusesToStop(stop: StopRef): (r: set<BusRef>)
      requires Valid()
      ensures forall b: BusRef :: b in r <==> b < |buses| && stop in buses[b].stops
    {
      ReverseIndexSpec(buses);
      if stop in stopToRoutes then stopToRoutes[stop] else {}
    }

    /** IsStopDontHaveBuses (despite its name): true exactly when a stop of that
        name is known and some bus visits it. */
    function IsStopDontHaveBuses(stop: Stop): (r: bool)
      requires Valid()
      ensures r <==> stop.name in nameToStop && FindAllBusesToStop(nameToStop[stop.name]) != {}
    {
      ReverseIndexSpec(buses);
      stop.name in nameToStop && nameToStop[stop.name] in stopToRoutes
    }

    /** GetRealStopsDistance: the (A,B) entry; else 0 for the same stop; else
        the (B,A) entry; else 0. */
    function GetRealStopsDistance(stopA: StopRef, stopB: StopRef): (d: int)
      ensures (stopA, stopB) in stopsDistance ==> d == stopsDistance[(stopA, stopB)]
      ensures (stopA, stopB) !in stopsDistance && stopA == stopB ==> d == 0
      ensures (stopA, stopB) !in stopsDistance && stopA != stopB && (stopB, stopA) in stopsDistance ==>
                d == stopsDistance[(stopB, stopA)]
      ensures (stopA, stopB) !in stopsDistance && (stopB, stopA) !in stopsDistance ==> d == 0
    {
      if (stopA, stopB) in stopsDistance then stopsDistance[(stopA, stopB)]
      else if stopA == stopB then 0
      else if (stopB, stopA) in stopsDistance then stopsDistance[(stopB, stopA)]
      else 0
    }

    /** GetStops: the stops in the order they were first added, with current coordinates. */
    function GetStops(): seq<Stop> { stops }

    /** GetBuses: every bus in the order it was added, including same-name repeats. */
    function GetBuses(): seq<Bus> { buses }

    /** GetStopsSharedPtrs: the copies taken when each stop was first added, in name order. */
    ghost function GetStopsSharedPtrs(): seq<Stop> { InOrder(stopsPtrSet) }

    /** GetBusesSharedPtrs: one copy per bus name (the first bus added under it), in name order. */
    ghost function GetBusesSharedPtrs(): seq<Bus> { InOrder(busesPtrSet) }

    /** The part of the invariant that AddStop relies on and keeps. */
    ghost predicate StopsOk() {
      StopIndexOk(nameToStop, stops) && StopSnapshotsOk(stopsPtrSet, nameToStop)
    }

    /** AddStop: an upsert. A known name only has its coordinates replaced; a new
        name appends one stop, indexes it, and records a copy in the ordered set. */
    function AddStop(name: string, coordinates: Coordinates): (r: State)
      requires StopsOk()
      ensures r.StopsOk()
      ensures name in r.nameToStop && r.stops[r.nameToStop[name]] == Stop(name, coordinates)
      ensures r.nameToStop.Keys == nameToStop.Keys + {name}
      ensures forall n :: n in nameToStop ==> r.nameToStop[n] == nameToStop[n]
    {
      if name in nameToStop then
        var i := nameToStop[name];
        UpdatedStopKeepsIndex(nameToStop, stops, i, coordinates);
        this.(stops := stops[i := stops[i].(coordinates := coordinates)])
      else
        var stop := Stop(name, coordinates);
        NewStopKeepsIndex(nameToStop, stops, stop);
        NewStopSnapshots(stopsPtrSet, nameToStop, stop, |stops|);
        this.(stops := stops + [stop], nameToStop := nameToStop[name := |stops|],
              stopsPtrSet := Insert(stopsPtrSet, stop, StopName))
    }

    /** What else AddStop does: a known name changes no list length and no
        snapshot; a new name is appended to stops_ and copied into the ordered
        set; no other stop and no bus-side member changes. */
    lemma AddStopFrame(name: string, coordinates: Coordinates)
      requires StopsOk()
      ensures var r := AddStop(name, coordinates);
        && (name in nameToStop ==> |r.stops| == |stops| && r.nameToStop == nameToStop)
        && (name !in nameToStop ==> r.stops == stops + [Stop(name, coordinates)])
        && (forall i :: 0 <= i < |stops| && stops[i].name != name ==> r.stops[i] == stops[i])
        && (name in nameToStop ==> r.stopsPtrSet == stopsPtrSet)
        && (name !in nameToStop ==> r.stopsPtrSet == stopsPtrSet[name := Stop(name, coordinates)])
        && r.buses == buses && r.nameToRoute == nameToRoute && r.stopToRoutes == stopToRoutes
        && r.stopsDistance == stopsDistance && r.busesPtrSet == busesPtrSet
    {
    }

    /** AddStop keeps the whole invariant: stops are only appended or moved. */
    lemma AddStopKeepsValid(name: string, coordinates: Coordinates)
      requires Valid()
      ensures AddStop(name, coordinates).Valid()
    {
      AddStopFrame(name, coordinates);
    }

    /** GetStops lists the stops in the order they were first added: a new
        name goes to the end of the list, a known one leaves its length and
        every other stop as they were. */
    lemma GetStopsInInsertionOrder(name: string, coordinates: Coordinates)
      requires StopsOk()
      ensures name !in nameToStop ==> AddStop(name, coordinates).GetStops() == GetStops() + [Stop(name, coordinates)]
      ensures name in nameToStop ==> |AddStop(name, coordinates).GetStops()| == |GetStops()|
      ensures forall i :: 0 <= i < |stops| && stops[i].name != name ==> AddStop(name, coordinates).GetStops()[i] == GetStops()[i]
    {
      AddStopFrame(name, coordinates);
    }

    /** One iteration of AddBus's first loop: AddStop(name, {0,0}) unless the name is known. */
    function AddIfMissing(name: string): (r: State)
      requires StopsOk()
      ensures r.StopsOk() && name in r.nameToStop
      ensures forall n :: n in nameToStop ==> n in r.nameToStop && r.nameToStop[n] == nameToStop[n]
    {
      if name in nameToStop then this else AddStop(name, Coordinates(0.0, 0.0))
    }

    /** A missing name gets one stop at (0,0), appended; nothing else changes. */
    lemma AddIfMissingFrame(name: string)
      requires StopsOk()
      ensures var r := AddIfMissing(name);
        && (forall n :: n in r.nameToStop ==> n in nameToStop || n == name)
        && |stops| <= |r.stops| && r.stops[..|stops|] == stops
        && (forall i :: |stops| <= i < |r.stops| ==> r.stops[i] == Stop(name, Coordinates(0.0, 0.0)))
        && r.buses == buses && r.nameToRoute == nameToRoute && r.stopToRoutes == stopToRoutes
        && r.stopsDistance == stopsDistance && r.busesPtrSet == busesPtrSet
        && (forall n :: n in stopsPtrSet ==> n in r.stopsPtrSet && r.stopsPtrSet[n] == stopsPtrSet[n])
    {
      if name !in nameToStop {
        AddStopFrame(name, Coordinates(0.0, 0.0));
      }
    }

    /** The first loop of AddBus: every referenced name not yet known gets a
        stop at (0,0), in the order the names appear. */
    function AddMissingStops(names: seq<string>): (r: State)
      requires StopsOk()
      ensures r.StopsOk()
      decreases |names|
    {
      if names == [] then this
      else AddMissingStops(names[..|names| - 1]).AddIfMissing(names[|names| - 1])
    }

    /** The loop after k+1 names is the loop after k names and one more step. */
    lemma AddMissingStopsPrefix(names: seq<string>, k: nat)
      requires StopsOk() && k < |names|
      ensures AddMissingStops(names[..k + 1]) == AddMissingStops(names[..k]).AddIfMissing(names[k])
    {
      assert names[..k + 1][..k] == names[..k];
    }

    /** Afterwards every listed name is a stop, the old entries of the index are
        kept, and only listed names are new. */
    lemma {:induction false} AddMissingStopsIndex(names: seq<string>)
      requires StopsOk()
      ensures forall n :: n in names ==> n in AddMissingStops(names).nameToStop
      ensures forall n :: n in nameToStop ==>
        n in AddMissingStops(names).nameToStop && AddMissingStops(names).nameToStop[n] == nameToStop[n]
      ensures forall n :: n in AddMissingStops(names).nameToStop ==> n in nameToStop || n in names
      decreases |names|
    {
      if names != [] {
        var init, last := names[..|names| - 1], names[|names| - 1];
        AddMissingStopsIndex(init);
        var p := AddMissingStops(init);
        p.AddIfMissingFrame(last);
        assert AddMissingStops(names) == p.AddIfMissing(last);
        assert forall n :: n in names <==> n in init || n == last;
      }
    }

    /** AddMissingStops only appends stops, each at (0,0), and changes nothing else. */
    lemma {:induction false} AddMissingStopsStops(names: seq<string>)
      requires StopsOk()
      ensures |stops| <= |AddMissingStops(names).stops| && AddMissingStops(names).stops[..|stops|] == stops
      ensures forall i :: |stops| <= i < |AddMissingStops(names).stops| ==>
        AddMissingStops(names).stops[i].coordinates == Coordinates(0.0, 0.0)
      ensures var r := AddMissingStops(names);
        && r.buses == buses && r.nameToRoute == nameToRoute && r.stopToRoutes == stopToRoutes
        && r.stopsDistance == stopsDistance && r.busesPtrSet == busesPtrSet
        && (forall n :: n in stopsPtrSet ==> n in r.stopsPtrSet && r.stopsPtrSet[n] == stopsPtrSet[n])
      decreases |names|
    {
      if names != [] {
        var init, last := names[..|names| - 1], names[|names| - 1];
        AddMissingStopsStops(init);
        var p := AddMissingStops(init);
        p.AddIfMissingFrame(last);
        var r := p.AddIfMissing(last);
        assert r == AddMissingStops(names);
        assert r.stops[..|p.stops|] == p.stops;
        assert r.stops[..|stops|] == p.stops[..|stops|];
        forall i | |stops| <= i < |r.stops| ensures r.stops[i].coordinates == Coordinates(0.0, 0.0) {
          if i < |p.stops| {
            assert r.stops[i] == p.stops[i];
          }
        }
      }
    }

    /** AddMissingStops keeps the whole invariant. */
    lemma AddMissingStopsKeepsValid(names: seq<string>)
      requires Valid()
      ensures AddMissingStops(names).Valid()
    {
      AddMissingStopsStops(names);
    }

    /** The stop pointers AddBus collects for the names, once all of them are known. */
    function RefsOf(names: seq<string>): (r: seq<StopRef>)
      requires forall k :: 0 <= k < |names| ==> names[k] in nameToStop
      ensures |r| == |names| && forall k :: 0 <= k < |names| ==> r[k] == nameToStop[names[k]]
    {
      seq(|names|, k requires 0 <= k < |names| => nameToStop[names[k]])
    }

    /** The stop pointers the first loop of AddBus collects: the k-th is the
        stop named by the k-th name once the missing stops are added. */
    function KnownRefs(names: seq<string>): (r: seq<StopRef>)
      requires StopsOk()
      ensures |r| == |names|
      ensures forall k :: 0 <= k < |names| ==>
        r[k] < |AddMissingStops(names).stops| && AddMissingStops(names).stops[r[k]].name == names[k]
    {
      AddMissingStopsIndex(names);
      AddMissingStops(names).RefsOf(names)
    }

    /** One more name collects one more pointer, to the stop of that name. */
    lemma KnownRefsPrefix(names: seq<string>, k: nat)
      requires StopsOk() && k < |names|
      ensures KnownRefs(names[..k + 1]) ==
        KnownRefs(names[..k]) + [AddMissingStops(names[..k]).AddIfMissing(names[k]).nameToStop[names[k]]]
    {
      assert names[..k + 1] == names[..k] + [names[k]];
      AddMissingStopsPrefix(names, k);
      var p := AddMissingStops(names[..k]);
      var q := p.AddIfMissing(names[k]);
      AddMissingStopsIndex(names[..k]);
      assert KnownRefs(names[..k + 1]) == q.RefsOf(names[..k] + [names[k]]);
      assert KnownRefs(names[..k]) == p.RefsOf(names[..k]);
      RefsOfSnoc(p, q, names[..k], names[k]);
    }

    /** The rest of AddBus once its stops exist: push the bus to buses_, index its
        name unless taken (insert does not overwrite), copy it into the ordered
        set unless the name is there, and register it under every stop it visits. */
    function RegisterBus(bus: Bus): (r: State)
    {
      this.(buses := buses + [bus],
            nameToRoute := if bus.name in nameToRoute then nameToRoute else nameToRoute[bus.name := |buses|],
            busesPtrSet := Insert(busesPtrSet, bus, BusName),
            stopToRoutes := Registered(stopToRoutes, bus.stops, |buses|))
    }

    /** Registering a bus whose stops all exist keeps the invariant. */
    lemma RegisterBusKeepsValid(bus: Bus)
      requires Valid()
      requires forall k :: 0 <= k < |bus.stops| ==> bus.stops[k] < |stops|
      ensures RegisterBus(bus).Valid()
    {
      BusSnapshotsSpec(buses);
      AppendBus(buses, bus);
      RoutesWithinAppend(buses, bus, |stops|);
    }

    /** AddBus: unknown stops are created first at (0,0); the route is expanded
        unless circular (or empty); the bus is then registered. A name already
        taken keeps its first bus for FindBus and the ordered set. */
    function AddBus(name: string, stopNames: seq<string>, isCircle: bool): (r: State)
      requires Valid()
      ensures r.Valid()
      ensures r.buses == buses + [Bus(name, Expand(KnownRefs(stopNames), isCircle), isCircle)]
      ensures r.stopsDistance == stopsDistance
    {
      var known := AddMissingStops(stopNames);
      AddMissingStopsKeepsValid(stopNames);
      AddMissingStopsStops(stopNames);
      var refs := KnownRefs(stopNames);
      var bus := Bus(name, Expand(refs, isCircle), isCircle);
      assert forall k :: 0 <= k < |bus.stops| ==> bus.stops[k] in refs;
      known.RegisterBusKeepsValid(bus);
      known.RegisterBus(bus)
    }

    /** The name index after AddBus: a new name finds the new bus, a taken name
        keeps its first bus (and the ordered set keeps its copy), other names are untouched. */
    lemma AddBusFindBus(name: string, stopNames: seq<string>, isCircle: bool)
      requires Valid()
      ensures var r := AddBus(name, stopNames, isCircle);
        && r.FindBus(name) == (if FindBus(name).Some? then FindBus(name) else Some(|buses|))
        && (forall n :: n != name ==> r.FindBus(n) == FindBus(n))
        && (FindBus(name).Some? ==> r.GetBusesSharedPtrs() == GetBusesSharedPtrs())
    {
      var known := AddMissingStops(stopNames);
      AddMissingStopsStops(stopNames);
      var bus := Bus(name, Expand(KnownRefs(stopNames), isCircle), isCircle);
      var r := AddBus(name, stopNames, isCircle);
      assert r == known.RegisterBus(bus);
      assert r.nameToRoute == if name in nameToRoute then nameToRoute else nameToRoute[name := |buses|];
      if name in nameToRoute {
        BusSnapshotsSpec(buses);
        assert name in busesPtrSet;
        assert r.busesPtrSet == busesPtrSet;
      }
    }

    /** AddBus keeps every stop and index entry, and the stops it adds are
        referenced names placed at (0,0). */
    lemma AddBusStops(name: string, stopNames: seq<string>, isCircle: bool)
      requires Valid()
      ensures var r := AddBus(name, stopNames, isCircle);
        && (forall n :: n in nameToStop ==> n in r.nameToStop && r.nameToStop[n] == nameToStop[n])
        && |stops| <= |r.stops| && r.stops[..|stops|] == stops
        && (forall i :: |stops| <= i < |r.stops| ==> r.stops[i].coordinates == Coordinates(0.0, 0.0))
        && (forall i :: |stops| <= i < |r.stops| ==> r.stops[i].name in stopNames)
        && (forall n :: n in stopNames ==> n in r.nameToStop)
        && (forall k :: 0 <= k < |stopNames| ==>
              KnownRefs(stopNames)[k] < |r.stops| && r.stops[KnownRefs(stopNames)[k]].name == stopNames[k])
        && (forall n :: n in stopsPtrSet ==> n in r.stopsPtrSet && r.stopsPtrSet[n] == stopsPtrSet[n])
    {
      var known := AddMissingStops(stopNames);
      AddMissingStopsIndex(stopNames);
      AddMissingStopsStops(stopNames);
      var r := AddBus(name, stopNames, isCircle);
      assert r.stops == known.stops && r.nameToStop == known.nameToStop;
      forall i | |stops| <= i < |r.stops| ensures r.stops[i].name in stopNames {
        assert r.stops[i].name in known.nameToStop;
      }
    }

    /** GetBuses lists the buses in the order they were added, a second bus
        under a known name included, and GetStops keeps the stops it listed. */
    lemma GetBusesInInsertionOrder(name: string, stopNames: seq<string>, isCircle: bool)
      requires Valid()
      ensures var r := AddBus(name, stopNames, isCircle);
        && |r.GetBuses()| == |GetBuses()| + 1 && r.GetBuses()[..|GetBuses()|] == GetBuses()
        && r.GetBuses()[|GetBuses()|].name == name && r.GetBuses()[|GetBuses()|].isCircle == isCircle
        && |GetStops()| <= |r.GetStops()| && r.GetStops()[..|GetStops()|] == GetStops()
    {
      AddBusStops(name, stopNames, isCircle);
    }

    /** SetStopsDistance: a no-op when either name is unknown; otherwise sets or
        overwrites the (A,B) entry only, even when A and B are the same stop. */
    function SetStopsDistance(nameA: string, nameB: string, distance: int): (r: State)
      requires Valid()
      ensures r.Valid()
      ensures FindStop(nameA).None? || FindStop(nameB).None? ==> r == this
      ensures FindStop(nameA).Some? && FindStop(nameB).Some? ==>
        var p := (FindStop(nameA).value, FindStop(nameB).value);
        && r.stopsDistance.Keys == stopsDistance.Keys + {p}
        && r.stopsDistance[p] == distance
        && (forall q :: q in stopsDistance && q != p ==> r.stopsDistance[q] == stopsDistance[q])
      ensures r.stops == stops && r.buses == buses && r.nameToStop == nameToStop && r.nameToRoute == nameToRoute
      ensures r.stopToRoutes == stopToRoutes && r.stopsPtrSet == stopsPtrSet && r.busesPtrSet == busesPtrSet
    {
      match (FindStop(nameA), FindStop(nameB))
      case (Some(a), Some(b)) => this.(stopsDistance := stopsDistance[(a, b) := distance])
      case _ => this
    }
  }

  /** Collecting one more pointer after the index grew keeps the earlier ones. */
  lemma RefsOfSnoc(p: State, q: State, names: seq<string>, x: string)
    requires forall k :: 0 <= k < |names| ==> names[k] in p.nameToStop
    requires forall n :: n in p.nameToStop ==> n in q.nameToStop && q.nameToStop[n] == p.nameToStop[n]
    requires x in q.nameToStop
    ensures q.RefsOf(names + [x]) == p.RefsOf(names) + [q.nameToStop[x]]
  {
    var a, b := q.RefsOf(names + [x]), p.RefsOf(names) + [q.nameToStop[x]];
    forall j | 0 <= j < |names| + 1 ensures a[j] == b[j] {
      if j < |names| {
        assert (names + [x])[j] == names[j];
      }
    }
  }

  lemma UpdatedStopKeepsIndex(index: map<string, StopRef>, stops: seq<Stop>, i: StopRef, coordinates: Coordinates)
    requires StopIndexOk(index, stops) && i < |stops|
    ensures StopIndexOk(index, stops[i := stops[i].(coordinates := coordinates)])
  {
    var r := stops[i := stops[i].(coordinates := coordinates)];
    assert forall j :: 0 <= j < |stops| ==> r[j].name == stops[j].name;
  }

  lemma NewStopKeepsIndex(index: map<string, StopRef>, stops: seq<Stop>, stop: Stop)
    requires StopIndexOk(index, stops) && stop.name !in index
    ensures StopIndexOk(index[stop.name := |stops|], stops + [stop])
  {
    assert forall j :: 0 <= j < |stops| ==> (stops + [stop])[j] == stops[j];
  }

  lemma NewStopSnapshots(snapshots: NameSet<Stop>, index: map<string, StopRef>, stop: Stop, ref: StopRef)
    requires StopSnapshotsOk(snapshots, index) && stop.name !in index
    ensures StopSnapshotsOk(Insert(snapshots, stop, StopName), index[stop.name := ref])
  {
  }

  /** A default-constructed TransportGuide. */
  const Empty := State(map[], map[], map[], map[], [], [], map[], map[])

  lemma EmptyIsValid()
    ensures Empty.Valid()
  {
  }

  /** After recording A->B, the lookup A->B gives it, and so does B->A while
      no B->A entry exists (the reverse-direction fallback). */
  lemma DistanceAfterSet(c: State, nameA: string, nameB: string, distance: int)
    requires c.Valid()
    requires c.FindStop(nameA).Some? && c.FindStop(nameB).Some?
    ensures var a, b := c.FindStop(nameA).value, c.FindStop(nameB).value;
      var r := c.SetStopsDistance(nameA, nameB, distance);
      && r.GetRealStopsDistance(a, b) == distance
      && ((b, a) !in c.stopsDistance ==> r.GetRealStopsDistance(b, a) == distance)
      && ((b, a) in c.stopsDistance && a != b ==> r.GetRealStopsDistance(b, a) == c.stopsDistance[(b, a)])
  {
  }

  /** The table is asymmetric: with both directions recorded, each lookup
      returns its own entry. */
  lemma DistanceIsDirected(c: State, a: StopRef, b: StopRef)
    requires (a, b) in c.stopsDistance && (b, a) in c.stopsDistance
    ensures c.GetRealStopsDistance(a, b) == c.stopsDistance[(a, b)]
    ensures c.GetRealStopsDistance(b, a) == c.stopsDistance[(b, a)]
  {
  }

  /** A later AddStop of a known name changes what FindStop sees but not the
      copy held by GetStopsSharedPtrs. */
  lemma StopSnapshotIsACopy(c: State, name: string, first: Coordinates, later: Coordinates)
    requires c.Valid() && name !in c.nameToStop
    ensures var c1 := c.AddStop(name, first);
      var c2 := c1.AddStop(name, later);
      && c2.stops[c2.FindStop(name).value].coordinates == later
      && c2.GetStopsSharedPtrs() == c1.GetStopsSharedPtrs()
      && Stop(name, first) in c2.GetStopsSharedPtrs()
  {
    var c1 := c.AddStop(name, first);
    c.AddStopFrame(name, first);
    c1.AddStopFrame(name, later);
    InOrderAscending(c1.stopsPtrSet, StopName);
  }
}

/** The TransportGuide object itself: its members are updated in place. */
module CatalogueObject {
  import opened Wrappers
  import opened Geo
  import opened Domain
  import opened Catalogue

  class TransportGuide {
    var nameToStop: map<string, StopRef>
    var nameToRoute: map<string, BusRef>
    var stopToRoutes: map<StopRef, set<BusRef>>
    var stopsDistance: map<(StopRef, StopRef), int>
    var stops: seq<Stop>
    var buses: seq<Bus>
    var stopsPtrSet: NameSet<Stop>
    var busesPtrSet: NameSet<Bus>

    /** The members as one value; every query of the store is a function of it. */
    function Model(): State
      reads this
    {
      State(nameToStop, nameToRoute, stopToRoutes, stopsDistance, stops, buses, stopsPtrSet, busesPtrSet)
    }

    ghost predicate Valid()
      reads this
    {
      Model().Valid()
    }

    constructor()
      ensures Model() == Empty
      ensures Valid()
    {
      nameToStop, nameToRoute, stopToRoutes, stopsDistance := map[], map[], map[], map[];
      stops, buses, stopsPtrSet, busesPtrSet := [], [], map[], map[];
    }

    method AddStop(name: string, coordinates: Coordinates)
      requires Valid()
      modifies this
      ensures Model() == old(Model()).AddStop(name, coordinates)
      ensures Valid()
    {
      ghost var next := Model().AddStop(name, coordinates);
      Model().AddStopKeepsValid(name, coordinates);
      if name in nameToStop {
        var i := nameToStop[name];
        assert next == Model().(stops := stops[i := stops[i].(coordinates := coordinates)]);
        stops := stops[i := stops[i].(coordinates := coordinates)];
      } else {
        var stop := Stop(name, coordinates);
        assert next == Model().(stops := stops + [stop], nameToStop := nameToStop[name := |stops|],
                                stopsPtrSet := Insert(stopsPtrSet, stop, StopName));
        nameToStop := nameToStop[name := |stops|];
        stops := stops + [stop];
        stopsPtrSet := Insert(stopsPtrSet, stop, StopName);
      }
      assert Model() == next;
    }

    /** The first loop of AddBus: each referenced name that is not yet a stop
        is added at (0,0), and the stop pointers are collected in order. */
    method AddMissingStops(stopNames: seq<string>) returns (refs: seq<StopRef>)
      requires Valid()
      modifies this
      ensures Model() == old(Model()).AddMissingStops(stopNames)
      ensures Valid()
      ensures refs == old(Model()).KnownRefs(stopNames)
    {
      ghost var start := Model();
      refs := [];
      var k := 0;
      while k < |stopNames|
        invariant 0 <= k <= |stopNames|
        invariant Model() == start.AddMissingStops(stopNames[..k])
        invariant refs == start.KnownRefs(stopNames[..k])
      {
        var stop := stopNames[k];
        ghost var before := Model();
        start.AddMissingStopsKeepsValid(stopNames[..k]);
        if stop !in nameToStop {
          AddStop(stop, Coordinates(0.0, 0.0));
          assert before.AddIfMissing(stop) == before.AddStop(stop, Coordinates(0.0, 0.0));
        } else {
          assert before.AddIfMissing(stop) == before;
        }
        refs := refs + [nameToStop[stop]];
        start.KnownRefsPrefix(stopNames, k);
        start.AddMissingStopsPrefix(stopNames, k);
        k := k + 1;
      }
      assert stopNames[..k] == stopNames;
      start.AddMissingStopsKeepsValid(stopNames);
    }

    /** The second loop of AddBus: a non-circular, non-empty route gets its way
        back appended, from the next-to-last stop down to the first. */
    static method ExpandRoute(forward: seq<StopRef>, isCircle: bool) returns (refs: seq<StopRef>)
      ensures refs == Expand(forward, isCircle)
    {
      refs := forward;
      if !isCircle && |forward| > 0 {
        var n := |refs|;
        var i: int := n - 2;
        while i >= 0
          invariant -1 <= i <= n - 2
          invariant refs == forward + Reversed(forward[i + 1..n - 1])
        {
          ReversedStep(forward[i..n - 1]);
          assert forward[i..n - 1][1..] == forward[i + 1..n - 1];
          refs := refs + [refs[i]];
          i := i - 1;
        }
        assert forward[0..n - 1] == forward[..n - 1];
      }
    }

    /** The last loop of AddBus: bus b is added under every stop of its route. */
    method RegisterUnderStops(route: seq<StopRef>, b: BusRef)
      modifies this
      ensures Model() == old(Model()).(stopToRoutes := Registered(old(stopToRoutes), route, b))
    {
      ghost var start := stopToRoutes;
      RegisteredEmpty(start, b);
      var j := 0;
      while j < |route|
        invariant 0 <= j <= |route|
        invariant Model() == old(Model()).(stopToRoutes := Registered(start, route[..j], b))
      {
        var s := route[j];
        RegisteredStep(start, route[..j], s, b);
        stopToRoutes := stopToRoutes[s := (if s in stopToRoutes then stopToRoutes[s] else {}) + {b}];
        assert route[..j + 1] == route[..j] + [s];
        j := j + 1;
      }
      assert route[..j] == route;
    }

    /** The middle of AddBus: the bus is pushed to buses_, its name indexed unless
        taken, and a copy inserted in the ordered set. */
    method PushBus(bus: Bus)
      modifies this
      ensures Model() == old(Model()).RegisterBus(bus).(stopToRoutes := old(stopToRoutes))
    {
      var b := |buses|;
      buses := buses + [bus];
      if bus.name !in nameToRoute {
        nameToRoute := nameToRoute[bus.name := b];
      }
      busesPtrSet := Insert(busesPtrSet, bus, BusName);
    }

    method AddBus(name: string, stopNames: seq<string>, isCircle: bool)
      requires Valid()
      modifies this
      ensures Model() == old(Model()).AddBus(name, stopNames, isCircle)
      ensures Valid()
    {
      // every named stop must exist before the bus is stored
      var forward := AddMissingStops(stopNames);
      ghost var known := Model();
      var refs := ExpandRoute(forward, isCircle);
      var b := |buses|;
      var bus := Bus(name, refs, isCircle);
      PushBus(bus);
      RegisterUnderStops(refs, b);
      assert Model() == known.RegisterBus(bus);
    }

    method SetStopsDistance(nameA: string, nameB: string, distance: int)
      requires Valid()
      modifies this
      ensures Model() == old(Model()).SetStopsDistance(nameA, nameB, distance)
      ensures Valid()
    {
      var stopA := Model().FindStop(nameA);
      var stopB := Model().FindStop(nameB);
      if stopA.None? || stopB.None? {
        return;
      }
      stopsDistance := stopsDistance[(stopA.value, stopB.value) := distance];
    }
  }
}
