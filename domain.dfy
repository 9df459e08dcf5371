/** domain.h: stops, buses, route statistics and the name-ordered sets of them. */
module Domain {
  import opened Geo
  import opened Lexicographic

  /** A stop: its name and its (mutable) coordinates. */
  datatype Stop = Stop(name: string, coordinates: Coordinates)

  /** A `const Stop*`: the position of the stop in the catalogue's list of stops. */
  type StopRef = nat

  /** A bus: its name, the stops it visits in order, and whether it is circular. */
  datatype Bus = Bus(name: string, stops: seq<StopRef>, isCircle: bool)

  /** The double `dividend / divisor`, kept unevaluated: a zero divisor gives an
      IEEE infinity or NaN, which the reals do not have. */
  datatype Quotient = Quotient(dividend: real, divisor: real)

  /** BusStatistics: three counts and the curvature ratio. */
  datatype BusStatistics = BusStatistics(stops: int, uniqueStops: int, routeLength: int, curvature: Quotient)

  function StopName(s: Stop): string { s.name }
  function BusName(b: Bus): string { b.name }

  /** StopComparator: lexicographic comparison of the names. */
  predicate StopComparator(lhs: Stop, rhs: Stop) {
    Less(lhs.name, rhs.name)
  }

  /** BusComparator: lexicographic comparison of the names. */
  predicate BusComparator(lhs: Bus, rhs: Bus) {
    Less(lhs.name, rhs.name)
  }

  /** The comparator is a strict order whose equivalence classes are the names:
      two stops are equivalent for the set exactly when their names are equal. */
  lemma StopComparatorIsStrictByName(a: Stop, b: Stop, c: Stop)
    ensures !StopComparator(a, a)
    ensures StopComparator(a, b) && StopComparator(b, c) ==> StopComparator(a, c)
    ensures (!StopComparator(a, b) && !StopComparator(b, a)) <==> a.name == b.name
  {
    LessIrreflexive(a.name);
    if StopComparator(a, b) && StopComparator(b, c) {
      LessTransitive(a.name, b.name, c.name);
    }
    if a.name != b.name {
      LessTotal(a.name, b.name);
    }
  }

  lemma BusComparatorIsStrictByName(a: Bus, b: Bus, c: Bus)
    ensures !BusComparator(a, a)
    ensures BusComparator(a, b) && BusComparator(b, c) ==> BusComparator(a, c)
    ensures (!BusComparator(a, b) && !BusComparator(b, a)) <==> a.name == b.name
  {
    LessIrreflexive(a.name);
    if BusComparator(a, b) && BusComparator(b, c) {
      LessTransitive(a.name, b.name, c.name);
    }
    if a.name != b.name {
      LessTotal(a.name, b.name);
    }
  }

  /** A Stops or Buses set. Its comparator makes two elements equivalent
      exactly when their names are equal, so the set holds at most one element
      per name: it is a map from each name to the element holding it. */
  type NameSet<T> = map<string, T>

  /** std::set::insert: nothing happens when an element of the same name is
      already there; otherwise x becomes the element for its name. */
  function Insert<T>(s: NameSet<T>, x: T, name: T -> string): (r: NameSet<T>)
    ensures r.Keys == s.Keys + {name(x)}
    ensures forall n :: n in s ==> r[n] == s[n]
    ensures name(x) !in s ==> r[name(x)] == x
  {
    if name(x) in s then s else s[name(x) := x]
  }

  /** The iteration order of the set: by ascending name. */
  ghost function InOrder<T>(s: NameSet<T>): (r: seq<T>)
    ensures |r| == |s|
    ensures forall i :: 0 <= i < |r| ==> SortedKeys(s.Keys)[i] in s && r[i] == s[SortedKeys(s.Keys)[i]]
  {
    var ks := SortedKeys(s.Keys);
    assert |ks| == |s.Keys| == |s|;
    seq(|ks|, i requires 0 <= i < |ks| => s[ks[i]])
  }

  /** Iterating a set visits each element once, in strictly ascending name order. */
  lemma InOrderAscending<T>(s: NameSet<T>, name: T -> string)
    requires forall n :: n in s ==> name(s[n]) == n
    ensures forall i, j :: 0 <= i < j < |InOrder(s)| ==> Less(name(InOrder(s)[i]), name(InOrder(s)[j]))
    ensures forall n :: n in s ==> s[n] in InOrder(s)
  {
    var ks, r := SortedKeys(s.Keys), InOrder(s);
    forall n | n in s ensures s[n] in r {
      var i :| 0 <= i < |ks| && ks[i] == n;
      assert r[i] == s[n];
    }
  }
}
