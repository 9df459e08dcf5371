/** The lexicographic order on strings, character by character by code
    point: the order of std::string's operator< and of a
    std::map<std::string, ...>, which compare characters as unsigned values.
    std::lexicographical_compare over `char`, which the stop and bus
    comparators use, compares them as `char` values, signed on common
    platforms; the two orders agree on names made of ASCII characters only.
    Also the ascending sequences that ordered containers iterate in. */
module Lexicographic {

  /** a sorts strictly before b, comparing characters by code point. */
  predicate Less(a: string, b: string)
  {
    if |a| == 0 then |b| > 0
    else if |b| == 0 then false
    else if a[0] < b[0] then true
    else if b[0] < a[0] then false
    else Less(a[1..], b[1..])
  }

  lemma {:induction false} LessIrreflexive(a: string)
    ensures !Less(a, a)
  {
    if |a| > 0 {
      LessIrreflexive(a[1..]);
    }
  }

  lemma {:induction false} LessTransitive(a: string, b: string, c: string)
    requires Less(a, b) && Less(b, c)
    ensures Less(a, c)
  {
    if |a| > 0 && |b| > 0 && |c| > 0 && a[0] == b[0] && b[0] == c[0] {
      LessTransitive(a[1..], b[1..], c[1..]);
    }
  }

  /** Two different strings are always ordered one way or the other. */
  lemma {:induction false} LessTotal(a: string, b: string)
    requires a != b
    ensures Less(a, b) || Less(b, a)
  {
    if |a| > 0 && |b| > 0 && a[0] == b[0] {
      assert a == [a[0]] + a[1..] && b == [b[0]] + b[1..];
      LessTotal(a[1..], b[1..]);
    }
  }

  lemma {:induction false} LessAsymmetric(a: string, b: string)
    requires Less(a, b)
    ensures !Less(b, a)
  {
    if |a| > 0 && |b| > 0 && a[0] == b[0] {
      LessAsymmetric(a[1..], b[1..]);
    }
  }

  /** Strictly ascending: what iterating a std::set or std::map of strings yields. */
  predicate Ascending(s: seq<string>) {
    forall i, j :: 0 <= i < j < |s| ==> Less(s[i], s[j])
  }

  /** Ascending with repeats allowed: what std::sort with operator< yields. */
  predicate NonDescending(s: seq<string>) {
    forall i, j :: 0 <= i < j < |s| ==> !Less(s[j], s[i])
  }

  predicate IsLeast(m: string, ks: set<string>) {
    m in ks && forall k :: k in ks ==> !Less(k, m)
  }

  lemma {:induction false} LeastExists(ks: set<string>)
    requires ks != {}
    ensures exists m :: IsLeast(m, ks)
  {
    var k :| k in ks;
    if ks - {k} == {} {
      assert ks == {k};
      LessIrreflexive(k);
      assert IsLeast(k, ks);
    } else {
      LeastExists(ks - {k});
      var m :| IsLeast(m, ks - {k});
      if Less(k, m) {
        forall x | x in ks ensures !Less(x, k) {
          if x == k {
            LessIrreflexive(k);
          } else if Less(x, k) {
            assert x in ks - {k};
            LessTransitive(x, k, m);
          }
        }
        LessIrreflexive(k);
        assert IsLeast(k, ks);
      } else {
        assert IsLeast(m, ks);
      }
    }
  }

  /** The keys of a std::map in its iteration order. */
  ghost function SortedKeys(ks: set<string>): (r: seq<string>)
    ensures Ascending(r)
    ensures |r| == |ks|
    ensures forall k :: k in ks <==> k in r
    decreases ks
  {
    if ks == {} then []
    else
      LeastExists(ks);
      var m :| IsLeast(m, ks);
      var rest := SortedKeys(ks - {m});
      assert forall k :: k in rest ==> Less(m, k) by {
        forall k | k in rest ensures Less(m, k) {
          LessTotal(m, k);
        }
      }
      [m] + rest
  }

  /** A set of strings has exactly one strictly ascending enumeration. */
  lemma {:induction false} AscendingUnique(a: seq<string>, b: seq<string>)
    requires Ascending(a) && Ascending(b)
    requires forall k :: k in a <==> k in b
    ensures a == b
    decreases |a|
  {
    assert a != [] ==> a[0] in b;
    assert b != [] ==> b[0] in a;
    if a != [] && b != [] {
      assert a[0] == b[0] by {
        if a[0] != b[0] {
          assert a[0] in b && b[0] in a;
          var i :| 0 <= i < |b| && b[i] == a[0];
          var j :| 0 <= j < |a| && a[j] == b[0];
          assert i > 0 && j > 0;
          assert Less(b[0], a[0]) && Less(a[0], b[0]);
          LessAsymmetric(a[0], b[0]);
        }
      }
      forall k ensures k in a[1..] <==> k in b[1..] {
        if k in a[1..] {
          var i :| 1 <= i < |a| && a[i] == k;
          assert Less(a[0], k);
          LessIrreflexive(k);
          assert k in b && k != b[0];
          var j :| 0 <= j < |b| && b[j] == k;
          assert b[1..][j - 1] == k;
        }
        if k in b[1..] {
          var i :| 1 <= i < |b| && b[i] == k;
          assert Less(b[0], k);
          LessIrreflexive(k);
          assert k in a && k != a[0];
          var j :| 0 <= j < |a| && a[j] == k;
          assert a[1..][j - 1] == k;
        }
      }
      AscendingUnique(a[1..], b[1..]);
    }
  }

  /** Inserts x after every element that does not sort after it, as a
      stable insertion step of std::sort by operator< would. */
  function InsertSorted(s: seq<string>, x: string): (r: seq<string>)
    requires NonDescending(s)
    ensures NonDescending(r)
    ensures multiset(r) == multiset(s) + multiset{x}
    decreases |s|
  {
    if s == [] then [x]
    else if Less(x, s[0]) then
      NoneBefore(s, x);
      [x] + s
    else
      var rest := InsertSorted(s[1..], x);
      HeadStaysFirst(s, x, rest);
      assert s == [s[0]] + s[1..];
      [s[0]] + rest
  }

  /** x sorting before the first element of s, nothing in s sorts before x. */
  lemma NoneBefore(s: seq<string>, x: string)
    requires NonDescending(s) && s != [] && Less(x, s[0])
    ensures forall j :: 0 <= j < |s| ==> !Less(s[j], x)
  {
    forall j | 0 <= j < |s| ensures !Less(s[j], x) {
      if Less(s[j], x) {
        LessTransitive(s[j], x, s[0]);
        if j == 0 { LessIrreflexive(s[0]); }
      }
    }
  }

  /** x not sorting before the first element of s, nothing of the rest with x
      inserted sorts before that element. */
  lemma HeadStaysFirst(s: seq<string>, x: string, rest: seq<string>)
    requires NonDescending(s) && s != [] && !Less(x, s[0])
    requires multiset(rest) == multiset(s[1..]) + multiset{x}
    ensures forall j :: 0 <= j < |rest| ==> !Less(rest[j], s[0])
  {
    forall j | 0 <= j < |rest| ensures !Less(rest[j], s[0]) {
      var k := rest[j];
      assert k in multiset(rest);
      if k in multiset(s[1..]) {
        var i :| 0 <= i < |s[1..]| && s[1..][i] == k;
        assert s[i + 1] == k;
      }
    }
  }

  /** Two non-descending sequences with the same elements start alike. */
  lemma NonDescendingHeads(a: seq<string>, b: seq<string>)
    requires NonDescending(a) && NonDescending(b) && multiset(a) == multiset(b) && a != [] && b != []
    ensures a[0] == b[0]
  {
    if a[0] != b[0] {
      assert a[0] in multiset(b) && b[0] in multiset(a);
      var i :| 0 <= i < |b| && b[i] == a[0];
      var j :| 0 <= j < |a| && a[j] == b[0];
      assert !Less(b[i], b[0]) && !Less(a[j], a[0]);
      LessTotal(a[0], b[0]);
    }
  }

  /** Sorting is determined by what is sorted: two non-descending sequences
      with the same elements, repeats counted, are equal. */
  lemma {:induction false} NonDescendingUnique(a: seq<string>, b: seq<string>)
    requires NonDescending(a) && NonDescending(b) && multiset(a) == multiset(b)
    ensures a == b
    decreases |a|
  {
    assert |a| == |multiset(a)| == |multiset(b)| == |b|;
    if a != [] {
      NonDescendingHeads(a, b);
      TailMultiset(a);
      TailMultiset(b);
      NonDescendingUnique(a[1..], b[1..]);
    }
  }

  lemma TailMultiset(a: seq<string>)
    requires a != []
    ensures multiset(a[1..]) == multiset(a) - multiset{a[0]}
  {
    assert a == [a[0]] + a[1..];
  }
}
