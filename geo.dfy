/** geo.h: geographic coordinates and the in-place whitespace trimming helpers.
    ComputeDistance (great-circle trigonometry) is not part of this model. */
module Geo {
  import opened Chars

  /** tg::detail::Coordinates; the two doubles are modelled as reals. */
  datatype Coordinates = Coordinates(lat: real, lng: real)

  /** std::find_if(from position i, !isspace): the first non-space position at
      or after i, or |s| when there is none. */
  function FirstNonSpace(s: string, i: nat): (j: nat)
    requires i <= |s|
    ensures i <= j <= |s|
    ensures j == |s| || !IsSpace(s[j])
    decreases |s| - i
  {
    if i < |s| && IsSpace(s[i]) then FirstNonSpace(s, i + 1) else i
  }

  /** std::find_if over reverse iterators from position j, taken back to a
      forward position with base(): just past the last non-space character
      before j, or 0 when there is none. */
  function NonSpaceEnd(s: string, j: nat): (i: nat)
    requires j <= |s|
    ensures i <= j
    ensures i == 0 || !IsSpace(s[i - 1])
    decreases j
  {
    if j > 0 && IsSpace(s[j - 1]) then NonSpaceEnd(s, j - 1) else j
  }

  /** Everything FirstNonSpace passes over is white space. */
  lemma {:induction false} SpacesBefore(s: string, i: nat)
    requires i <= |s|
    ensures forall k :: i <= k < FirstNonSpace(s, i) ==> IsSpace(s[k])
    decreases |s| - i
  {
    if i < |s| && IsSpace(s[i]) { SpacesBefore(s, i + 1); }
  }

  /** Everything NonSpaceEnd passes over is white space. */
  lemma {:induction false} SpacesAfter(s: string, j: nat)
    requires j <= |s|
    ensures forall k :: NonSpaceEnd(s, j) <= k < j ==> IsSpace(s[k])
    decreases j
  {
    if j > 0 && IsSpace(s[j - 1]) { SpacesAfter(s, j - 1); }
  }

  /** The result of ltrim: everything before the first non-space character erased. */
  function LTrimmed(s: string): string
  {
    s[FirstNonSpace(s, 0)..]
  }

  /** The result of rtrim: everything after the last non-space character erased. */
  function RTrimmed(s: string): string
  {
    s[..NonSpaceEnd(s, |s|)]
  }

  /** The result of trim: ltrim followed by rtrim. */
  function Trimmed(s: string): string
  {
    RTrimmed(LTrimmed(s))
  }

  /** ltrim: erases everything before the first non-space character. */
  method LTrim(s: string) returns (r: string)
    ensures r == LTrimmed(s)
  {
    var i := 0;
    while i < |s| && IsSpace(s[i])
      invariant 0 <= i <= |s|
      invariant FirstNonSpace(s, i) == FirstNonSpace(s, 0)
    {
      i := i + 1;
    }
    r := s[i..];
  }

  /** rtrim: erases everything after the last non-space character. */
  method RTrim(s: string) returns (r: string)
    ensures r == RTrimmed(s)
  {
    var j := |s|;
    while j > 0 && IsSpace(s[j - 1])
      invariant 0 <= j <= |s|
      invariant NonSpaceEnd(s, j) == NonSpaceEnd(s, |s|)
    {
      j := j - 1;
    }
    r := s[..j];
  }

  method Trim(s: string) returns (r: string)
    ensures r == Trimmed(s)
  {
    r := LTrim(s);
    r := RTrim(r);
  }

  /** Scanning back inside a suffix that starts with a non-space character
      stops where the scan over the whole string stops. */
  lemma {:induction false} NonSpaceEndOfSuffix(s: string, a: nat, j: nat)
    requires a < |s| && !IsSpace(s[a]) && j <= |s| - a
    ensures NonSpaceEnd(s[a..], j) + a == (if j == 0 then a else NonSpaceEnd(s, j + a))
    decreases j
  {
    if j > 0 && IsSpace(s[a..][j - 1]) {
      assert s[a..][j - 1] == s[j - 1 + a];
      NonSpaceEndOfSuffix(s, a, j - 1);
    } else if j > 0 {
      assert s[a..][j - 1] == s[j - 1 + a];
    }
  }

  /** The first n characters of the suffix from a. */
  lemma PrefixOfSuffix(s: string, a: nat, n: nat)
    requires a + n <= |s|
    ensures s[a..][..n] == s[a..a + n]
  {
  }

  /** Scanning back over a suffix that starts with a non-space character. */
  lemma NonSpaceEndSuffix(s: string, a: nat)
    requires a < |s| && !IsSpace(s[a])
    ensures NonSpaceEnd(s[a..], |s[a..]|) + a == NonSpaceEnd(s, |s|)
  {
    NonSpaceEndOfSuffix(s, a, |s| - a);
  }

  /** Scanning back from the end stops past any non-space character. */
  lemma NonSpaceEndPast(s: string, a: nat)
    requires a < |s| && !IsSpace(s[a])
    ensures a < NonSpaceEnd(s, |s|)
  {
    SpacesAfter(s, |s|);
  }

  /** With a non-space character in s, trim keeps the slice from the first
      non-space character to just past the last one. */
  lemma TrimmedSlice(s: string)
    requires FirstNonSpace(s, 0) < |s|
    ensures FirstNonSpace(s, 0) < NonSpaceEnd(s, |s|)
    ensures Trimmed(s) == s[FirstNonSpace(s, 0)..NonSpaceEnd(s, |s|)]
  {
    var a := FirstNonSpace(s, 0);
    NonSpaceEndSuffix(s, a);
    NonSpaceEndPast(s, a);
    PrefixOfSuffix(s, a, NonSpaceEnd(s, |s|) - a);
  }

  /** trim keeps exactly the characters from the first non-space one to the
      last non-space one, and nothing of an all-space string. */
  lemma TrimmedIsInnerPart(s: string)
    ensures FirstNonSpace(s, 0) == |s| ==> Trimmed(s) == []
    ensures FirstNonSpace(s, 0) < |s| ==>
      FirstNonSpace(s, 0) < NonSpaceEnd(s, |s|) && Trimmed(s) == s[FirstNonSpace(s, 0)..NonSpaceEnd(s, |s|)]
    ensures Trimmed(s) == [] || (!IsSpace(Trimmed(s)[0]) && !IsSpace(Trimmed(s)[|Trimmed(s)| - 1]))
  {
    var a := FirstNonSpace(s, 0);
    if a < |s| {
      TrimmedSlice(s);
      var e := NonSpaceEnd(s, |s|);
      assert Trimmed(s)[0] == s[a];
      assert Trimmed(s)[|Trimmed(s)| - 1] == s[e - 1];
    } else {
      assert LTrimmed(s) == [];
    }
  }

  /** A string with no whitespace at either end is left unchanged. */
  lemma TrimmedUnchanged(s: string)
    requires s == [] || (!IsSpace(s[0]) && !IsSpace(s[|s| - 1]))
    ensures Trimmed(s) == s
  {
    assert LTrimmed(s) == s;
  }

  /** An all-whitespace string trims to the empty string. */
  lemma TrimmedAllSpace(s: string)
    requires forall i :: 0 <= i < |s| ==> IsSpace(s[i])
    ensures Trimmed(s) == []
  {
    TrimmedIsInnerPart(s);
  }

  /** Trimming twice is the same as trimming once. */
  lemma TrimmedIdempotent(s: string)
    ensures Trimmed(Trimmed(s)) == Trimmed(s)
  {
    TrimmedIsInnerPart(s);
    TrimmedUnchanged(Trimmed(s));
  }
}
