/** Facts about the text a JSON stream reads: where a word stands, and how
    `>>` and LoadNode act on the characters they meet. */
module JsonText {
  import opened Wrappers
  import opened Chars
  import opened Geo
  import opened Json
  import opened JsonLoad

  /** The text w stands in s from position p. */
  predicate TextAt(s: string, p: nat, w: string)
    ensures TextAt(s, p, w) ==> p + |w| <= |s|
    decreases |w|
  {
    if w == [] then p <= |s|
    else p < |s| && s[p] == w[0] && TextAt(s, p + 1, w[1..])
  }

  lemma {:induction false} CharAt(s: string, p: nat, w: string, k: nat)
    requires TextAt(s, p, w) && k < |w|
    ensures s[p + k] == w[k]
    decreases k
  {
    if k > 0 { CharAt(s, p + 1, w[1..], k - 1); }
  }

  lemma {:induction false} TextAtConcat(s: string, p: nat, a: string, b: string)
    ensures TextAt(s, p, a + b) <==> TextAt(s, p, a) && TextAt(s, p + |a|, b)
    decreases |a|
  {
    if a == [] { assert a + b == b; }
    else { assert (a + b)[1..] == a[1..] + b; TextAtConcat(s, p + 1, a[1..], b); }
  }

  /** TextAt says what the slice at p holds. */
  lemma TextAtSlice(s: string, p: nat, w: string)
    requires TextAt(s, p, w)
    ensures s[p..p + |w|] == w
  {
    forall k | 0 <= k < |w| ensures s[p..p + |w|][k] == w[k] {
      CharAt(s, p, w, k);
    }
  }

  /** The rest of the text stands where it starts. */
  lemma {:induction false} TextAtSuffix(s: string, p: nat)
    requires p <= |s|
    ensures TextAt(s, p, s[p..])
    decreases |s| - p
  {
    if p < |s| {
      assert s[p..][1..] == s[p + 1..];
      TextAtSuffix(s, p + 1);
    }
  }

  /** What LoadNode gives started at p; nothing when p lies past the text. */
  function NodeFrom(s: string, p: nat, toDouble: Conversion): Option<Result<Parsed<Node>, Exception>> {
    if p <= |s| then Some(NodeAt(s, p, toDouble)) else None
  }

  /** What LoadArray's loop gives started at p with the elements acc read;
      nothing when p lies past the text. */
  function ArrayFrom(s: string, p: nat, acc: seq<Node>, toDouble: Conversion): Option<Result<Parsed<Node>, Exception>> {
    if p <= |s| then Some(ArrayRest(s, p, acc, toDouble)) else None
  }

  /** What LoadDict's loop gives started at p with the pairs acc read; nothing
      when p lies past the text or the keys of acc are out of order. */
  function DictFrom(s: string, p: nat, acc: seq<Entry>, toDouble: Conversion): Option<Result<Parsed<Node>, Exception>> {
    if p <= |s| && KeysAscending(acc) then Some(DictRest(s, p, acc, toDouble)) else None
  }

  /** LoadNode, started at p, reads n and leaves the cursor at next. */
  predicate LoadsNode(s: string, p: nat, n: Node, next: nat, toDouble: Conversion) {
    NodeFrom(s, p, toDouble) == Some(Ok(Parsed(n, next)))
  }

  /** LoadArray's loop, started at p with the elements acc read, ends with r. */
  predicate ArrayLoop(s: string, p: nat, acc: seq<Node>, r: Result<Parsed<Node>, Exception>, toDouble: Conversion) {
    ArrayFrom(s, p, acc, toDouble) == Some(r)
  }

  /** LoadDict's loop, started at p with the pairs acc read, ends with r. */
  predicate DictLoop(s: string, p: nat, acc: seq<Entry>, r: Result<Parsed<Node>, Exception>, toDouble: Conversion) {
    DictFrom(s, p, acc, toDouble) == Some(r)
  }

  /** What may follow a number without being read as part of it. */
  predicate Delimited(s: string, q: nat) {
    q < |s| ==> !(IsDigit(s[q]) || s[q] == '.' || s[q] == 'e' || s[q] == 'E')
  }

  /** A character a node's text can start with: not white space, and not a
      separator or a closing bracket. */
  predicate StartsNode(c: char) {
    !IsSpace(c) && c != ',' && c != ']' && c != '}'
  }

  // Reading from the stream

  /** `>>` skips the white space in [p, q) and takes the character at q. */
  lemma ExtractSkips(s: string, p: nat, q: nat)
    requires p <= q < |s| && !IsSpace(s[q])
    requires forall k :: p <= k < q ==> IsSpace(s[k])
    ensures Extract(s, p) == Some((s[q], q + 1))
  {
    SpacesBefore(s, p);
  }

  /** LoadNode begins with `>>`, so white space before a node changes nothing. */
  lemma NodeAtSkipsSpace(s: string, p: nat, toDouble: Conversion)
    requires p < |s| && IsSpace(s[p])
    ensures NodeAt(s, p, toDouble) == NodeAt(s, p + 1, toDouble)
  {
    assert FirstNonSpace(s, p) == FirstNonSpace(s, p + 1);
    assert Extract(s, p) == Extract(s, p + 1);
  }

  lemma {:induction false} DigitsEndAt(s: string, a: nat, b: nat)
    requires a <= b <= |s| && forall k :: a <= k < b ==> IsDigit(s[k])
    requires b == |s| || !IsDigit(s[b])
    ensures DigitsEnd(s, a) == b
    decreases b - a
  {
    if a < b {
      DigitsEndAt(s, a + 1, b);
    }
  }

  // After the white space in [p, q), LoadNode dispatches on the character at q.

  lemma NodeAtString(s: string, p: nat, q: nat, t: string, next: nat, toDouble: Conversion)
    requires p <= q < |s| && s[q] == '"'
    requires forall k :: p <= k < q ==> IsSpace(s[k])
    requires StringAt(s, q + 1) == Ok(Parsed(t, next))
    ensures NodeAt(s, p, toDouble) == Ok(Parsed(String(t), next))
  {
    ExtractSkips(s, p, q);
  }

  lemma NodeAtLiteral(s: string, p: nat, q: nat, toDouble: Conversion)
    requires p <= q < |s| && (s[q] == 'n' || s[q] == 't' || s[q] == 'f')
    requires forall k :: p <= k < q ==> IsSpace(s[k])
    ensures NodeAt(s, p, toDouble) == NullOrBoolAt(s, q)
  {
    ExtractSkips(s, p, q);
  }

  /** Once LoadNode has taken the character at q, it goes on as LoadNumber from q. */
  predicate ReadsNumber(s: string, q: nat, toDouble: Conversion) {
    q < |s| && NodeAfter(s, (s[q], q + 1), toDouble) == NumberAt(s, q, toDouble)
  }

  /** A minus sign or a digit starts a number. */
  lemma NodeAfterNumber(s: string, q: nat, toDouble: Conversion)
    requires q < |s| && (s[q] == '-' || IsDigit(s[q]))
    ensures ReadsNumber(s, q, toDouble)
  {
  }

  lemma NodeAtNumber(s: string, p: nat, q: nat, toDouble: Conversion)
    requires p <= q < |s| && (s[q] == '-' || IsDigit(s[q]))
    requires forall k :: p <= k < q ==> IsSpace(s[k])
    ensures NodeAt(s, p, toDouble) == NumberAt(s, q, toDouble)
  {
    ExtractSkips(s, p, q);
    NodeAfterNumber(s, q, toDouble);
  }


  /** Once LoadNode has taken the character at q, it goes on as LoadArray's loop. */
  predicate ReadsArray(s: string, q: nat, toDouble: Conversion) {
    q < |s| && NodeAfter(s, (s[q], q + 1), toDouble) == ArrayRest(s, q + 1, [], toDouble)
  }

  /** Once LoadNode has taken the character at q, it goes on as LoadDict's loop. */
  predicate ReadsDict(s: string, q: nat, toDouble: Conversion) {
    q < |s| && NodeAfter(s, (s[q], q + 1), toDouble) == DictRest(s, q + 1, [], toDouble)
  }

  lemma NodeAfterArray(s: string, q: nat, toDouble: Conversion)
    requires q < |s| && s[q] == '['
    ensures ReadsArray(s, q, toDouble)
  {
  }

  lemma NodeAfterDict(s: string, q: nat, toDouble: Conversion)
    requires q < |s| && s[q] == '{'
    ensures ReadsDict(s, q, toDouble)
  {
  }

  /** An opening bracket at p, then LoadArray's loop reading n: LoadNode reads n. */
  lemma ArrayNodeAt(s: string, p: nat, n: Node, next: nat, toDouble: Conversion)
    requires p < |s| && s[p] == '[' && ArrayLoop(s, p + 1, [], Ok(Parsed(n, next)), toDouble)
    ensures LoadsNode(s, p, n, next, toDouble)
  {
    ExtractSkips(s, p, p);
    NodeAfterArray(s, p, toDouble);
  }

  /** An opening brace at p, then LoadDict's loop reading n: LoadNode reads n. */
  lemma DictNodeAt(s: string, p: nat, n: Node, next: nat, toDouble: Conversion)
    requires p < |s| && s[p] == '{' && DictLoop(s, p + 1, [], Ok(Parsed(n, next)), toDouble)
    ensures LoadsNode(s, p, n, next, toDouble)
  {
    ExtractSkips(s, p, p);
    NodeAfterDict(s, p, toDouble);
  }

  /** The white space in [p, q) and the closing bracket at q end an array. */
  lemma CloseArray(s: string, p: nat, q: nat, acc: seq<Node>, toDouble: Conversion)
    requires p <= q < |s| && s[q] == ']'
    requires forall k :: p <= k < q ==> IsSpace(s[k])
    ensures ArrayLoop(s, p, acc, Ok(Parsed(Array(acc), q + 1)), toDouble)
  {
    ExtractSkips(s, p, q);
  }

  /** The white space in [p, q) and the closing brace at q end a dict. */
  lemma CloseDict(s: string, p: nat, q: nat, acc: seq<Entry>, toDouble: Conversion)
    requires p <= q < |s| && s[q] == '}' && KeysAscending(acc)
    requires forall k :: p <= k < q ==> IsSpace(s[k])
    ensures DictLoop(s, p, acc, Ok(Parsed(Dict(acc), q + 1)), toDouble)
  {
    ExtractSkips(s, p, q);
  }

  /** A text stands at p: its first character at p, and the rest after it. */
  lemma TextAtRest(s: string, p: nat, w: string)
    requires TextAt(s, p, w) && w != []
    ensures p < |s| && s[p] == w[0] && TextAt(s, p + 1, w[1..])
  {
  }

  /** A newline and the closing bracket end an array. */
  lemma ArrayClosed(s: string, e: nat, acc: seq<Node>, toDouble: Conversion)
    requires e + 1 < |s| && s[e] == '\n' && s[e + 1] == ']'
    ensures ArrayLoop(s, e, acc, Ok(Parsed(Array(acc), e + 2)), toDouble)
  {
    CloseArray(s, e, e + 1, acc, toDouble);
  }

  /** A newline and the closing brace end a dict. */
  lemma DictClosed(s: string, e: nat, acc: seq<Entry>, toDouble: Conversion)
    requires e + 1 < |s| && s[e] == '\n' && s[e + 1] == '}' && KeysAscending(acc)
    ensures DictLoop(s, e, acc, Ok(Parsed(Dict(acc), e + 2)), toDouble)
  {
    CloseDict(s, e, e + 1, acc, toDouble);
  }

  /** The text of an empty array loads as one. */
  lemma EmptyArrayAt(s: string, p: nat, toDouble: Conversion)
    requires TextAt(s, p, "[\n\n]")
    ensures LoadsNode(s, p, Array([]), p + 4, toDouble)
  {
    CharAt(s, p, "[\n\n]", 0);
    CharAt(s, p, "[\n\n]", 1);
    CharAt(s, p, "[\n\n]", 2);
    CharAt(s, p, "[\n\n]", 3);
    CloseArray(s, p + 1, p + 3, [], toDouble);
    ArrayNodeAt(s, p, Array([]), p + 4, toDouble);
  }

  /** The text of an empty dict loads as one. */
  lemma EmptyDictAt(s: string, p: nat, toDouble: Conversion)
    requires TextAt(s, p, "{\n\n}")
    ensures LoadsNode(s, p, Dict([]), p + 4, toDouble)
  {
    CharAt(s, p, "{\n\n}", 0);
    CharAt(s, p, "{\n\n}", 1);
    CharAt(s, p, "{\n\n}", 2);
    CharAt(s, p, "{\n\n}", 3);
    CloseDict(s, p + 1, p + 3, [], toDouble);
    DictNodeAt(s, p, Dict([]), p + 4, toDouble);
  }
}
