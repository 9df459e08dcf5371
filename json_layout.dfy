/** How a printed Array or Dict is laid out: each element after its lead,
    and the closing bracket on its own line; and the steps of LoadArray's and
    LoadDict's loops over such a layout. */
module JsonLayout {
  import opened Wrappers
  import opened Chars
  import opened Json
  import opened JsonLoad
  import opened JsonPrint
  import opened JsonText
  import opened JsonPrintable

  /** What comes before element k: a newline before the first, a comma and a newline before the others. */
  function Lead(k: nat): string {
    if k == 0 then "\n" else ",\n"
  }

  /** The text of a container from element k on: each element after its lead,
      then a newline and the closing bracket. */
  function Tail(texts: seq<string>, k: nat, close: char): string
    requires k < |texts|
    decreases |texts| - k
  {
    (Lead(k) + texts[k]) + (if k + 1 < |texts| then Tail(texts, k + 1, close) else "\n" + [close])
  }

  /** What follows element k in a container's text. */
  function After(texts: seq<string>, k: nat, close: char): string
    requires k < |texts|
  {
    if k + 1 < |texts| then Tail(texts, k + 1, close) else "\n" + [close]
  }

  /** What follows an element starts with a comma, or with the newline before the bracket. */
  lemma AfterFirst(texts: seq<string>, k: nat, close: char)
    requires k < |texts|
    ensures |After(texts, k, close)| >= 2
    ensures After(texts, k, close)[0] == (if k + 1 < |texts| then ',' else '\n')
    ensures k + 1 == |texts| ==> After(texts, k, close)[1] == close
  {
    if k + 1 < |texts| {
      assert Tail(texts, k + 1, close) == (",\n" + texts[k + 1]) + After(texts, k + 1, close);
    }
  }

  /** The parts of a tail, regrouped: the lead and element k, then the next tail. */
  lemma Regroup(lead: string, text: string, joined: string, close: string)
    ensures lead + (text + ",\n" + joined) + "\n" + close == (lead + text) + (",\n" + joined + "\n" + close)
  {
  }

  /** The elements from k on, joined, are element k, a separator and the rest joined. */
  lemma JoinFrom(texts: seq<string>, k: nat)
    requires k + 1 < |texts|
    ensures Join(texts[k..], ",\n") == texts[k] + ",\n" + Join(texts[k + 1..], ",\n")
  {
    var rest := texts[k..];
    JoinCons(rest, ",\n");
    assert rest[1..] == texts[k + 1..];
  }

  /** The joined elements from k on, with their lead and the bracket, are the tail. */
  lemma {:induction false} JoinTail(texts: seq<string>, k: nat, close: char)
    requires k < |texts|
    ensures Lead(k) + Join(texts[k..], ",\n") + "\n" + [close] == Tail(texts, k, close)
    decreases |texts| - k
  {
    if k + 1 < |texts| {
      JoinFrom(texts, k);
      JoinTail(texts, k + 1, close);
      Regroup(Lead(k), texts[k], Join(texts[k + 1..], ",\n"), [close]);
    } else {
      assert texts[k..] == [texts[k]];
    }
  }

  /** A container's text with at least one element is its opening bracket and its tail. */
  lemma ContainerTail(texts: seq<string>, open: char, close: char)
    requires texts != []
    ensures [open] + "\n" + Join(texts, ",\n") + "\n" + [close] == [open] + Tail(texts, 0, close)
  {
    assert texts[0..] == texts;
    JoinTail(texts, 0, close);
  }

  /** Where the parts of a tail stand in the text: the lead, element k, and
      what follows it, which is the next tail or the closing line. */
  lemma TailSplit(s: string, p: nat, texts: seq<string>, k: nat, close: char)
    requires k < |texts| && TextAt(s, p, Tail(texts, k, close))
    ensures TextAt(s, p, Lead(k))
    ensures TextAt(s, p + |Lead(k)|, texts[k])
    ensures Delimited(s, p + |Lead(k)| + |texts[k]|)
    ensures TextAt(s, p + |Lead(k)| + |texts[k]|, After(texts, k, close))
    ensures p + |Tail(texts, k, close)| == p + |Lead(k)| + |texts[k]| + |After(texts, k, close)|
    ensures k + 1 < |texts| ==> After(texts, k, close) == Tail(texts, k + 1, close)
    ensures k + 1 == |texts| ==> |After(texts, k, close)| == 2
  {
    var after := After(texts, k, close);
    AfterFirst(texts, k, close);
    TextAtConcat(s, p, Lead(k) + texts[k], after);
    TextAtConcat(s, p, Lead(k), texts[k]);
    CharAt(s, p + |Lead(k)| + |texts[k]|, after, 0);
  }

  /** The elements from k on stand in s from p, each after its lead and
      followed by a character that ends a number; the closing line after the
      last one ends at `end`. */
  predicate LaidOut(s: string, p: nat, texts: seq<string>, k: nat, close: char, end: nat) {
    LayoutEnd(s, p, texts, k, close) == Some(end)
  }

  /** Where the text of the items from k on, each after its lead, and the
      closing line end, when they stand in s from p. */
  function LayoutEnd(s: string, p: nat, texts: seq<string>, k: nat, close: char): Option<nat>
    decreases |texts| - k
  {
    if k < |texts| && TextAt(s, p, Lead(k)) && TextAt(s, p + |Lead(k)|, texts[k]) && Delimited(s, p + |Lead(k)| + |texts[k]|) then
      if k + 1 < |texts| then LayoutEnd(s, p + |Lead(k)| + |texts[k]|, texts, k + 1, close)
      else if TextAt(s, p + |Lead(k)| + |texts[k]|, "\n" + [close]) then Some(p + |Lead(k)| + |texts[k]| + 2)
      else None
    else None
  }


  /** What LaidOut says of item k: its lead and text stand in s, and after
      them the items from k + 1 on, or the closing line. */
  lemma LaidOutSplit(s: string, p: nat, texts: seq<string>, k: nat, close: char, end: nat)
    requires LaidOut(s, p, texts, k, close, end)
    ensures k < |texts| && TextAt(s, p, Lead(k)) && TextAt(s, p + |Lead(k)|, texts[k])
    ensures Delimited(s, p + |Lead(k)| + |texts[k]|)
    ensures k + 1 < |texts| ==> LaidOut(s, p + |Lead(k)| + |texts[k]|, texts, k + 1, close, end)
    ensures k + 1 == |texts| ==> TextAt(s, p + |Lead(k)| + |texts[k]|, "\n" + [close])
    ensures k + 1 == |texts| ==> end == p + |Lead(k)| + |texts[k]| + 2
  {
  }

  /** Element k laid out after its lead, followed by the others laid out. */
  lemma LaidOutCons(s: string, p: nat, texts: seq<string>, k: nat, close: char, end: nat)
    requires k + 1 < |texts| && TextAt(s, p, Lead(k)) && TextAt(s, p + |Lead(k)|, texts[k])
    requires Delimited(s, p + |Lead(k)| + |texts[k]|)
    requires LaidOut(s, p + |Lead(k)| + |texts[k]|, texts, k + 1, close, end)
    ensures LaidOut(s, p, texts, k, close, end)
  {
  }

  /** The last element laid out after its lead, then the closing line. */
  lemma LaidOutLast(s: string, p: nat, texts: seq<string>, k: nat, close: char, end: nat)
    requires k + 1 == |texts| && TextAt(s, p, Lead(k)) && TextAt(s, p + |Lead(k)|, texts[k])
    requires Delimited(s, p + |Lead(k)| + |texts[k]|)
    requires TextAt(s, p + |Lead(k)| + |texts[k]|, "\n" + [close]) && end == p + |Lead(k)| + |texts[k]| + 2
    ensures LaidOut(s, p, texts, k, close, end)
  {
  }

  /** The tail from element k + 1 stands after element k. */
  lemma TailNext(s: string, p: nat, texts: seq<string>, k: nat, close: char)
    requires k + 1 < |texts| && TextAt(s, p, Tail(texts, k, close))
    ensures TextAt(s, p + |Lead(k)| + |texts[k]|, Tail(texts, k + 1, close))
    ensures p + |Tail(texts, k, close)| == p + |Lead(k)| + |texts[k]| + |Tail(texts, k + 1, close)|
  {
    TailSplit(s, p, texts, k, close);
  }

  /** A tail whose elements after k are laid out is laid out from k. */
  lemma TailCons(s: string, p: nat, texts: seq<string>, k: nat, close: char, end: nat)
    requires k + 1 < |texts| && TextAt(s, p, Tail(texts, k, close))
    requires LaidOut(s, p + |Lead(k)| + |texts[k]|, texts, k + 1, close, end)
    ensures LaidOut(s, p, texts, k, close, end)
  {
    TailSplit(s, p, texts, k, close);
    LaidOutCons(s, p, texts, k, close, end);
  }

  /** The tail from the last element is laid out. */
  lemma TailLast(s: string, p: nat, texts: seq<string>, k: nat, close: char, end: nat)
    requires k + 1 == |texts| && TextAt(s, p, Tail(texts, k, close)) && end == p + |Tail(texts, k, close)|
    ensures LaidOut(s, p, texts, k, close, end)
  {
    TailSplit(s, p, texts, k, close);
    LaidOutLast(s, p, texts, k, close, end);
  }

  /** A tail standing at p is laid out element after element, up to its end. */
  lemma {:induction false} TailLaidOut(s: string, p: nat, texts: seq<string>, k: nat, close: char, end: nat)
    requires k < |texts| && TextAt(s, p, Tail(texts, k, close)) && end == p + |Tail(texts, k, close)|
    ensures LaidOut(s, p, texts, k, close, end)
    decreases |texts| - k
  {
    if k + 1 < |texts| {
      TailNext(s, p, texts, k, close);
      TailLaidOut(s, p + |Lead(k)| + |texts[k]|, texts, k + 1, close, end);
      TailCons(s, p, texts, k, close, end);
    } else {
      TailLast(s, p, texts, k, close, end);
    }
  }
  /** A container's text: its opening character at p, then its items laid out
      up to the end of the text. */
  lemma ContainerOpened(s: string, p: nat, open: char, texts: seq<string>, close: char, text: string)
    requires texts != [] && text == [open] + Tail(texts, 0, close) && TextAt(s, p, text)
    ensures p < |s| && s[p] == open
    ensures LaidOut(s, p + 1, texts, 0, close, p + |text|)
  {
    HeadAndRest(open, Tail(texts, 0, close));
    TextAtRest(s, p, text);
    TailLaidOut(s, p + 1, texts, 0, close, p + |text|);
  }

  lemma HeadAndRest(c: char, rest: string)
    ensures ([c] + rest)[0] == c && ([c] + rest)[1..] == rest && |[c] + rest| == 1 + |rest|
  {
    assert ([c] + rest)[1..] == rest;
  }


  /** A newline and the closing bracket end the array. */
  lemma ArrayClosedAt(s: string, e: nat, acc: seq<Node>, toDouble: Conversion)
    requires TextAt(s, e, "\n]")
    ensures ArrayLoop(s, e, acc, Ok(Parsed(Array(acc), e + 2)), toDouble)
  {
    CharAt(s, e, "\n]", 0);
    CharAt(s, e, "\n]", 1);
    ArrayClosed(s, e, acc, toDouble);
  }

  /** A newline and the closing brace end the dict. */
  lemma DictClosedAt(s: string, e: nat, acc: seq<Entry>, toDouble: Conversion)
    requires TextAt(s, e, "\n}") && KeysAscending(acc)
    ensures DictLoop(s, e, acc, Ok(Parsed(Dict(acc), e + 2)), toDouble)
  {
    CharAt(s, e, "\n}", 0);
    CharAt(s, e, "\n}", 1);
    DictClosed(s, e, acc, toDouble);
  }

  /** A non-empty Array's text is its opening bracket and the tail of its items' texts. */
  lemma ArrayPrints(n: Node, format: real -> string, text: string) returns (texts: seq<string>)
    requires n.Array? && n.items != [] && PrintsAs(n, format, text)
    ensures ItemsPrintAs(n.items, format, texts) && |texts| == |n.items|
    ensures text == ['['] + Tail(texts, 0, ']')
  {
    texts := ItemTexts(n.items, format);
    ContainerTail(texts, '[', ']');
  }

  /** A non-empty Dict's text is its opening brace and the tail of its pairs' texts. */
  lemma DictPrints(n: Node, format: real -> string, text: string) returns (texts: seq<string>)
    requires n.Dict? && n.entries != [] && PrintsAs(n, format, text)
    ensures MembersPrintAs(n.entries, format, texts) && |texts| == |n.entries|
    ensures text == ['{'] + Tail(texts, 0, '}')
  {
    texts := MemberTexts(n.entries, format);
    ContainerTail(texts, '{', '}');
  }

  /** The text of an empty Array. */
  lemma EmptyArrayPrints(n: Node, format: real -> string, text: string)
    requires n.Array? && n.items == [] && PrintsAs(n, format, text)
    ensures n == Array([]) && text == "[\n\n]" && |text| == 4
  {
  }

  /** The text of an empty Dict. */
  lemma EmptyDictPrints(n: Node, format: real -> string, text: string)
    requires n.Dict? && n.entries == [] && PrintsAs(n, format, text)
    ensures n == Dict([]) && text == "{\n\n}" && |text| == 4
  {
  }

  /** The first k + 1 elements are the first k and element k. */
  lemma TakeSnoc<T>(xs: seq<T>, k: nat)
    requires k < |xs|
    ensures xs[..k + 1] == xs[..k] + [xs[k]]
  {
  }

  /** The first none of the elements are none. */
  lemma TakeNone<T>(xs: seq<T>)
    ensures xs[..0] == []
  {
  }

  /** The first |xs| elements are all of them. */
  lemma TakeAll<T>(xs: seq<T>, k: nat)
    requires k == |xs|
    ensures xs[..k] == xs
  {
  }

  /** The lead before an element is skipped: LoadNode starts at the element. */
  lemma LeadSkips(s: string, p: nat, k: nat, n: Node, next: nat, toDouble: Conversion)
    requires TextAt(s, p, Lead(k)) && p + |Lead(k)| < |s| && StartsNode(s[p + |Lead(k)|])
    requires LoadsNode(s, p + |Lead(k)|, n, next, toDouble)
    ensures Extract(s, p).Some? && Extract(s, p).value.0 != ']'
    ensures LoadsNode(s, ElementStart(Extract(s, p).value), n, next, toDouble)
  {
    CharAt(s, p, Lead(k), 0);
    if k == 0 {
      ExtractSkips(s, p, p + 1);
    } else {
      CharAt(s, p, Lead(k), 1);
      ExtractSkips(s, p, p);
      NodeAtSkipsSpace(s, p + 1, toDouble);
    }
  }

  /** One step of LoadArray's loop: the lead, then the element read by LoadNode. */
  lemma ArrayStep(s: string, p: nat, k: nat, acc: seq<Node>, n: Node, next: nat, rest: Result<Parsed<Node>, Exception>, toDouble: Conversion)
    requires TextAt(s, p, Lead(k)) && p + |Lead(k)| < |s| && StartsNode(s[p + |Lead(k)|])
    requires LoadsNode(s, p + |Lead(k)|, n, next, toDouble)
    requires ArrayLoop(s, next, acc + [n], rest, toDouble)
    ensures ArrayLoop(s, p, acc, rest, toDouble)
  {
    LeadSkips(s, p, k, n, next, toDouble);
  }

  /** The lead before a pair is skipped, and so is the key's opening quote. */
  lemma KeyLeadSkips(s: string, p: nat, k: nat)
    requires TextAt(s, p, Lead(k)) && p + |Lead(k)| < |s| && s[p + |Lead(k)|] == '"'
    ensures Extract(s, p).Some? && Extract(s, p).value.0 != '}'
    ensures KeyStart(s, Extract(s, p).value) == p + |Lead(k)| + 1
  {
    CharAt(s, p, Lead(k), 0);
    if k == 0 {
      ExtractSkips(s, p, p + 1);
    } else {
      CharAt(s, p, Lead(k), 1);
      ExtractSkips(s, p, p);
      ExtractSkips(s, p + 1, p + 2);
    }
  }

  /** The pass of LoadDict's loop from the key, started at k with the pairs acc
      read, ends with r. */
  predicate PairLoop(s: string, k: nat, acc: seq<Entry>, r: Result<Parsed<Node>, Exception>, toDouble: Conversion) {
    PairFrom(s, k, acc, toDouble) == Some(r)
  }

  /** What the pass from the key gives, started at k with the pairs acc read;
      nothing when k lies past the text or the keys of acc are out of order. */
  function PairFrom(s: string, k: nat, acc: seq<Entry>, toDouble: Conversion): Option<Result<Parsed<Node>, Exception>> {
    if k <= |s| && KeysAscending(acc) then Some(PairRest(s, k, acc, toDouble)) else None
  }

  /** The lead before pair k is skipped, and the pass goes on at the key. */
  lemma DictLead(s: string, p: nat, k: nat, acc: seq<Entry>, rest: Result<Parsed<Node>, Exception>, toDouble: Conversion)
    requires TextAt(s, p, Lead(k)) && p + |Lead(k)| < |s| && s[p + |Lead(k)|] == '"'
    requires PairLoop(s, p + |Lead(k)| + 1, acc, rest, toDouble)
    ensures DictLoop(s, p, acc, rest, toDouble)
  {
    KeyLeadSkips(s, p, k);
  }

  /** The key and the value are read, and the loop goes on after the value. */
  lemma PairStep(s: string, ks: nat, acc: seq<Entry>, key: string, keyEnd: nat, value: Node, next: nat,
                 inserted: seq<Entry>, rest: Result<Parsed<Node>, Exception>, toDouble: Conversion)
    requires ks <= |s| && KeysAscending(acc)
    requires StringAt(s, ks) == Ok(Parsed(key, keyEnd))
    requires LoadsNode(s, AfterExtract(s, keyEnd), value, next, toDouble)
    requires DictInsert(acc, key, value) == inserted && DictLoop(s, next, inserted, rest, toDouble)
    ensures PairLoop(s, ks, acc, rest, toDouble)
  {
  }

  /** Where the parts of a pair stand in the text. */
  lemma MemberSplit(s: string, qs: nat, key: string, value: string)
    requires TextAt(s, qs, MemberText(key, value))
    ensures TextAt(s, qs, Quoted(key))
    ensures TextAt(s, qs + |Quoted(key)|, ": ")
    ensures TextAt(s, qs + |Quoted(key)| + 2, value)
    ensures qs + |MemberText(key, value)| == qs + |Quoted(key)| + 2 + |value|
  {
    var ke := qs + |Quoted(key)|;
    assert MemberText(key, value) == Quoted(key) + (": " + value);
    TextAtConcat(s, qs, Quoted(key), ": " + value);
    TextAtConcat(s, ke, ": ", value);
  }

  /** The separator between a key and its value is skipped. */
  lemma ColonSkips(s: string, ke: nat, n: Node, next: nat, toDouble: Conversion)
    requires TextAt(s, ke, ": ") && LoadsNode(s, ke + 2, n, next, toDouble)
    ensures LoadsNode(s, AfterExtract(s, ke), n, next, toDouble)
  {
    CharAt(s, ke, ": ", 0);
    CharAt(s, ke, ": ", 1);
    ExtractSkips(s, ke, ke);
    NodeAtSkipsSpace(s, ke + 1, toDouble);
  }
}
