/** Loading what NodePrint writes gives the node back: the round trip of the
    JSON codec, for nodes that hold no double (how a double is written is not
    modelled) and whose dicts keep their keys in order, as a std::map does.
    Also the counterexample for dict keys printed without escaping. */
module JsonRoundTrip {
  import opened Wrappers
  import opened Chars
  import opened Numerals
  import opened Geo
  import opened Json
  import opened JsonLoad
  import opened JsonPrint
  import opened Lexicographic
  import opened JsonText
  import opened JsonScalarRoundTrip
  import opened JsonLayout
  import opened JsonPrintable

  /** Any printable node loads back from its text, ending just after it. */
  lemma {:induction false} NodeRoundTrip(s: string, p: nat, n: Node, format: real -> string, text: string, toDouble: Conversion)
    requires Printable(n) && PrintsAs(n, format, text) && TextAt(s, p, text) && Delimited(s, p + |text|)
    ensures LoadsNode(s, p, n, p + |text|, toDouble)
    decreases n, 2
  {
    if n.Null? || n.Bool? {
      LiteralNodeRoundTrip(s, p, n, format, text, toDouble);
    } else if n.Int? {
      IntNodeRoundTrip(s, p, n, format, text, toDouble);
    } else if n.String? {
      StringNodeRoundTrip(s, p, n, format, text, toDouble);
    } else if n.Array? {
      ArrayRoundTrip(s, p, n, format, text, toDouble);
    } else if n.Dict? {
      DictRoundTrip(s, p, n, format, text, toDouble);
    }
  }

  /** An Array's text loads back as the Array. */
  lemma {:induction false} ArrayRoundTrip(s: string, p: nat, n: Node, format: real -> string, text: string, toDouble: Conversion)
    requires n.Array? && Printable(n) && PrintsAs(n, format, text) && TextAt(s, p, text)
    ensures LoadsNode(s, p, n, p + |text|, toDouble)
    decreases n, 1
  {
    if n.items == [] {
      EmptyArrayPrints(n, format, text);
      EmptyArrayAt(s, p, toDouble);
    } else {
      ItemsArrayRoundTrip(s, p, n, format, text, toDouble);
    }
  }

  /** The same, for an Array with elements. */
  lemma {:induction false} ItemsArrayRoundTrip(s: string, p: nat, n: Node, format: real -> string, text: string, toDouble: Conversion)
    requires n.Array? && n.items != [] && Printable(n) && PrintsAs(n, format, text) && TextAt(s, p, text)
    ensures LoadsNode(s, p, n, p + |text|, toDouble)
    decreases n, 0, |n.items| + 1
  {
    var texts := ArrayPrints(n, format, text);
    ContainerOpened(s, p, '[', texts, ']', text);
    TakeNone(n.items);
    ItemsRoundTrip(s, p + 1, n, 0, format, texts, [], p + |text|, toDouble);
    ArrayNodeAt(s, p, n, p + |text|, toDouble);
  }

  /** An element of an array loads back, LoadNode starting on its first character. */
  lemma {:induction false} ItemRoundTrip(s: string, p: nat, n: Node, format: real -> string, text: string, toDouble: Conversion)
    requires Printable(n) && PrintsAs(n, format, text) && TextAt(s, p, text) && Delimited(s, p + |text|)
    ensures p < |s| && StartsNode(s[p])
    ensures LoadsNode(s, p, n, p + |text|, toDouble)
    decreases n, 3
  {
    NodeRoundTrip(s, p, n, format, text, toDouble);
    PrintedStarts(s, p, n, format, text);
  }

  /** One pass of LoadArray's loop over element k, n, and its lead: what the
      loop gives from there on, `rest`, it gives from before the lead. */
  lemma {:induction false} ItemStep(s: string, p: nat, k: nat, n: Node, format: real -> string, text: string,
                                    acc: seq<Node>, rest: Result<Parsed<Node>, Exception>, toDouble: Conversion)
    requires Printable(n) && PrintsAs(n, format, text)
    requires TextAt(s, p, Lead(k)) && TextAt(s, p + |Lead(k)|, text) && Delimited(s, p + |Lead(k)| + |text|)
    requires ArrayLoop(s, p + |Lead(k)| + |text|, acc + [n], rest, toDouble)
    ensures ArrayLoop(s, p, acc, rest, toDouble)
    decreases n, 4
  {
    ItemRoundTrip(s, p + |Lead(k)|, n, format, text, toDouble);
    ArrayStep(s, p, k, acc, n, p + |Lead(k)| + |text|, rest, toDouble);
  }

  /** The loop of LoadArray, with the elements before k read into acc, reads
      the elements from k on and the closing bracket, which ends the array's
      text at `end`. */
  lemma {:induction false} ItemsRoundTrip(s: string, p: nat, parent: Node, k: nat, format: real -> string,
                                          texts: seq<string>, acc: seq<Node>, end: nat, toDouble: Conversion)
    requires parent.Array? && Printable(parent) && k < |parent.items| && acc == parent.items[..k]
    requires ItemsPrintAs(parent.items, format, texts) && LaidOut(s, p, texts, k, ']', end)
    ensures ArrayLoop(s, p, acc, Ok(Parsed(parent, end)), toDouble)
    decreases parent, 0, |parent.items| - k, 1
  {
    var items := parent.items;
    LaidOutSplit(s, p, texts, k, ']', end);
    ChildPrintable(parent, k);
    ItemPrints(items, format, texts, k);
    ItemsAfter(s, p + |Lead(k)| + |texts[k]|, parent, k, format, texts, acc, end, toDouble);
    ItemStep(s, p, k, items[k], format, texts[k], acc, Ok(Parsed(parent, end)), toDouble);
  }

  /** After element k, the loop reads the elements after it and the closing
      bracket. */
  lemma {:induction false} ItemsAfter(s: string, next: nat, parent: Node, k: nat, format: real -> string,
                                      texts: seq<string>, acc: seq<Node>, end: nat, toDouble: Conversion)
    requires parent.Array? && Printable(parent) && k < |parent.items| && acc == parent.items[..k]
    requires ItemsPrintAs(parent.items, format, texts)
    requires k + 1 < |parent.items| ==> LaidOut(s, next, texts, k + 1, ']', end)
    requires k + 1 == |parent.items| ==> TextAt(s, next, "\n]") && end == next + 2
    ensures ArrayLoop(s, next, acc + [parent.items[k]], Ok(Parsed(parent, end)), toDouble)
    decreases parent, 0, |parent.items| - k, 0
  {
    TakeSnoc(parent.items, k);
    if k + 1 < |parent.items| {
      ItemsRoundTrip(s, next, parent, k + 1, format, texts, acc + [parent.items[k]], end, toDouble);
    } else {
      TakeAll(parent.items, k + 1);
      ArrayClosedAt(s, next, acc + [parent.items[k]], toDouble);
    }
  }

  /** A Dict's text loads back as the Dict. */
  lemma {:induction false} DictRoundTrip(s: string, p: nat, n: Node, format: real -> string, text: string, toDouble: Conversion)
    requires n.Dict? && Printable(n) && PrintsAs(n, format, text) && TextAt(s, p, text)
    ensures LoadsNode(s, p, n, p + |text|, toDouble)
    decreases n, 1
  {
    if n.entries == [] {
      EmptyDictPrints(n, format, text);
      EmptyDictAt(s, p, toDouble);
    } else {
      MembersDictRoundTrip(s, p, n, format, text, toDouble);
    }
  }

  /** The same, for a Dict with pairs. */
  lemma {:induction false} MembersDictRoundTrip(s: string, p: nat, n: Node, format: real -> string, text: string, toDouble: Conversion)
    requires n.Dict? && n.entries != [] && Printable(n) && PrintsAs(n, format, text) && TextAt(s, p, text)
    ensures LoadsNode(s, p, n, p + |text|, toDouble)
    decreases n, 0, |n.entries| + 1
  {
    var texts := DictPrints(n, format, text);
    ContainerOpened(s, p, '{', texts, '}', text);
    TakeNone(n.entries);
    MembersRoundTrip(s, p + 1, n, 0, format, texts, [], p + |text|, toDouble);
    DictNodeAt(s, p, n, p + |text|, toDouble);
  }

  /** The separator and the value of a pair load back as the value. */
  lemma {:induction false} MemberValue(s: string, ke: nat, n: Node, format: real -> string, text: string, toDouble: Conversion)
    requires Printable(n) && PrintsAs(n, format, text)
    requires TextAt(s, ke, ": ") && TextAt(s, ke + 2, text) && Delimited(s, ke + 2 + |text|)
    ensures LoadsNode(s, AfterExtract(s, ke), n, ke + 2 + |text|, toDouble)
    decreases n, 3
  {
    NodeRoundTrip(s, ke + 2, n, format, text, toDouble);
    ColonSkips(s, ke, n, ke + 2 + |text|, toDouble);
  }

  /** A pair loads back as its key and value, and the cursor ends after the value. */
  lemma {:induction false} MemberRoundTrip(s: string, qs: nat, e: Entry, format: real -> string, text: string, toDouble: Conversion)
    requires Printable(e.value) && MemberPrintsAs(e, format, text)
    requires TextAt(s, qs, text) && Delimited(s, qs + |text|)
    ensures qs < |s| && s[qs] == '"'
    ensures StringAt(s, qs + 1) == Ok(Parsed(e.key, qs + |Quoted(e.key)|))
    ensures LoadsNode(s, AfterExtract(s, qs + |Quoted(e.key)|), e.value, qs + |text|, toDouble)
    decreases e.value, 4
  {
    var value := MemberParts(e, format, text);
    MemberSplit(s, qs, e.key, value);
    QuotedRoundTrip(s, qs, e.key);
    MemberValue(s, qs + |Quoted(e.key)|, e.value, format, value, toDouble);
  }

  /** The keys before pair k precede its key. */
  lemma KeysBefore(entries: seq<Entry>, k: nat, acc: seq<Entry>)
    requires KeysAscending(entries) && k < |entries| && acc == entries[..k]
    ensures KeysAscending(acc)
    ensures forall i :: 0 <= i < |acc| ==> Less(acc[i].key, entries[k].key)
  {
  }

  /** Inserting pair k into the pairs before it appends it. */
  lemma InsertsLast(entries: seq<Entry>, k: nat, acc: seq<Entry>)
    requires KeysAscending(entries) && k < |entries| && acc == entries[..k]
    ensures KeysAscending(acc)
    ensures DictInsert(acc, entries[k].key, entries[k].value) == acc + [entries[k]]
  {
    KeysBefore(entries, k, acc);
    DictInsertLast(acc, entries[k].key, entries[k].value);
  }

  /** A pair is read from just after its opening quote, and the loop goes on after it. */
  lemma {:induction false} MemberPair(s: string, qs: nat, e: Entry, format: real -> string, text: string,
                                      acc: seq<Entry>, rest: Result<Parsed<Node>, Exception>, toDouble: Conversion)
    requires Printable(e.value) && MemberPrintsAs(e, format, text)
    requires KeysAscending(acc) && DictInsert(acc, e.key, e.value) == acc + [e]
    requires TextAt(s, qs, text) && Delimited(s, qs + |text|)
    requires DictLoop(s, qs + |text|, acc + [e], rest, toDouble)
    ensures qs < |s| && s[qs] == '"'
    ensures PairLoop(s, qs + 1, acc, rest, toDouble)
    decreases e.value, 5
  {
    MemberRoundTrip(s, qs, e, format, text, toDouble);
    PairStep(s, qs + 1, acc, e.key, qs + |Quoted(e.key)|, e.value, qs + |text|, acc + [e], rest, toDouble);
  }

  /** One pass of LoadDict's loop over pair k, e, and its lead: what the loop
      gives from there on, `rest`, it gives from before the lead. */
  lemma {:induction false} MemberStep(s: string, p: nat, k: nat, e: Entry, format: real -> string, text: string,
                                      acc: seq<Entry>, rest: Result<Parsed<Node>, Exception>, toDouble: Conversion)
    requires Printable(e.value) && MemberPrintsAs(e, format, text)
    requires KeysAscending(acc) && DictInsert(acc, e.key, e.value) == acc + [e]
    requires TextAt(s, p, Lead(k)) && TextAt(s, p + |Lead(k)|, text) && Delimited(s, p + |Lead(k)| + |text|)
    requires DictLoop(s, p + |Lead(k)| + |text|, acc + [e], rest, toDouble)
    ensures DictLoop(s, p, acc, rest, toDouble)
    decreases e.value, 6
  {
    MemberPair(s, p + |Lead(k)|, e, format, text, acc, rest, toDouble);
    DictLead(s, p, k, acc, rest, toDouble);
  }

  /** The loop of LoadDict, with the pairs before k read into acc, reads the
      pairs from k on and the closing brace, which ends the dict's text at
      `end`. */
  lemma {:induction false} MembersRoundTrip(s: string, p: nat, parent: Node, k: nat, format: real -> string,
                                            texts: seq<string>, acc: seq<Entry>, end: nat, toDouble: Conversion)
    requires parent.Dict? && Printable(parent) && k < |parent.entries| && acc == parent.entries[..k]
    requires MembersPrintAs(parent.entries, format, texts) && LaidOut(s, p, texts, k, '}', end)
    ensures DictLoop(s, p, acc, Ok(Parsed(parent, end)), toDouble)
    decreases parent, 0, |parent.entries| - k, 1
  {
    var entries := parent.entries;
    LaidOutSplit(s, p, texts, k, '}', end);
    ChildPrintable(parent, k);
    InsertsLast(entries, k, acc);
    MemberPrints(entries, format, texts, k);
    MembersAfter(s, p + |Lead(k)| + |texts[k]|, parent, k, format, texts, acc, end, toDouble);
    MemberStep(s, p, k, entries[k], format, texts[k], acc, Ok(Parsed(parent, end)), toDouble);
  }

  /** After pair k, the loop reads the pairs after it and the closing brace. */
  lemma {:induction false} MembersAfter(s: string, next: nat, parent: Node, k: nat, format: real -> string,
                                        texts: seq<string>, acc: seq<Entry>, end: nat, toDouble: Conversion)
    requires parent.Dict? && Printable(parent) && k < |parent.entries| && acc == parent.entries[..k]
    requires MembersPrintAs(parent.entries, format, texts)
    requires k + 1 < |parent.entries| ==> LaidOut(s, next, texts, k + 1, '}', end)
    requires k + 1 == |parent.entries| ==> TextAt(s, next, "\n}") && end == next + 2
    ensures DictLoop(s, next, acc + [parent.entries[k]], Ok(Parsed(parent, end)), toDouble)
    decreases parent, 0, |parent.entries| - k, 0
  {
    TakeSnoc(parent.entries, k);
    if k + 1 < |parent.entries| {
      MembersRoundTrip(s, next, parent, k + 1, format, texts, acc + [parent.entries[k]], end, toDouble);
    } else {
      TakeAll(parent.entries, k + 1);
      DictClosedAt(s, next, acc + [parent.entries[k]], toDouble);
    }
  }

  /** json::Load of what json::Print writes gives the document back. */
  lemma LoadPrintRoundTrip(d: Document, format: real -> string, toDouble: Conversion)
    requires Printable(d.root)
    ensures LoadText(Printed(d.root, format), toDouble) == Ok(d)
  {
    var s := Printed(d.root, format);
    TextAtSuffix(s, 0);
    assert s[0..] == s;
    NodeRoundTrip(s, 0, d.root, format, s, toDouble);
  }

  /** A printed string loads back as the same string. */
  lemma StringLoadPrint(t: string, format: real -> string, toDouble: Conversion)
    ensures LoadText(Quoted(t), toDouble) == Ok(Document(String(t)))
  {
    LoadPrintRoundTrip(Document(String(t)), format, toDouble);
  }

  // Dict keys as the source prints them

  /** One pair of a Dict as the source writes it: the key between quotes, not escaped. */
  function MemberTextAsWritten(key: string, value: string): string {
    "\"" + key + "\": " + value
  }

  /** A key with no quote, backslash or newline is written the same either
      way, so the correction changes nothing for such keys. */
  lemma PlainKeyAsWritten(key: string, value: string)
    requires forall k :: 0 <= k < |key| ==> key[k] != '"' && key[k] != '\\' && key[k] != '\n'
    ensures MemberTextAsWritten(key, value) == MemberText(key, value)
  {
    EscapePlain(key);
  }

  /** Escaping leaves a text with no quote, backslash or newline unchanged. */
  lemma {:induction false} EscapePlain(t: string)
    requires forall k :: 0 <= k < |t| ==> t[k] != '"' && t[k] != '\\' && t[k] != '\n'
    ensures Escape(t) == t
    decreases |t|
  {
    if t != [] {
      EscapePlain(t[..|t| - 1]);
      assert t[..|t| - 1] + [t[|t| - 1]] == t;
    }
  }

  /** A character that can start no number where a value is due: LoadNode
      goes on as LoadNumber, which finds no digit. */
  lemma NoValueAt(s: string, p: nat, toDouble: Conversion)
    requires p < |s| && s[p] != '-' && !IsDigit(s[p]) && StartsNode(s[p])
    requires s[p] != '[' && s[p] != '{' && s[p] != '"' && s[p] != 'n' && s[p] != 't' && s[p] != 'f'
    ensures NodeAt(s, p, toDouble) == Err(ParsingError("A digit is expected"))
  {
    ExtractSkips(s, p, p);
    assert IntegerEnd(s, p) == Err(ParsingError("A digit is expected"));
  }

  /** Two quotes in a row: LoadString reads the empty string and stops after the second. */
  lemma EmptyStringAt(s: string, k: nat)
    requires k < |s| && s[k] == '"'
    ensures StringAt(s, k) == Ok(Parsed("", k + 1))
  {
  }

  /** A key whose text is a quote, written without escaping: the key reads as
      the empty string, the quote left over is taken for the separator, and
      the separator is then read as the start of the value. */
  lemma UnescapedPairFails(s: string, k: nat, acc: seq<Entry>, toDouble: Conversion)
    requires k + 2 < |s| && s[k] == '"' && s[k + 1] == '"' && s[k + 2] == ':' && KeysAscending(acc)
    ensures PairFrom(s, k, acc, toDouble) == Some(Err(ParsingError("A digit is expected")))
  {
    EmptyStringAt(s, k);
    ExtractSkips(s, k + 1, k + 1);
    NoValueAt(s, k + 2, toDouble);
  }

  /** The text of the dict {"\"": null} with its key written unescaped. */
  function UnescapedKeyText(): string {
    "{\n" + MemberTextAsWritten("\"", "null") + "\n}"
  }

  lemma UnescapedKeyChars()
    ensures |UnescapedKeyText()| > 5
    ensures UnescapedKeyText()[0] == '{' && UnescapedKeyText()[1] == '\n' && UnescapedKeyText()[2] == '"'
    ensures UnescapedKeyText()[3] == '"' && UnescapedKeyText()[4] == '"' && UnescapedKeyText()[5] == ':'
  {
    assert UnescapedKeyText() == "{\n\"\"\": null\n}";
  }

  /** LoadNode on an opening brace goes on as LoadDict's loop. */
  lemma DictOpens(s: string, p: nat, toDouble: Conversion)
    requires p < |s| && s[p] == '{'
    ensures NodeFrom(s, p, toDouble) == DictFrom(s, p + 1, [], toDouble)
  {
    ExtractSkips(s, p, p);
    NodeAfterDict(s, p, toDouble);
  }

  /** After a newline and a quote, LoadDict's loop reads a key. */
  lemma DictFirstKey(s: string, p: nat, toDouble: Conversion)
    requires p + 1 < |s| && s[p] == '\n' && s[p + 1] == '"'
    ensures DictFrom(s, p, [], toDouble) == PairFrom(s, p + 2, [], toDouble)
  {
    ExtractSkips(s, p, p + 1);
  }

  /** A dict whose first key is written as three quotes does not load. */
  lemma TripleQuoteKeyFails(s: string, toDouble: Conversion)
    requires |s| > 5 && s[0] == '{' && s[1] == '\n' && s[2] == '"' && s[3] == '"' && s[4] == '"' && s[5] == ':'
    ensures NodeFrom(s, 0, toDouble) == Some(Err(ParsingError("A digit is expected")))
  {
    UnescapedPairFails(s, 3, [], toDouble);
    DictFirstKey(s, 1, toDouble);
    DictOpens(s, 0, toDouble);
  }

  /** With its key written unescaped, the dict {"\"": null} does not load at
      all, so the round trip fails for it; with the key escaped it loads back,
      by EscapedKeyLoads. */
  lemma UnescapedKeyAsWritten(toDouble: Conversion)
    ensures LoadText(UnescapedKeyText(), toDouble) == Err(ParsingError("A digit is expected"))
  {
    UnescapedKeyChars();
    TripleQuoteKeyFails(UnescapedKeyText(), toDouble);
  }

  /** The escaped key of that dict loads back. */
  lemma EscapedKeyLoads(format: real -> string, toDouble: Conversion)
    ensures LoadText(Printed(Dict([Entry("\"", Null)]), format), toDouble) == Ok(Document(Dict([Entry("\"", Null)])))
  {
    var n := Dict([Entry("\"", Null)]);
    assert KeysAscending(n.entries);
    LoadPrintRoundTrip(Document(n), format, toDouble);
  }
}
