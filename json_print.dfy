/** NodePrint, PrintNode and Print of json.cpp. A node's text is given by
    `Printed`; the methods are the source's visitor, which writes item after
    item with loops. How `out << double` writes a double is a parameter,
    `format`. */
module JsonPrint {
  import opened Numerals
  import opened Json

  /** What the string alternative writes for one character: only `"`, `\` and
      a newline are escaped. */
  function EscapeChar(c: char): string {
    if c == '"' then "\\\""
    else if c == '\\' then "\\\\"
    else if c == '\n' then "\\n"
    else [c]
  }

  /** The body of a printed string, character after character. */
  function Escape(t: string): string
    decreases |t|
  {
    if t == [] then "" else Escape(t[..|t| - 1]) + EscapeChar(t[|t| - 1])
  }

  /** One step of the string loop: the text written for the first k
      characters, followed by the escape of character k, is the text written
      for the first k + 1. */
  lemma EscapeStep(t: string, k: nat, written: string)
    requires k < |t| && written == "\"" + Escape(t[..k])
    ensures written + EscapeChar(t[k]) == "\"" + Escape(t[..k + 1])
  {
    assert t[..k + 1][..k] == t[..k];
  }

  /** A string node's text: its escaped body between quotes. */
  function Quoted(t: string): string {
    "\"" + Escape(t) + "\""
  }

  /** The parts written in order, with `sep` after every part but the last: what
      the loop over an Array or a Dict writes, counting `size` down. */
  function Join(parts: seq<string>, sep: string): string
    decreases |parts|
  {
    if parts == [] then ""
    else if |parts| == 1 then parts[0]
    else Join(parts[..|parts| - 1], sep) + sep + parts[|parts| - 1]
  }

  /** One pair of a Dict, with its key escaped like a string node. The source
      writes the key unescaped (MemberTextAsWritten); escaping it is the
      correction under which every printable document loads back. */
  function MemberText(key: string, value: string): string {
    Quoted(key) + ": " + value
  }

  /** The text NodePrint writes for a node. */
  function Printed(n: Node, format: real -> string): string
    decreases n, 1
  {
    match n
    case Null => "null"
    case Array(items) => "[\n" + Join(ItemTexts(items, format), ",\n") + "\n]"
    case Dict(entries) => "{\n" + Join(MemberTexts(entries, format), ",\n") + "\n}"
    case Bool(b) => if b then "true" else "false"
    case Int(i) => IntToString(i)
    case Double(d) => format(d)
    case String(s) => Quoted(s)
  }

  /** The texts of the items of an Array, in order. */
  function ItemTexts(items: seq<Node>, format: real -> string): (r: seq<string>)
    ensures |r| == |items|
    decreases items, 0
  {
    if items == [] then []
    else ItemTexts(items[..|items| - 1], format) + [Printed(items[|items| - 1], format)]
  }

  /** The texts of the pairs of a Dict, in order. */
  function MemberTexts(entries: seq<Entry>, format: real -> string): (r: seq<string>)
    ensures |r| == |entries|
    decreases entries, 0
  {
    if entries == [] then []
    else
      var last := entries[|entries| - 1];
      MemberTexts(entries[..|entries| - 1], format) + [MemberText(last.key, Printed(last.value, format))]
  }

  /** Item text i is the text of item i. */
  lemma {:induction false} ItemTextsAt(items: seq<Node>, format: real -> string, i: nat)
    requires i < |items|
    ensures ItemTexts(items, format)[i] == Printed(items[i], format)
    decreases |items|
  {
    if i < |items| - 1 {
      ItemTextsAt(items[..|items| - 1], format, i);
    }
  }

  /** Member text i is the text of pair i. */
  lemma {:induction false} MemberTextsAt(entries: seq<Entry>, format: real -> string, i: nat)
    requires i < |entries|
    ensures MemberTexts(entries, format)[i] == MemberText(entries[i].key, Printed(entries[i].value, format))
    decreases |entries|
  {
    if i < |entries| - 1 {
      MemberTextsAt(entries[..|entries| - 1], format, i);
    }
  }

  /** Escaping works character by character from the front as well. */
  lemma {:induction false} EscapeCons(t: string)
    requires t != []
    ensures Escape(t) == EscapeChar(t[0]) + Escape(t[1..])
    decreases |t|
  {
    if |t| > 1 {
      var init := t[..|t| - 1];
      EscapeCons(init);
      assert init[1..] == t[1..][..|t[1..]| - 1];
      assert init[0] == t[0];
    } else {
      assert t[..0] == [] && t[1..] == [];
    }
  }

  /** A joined list is its first part, the separator, and the rest joined. */
  lemma {:induction false} JoinCons(parts: seq<string>, sep: string)
    requires |parts| >= 2
    ensures Join(parts, sep) == parts[0] + sep + Join(parts[1..], sep)
    decreases |parts|
  {
    var tail := parts[1..];
    if |parts| == 2 {
      assert parts[..1] == [parts[0]];
      assert tail == [parts[1]];
    } else {
      var init := parts[..|parts| - 1];
      JoinCons(init, sep);
      assert init[1..] == tail[..|tail| - 1];
      assert init[0] == parts[0];
      assert tail[|tail| - 1] == parts[|parts| - 1];
    }
  }

  /** Joining one more part adds the separator unless it is the first. */
  lemma JoinStep(parts: seq<string>, k: nat, sep: string)
    requires k < |parts|
    ensures Join(parts[..k + 1], sep) == Join(parts[..k], sep) + (if k > 0 then sep else "") + parts[k]
  {
    assert parts[..k + 1][..k] == parts[..k];
  }

  /** One step of the Array and Dict loops: the text so far (the opening line
      and the separator owed to part k) followed by part k is the opening line
      and the first k + 1 parts joined. */
  lemma JoinedStep(open: string, parts: seq<string>, k: nat, sep: string)
    requires k < |parts|
    ensures open + Join(parts[..k], sep) + (if 0 < k then sep else "") + parts[k] == open + Join(parts[..k + 1], sep)
  {
    JoinStep(parts, k, sep);
  }

  // The visitor, with the source's loops

  /** The string alternative: a loop over the characters of the string. */
  method PrintString(str: string) returns (out: string)
    ensures out == Quoted(str)
  {
    out := "\"";
    var k := 0;
    while k < |str|
      invariant 0 <= k <= |str|
      invariant out == "\"" + Escape(str[..k])
    {
      var symbol := str[k];
      ghost var before := out;
      if symbol == '"' {
        out := out + ['\\', '"'];
        EscapeStep(str, k, before);
      } else if symbol == '\\' {
        out := out + ['\\', '\\'];
        EscapeStep(str, k, before);
      } else if symbol == '\n' {
        out := out + ['\\', 'n'];
        EscapeStep(str, k, before);
      } else {
        out := out + [symbol];
        EscapeStep(str, k, before);
      }
      k := k + 1;
    }
    assert str[..k] == str;
    out := out + "\"";
  }

  /** PrintNode: visit the alternative the node holds. */
  method PrintNode(node: Node, format: real -> string) returns (out: string)
    ensures out == Printed(node, format)
    decreases node, 1
  {
    match node
    case Null =>
      out := "null";
    case Array(items) =>
      out := PrintArray(node, format);
    case Dict(entries) =>
      out := PrintDict(node, format);
    case Bool(b) =>
      if b {
        out := "true";
      } else {
        out := "false";
      }
    case Int(i) =>
      out := IntToString(i);
    case Double(d) =>
      out := format(d);
    case String(s) =>
      out := PrintString(s);
  }

  /** The Array alternative: each item, then ",\n" while `size` is positive. */
  method PrintArray(node: Node, format: real -> string) returns (out: string)
    requires node.Array?
    ensures out == Printed(node, format)
    decreases node, 0
  {
    var items := node.items;
    ghost var parts := ItemTexts(items, format);
    var size := |items| - 1;
    out := "[\n";
    var k := 0;
    while k < |items|
      invariant 0 <= k <= |items|
      invariant k < |items| ==> size == |items| - 1 - k
      invariant out == "[\n" + Join(parts[..k], ",\n") + (if 0 < k < |items| then ",\n" else "")
    {
      var text := PrintNode(items[k], format);
      ItemTextsAt(items, format, k);
      JoinedStep("[\n", parts, k, ",\n");
      out := out + text;
      if size > 0 {
        out := out + ",\n";
        size := size - 1;
      }
      k := k + 1;
    }
    assert parts[..k] == parts;
    assert Printed(node, format) == "[\n" + Join(parts, ",\n") + "\n]";
    out := out + "\n]";
  }

  /** The Dict alternative: each pair as `"key": value`, then ",\n" while `size`
      is positive. */
  method PrintDict(node: Node, format: real -> string) returns (out: string)
    requires node.Dict?
    ensures out == Printed(node, format)
    decreases node, 0
  {
    var entries := node.entries;
    ghost var parts := MemberTexts(entries, format);
    var size := |entries| - 1;
    out := "{\n";
    var k := 0;
    while k < |entries|
      invariant 0 <= k <= |entries|
      invariant k < |entries| ==> size == |entries| - 1 - k
      invariant out == "{\n" + Join(parts[..k], ",\n") + (if 0 < k < |entries| then ",\n" else "")
    {
      var member := PrintMember(entries[k], format);
      MemberTextsAt(entries, format, k);
      JoinedStep("{\n", parts, k, ",\n");
      out := out + member;
      if size > 0 {
        out := out + ",\n";
        size := size - 1;
      }
      k := k + 1;
    }
    assert parts[..k] == parts;
    assert Printed(node, format) == "{\n" + Join(parts, ",\n") + "\n}";
    out := out + "\n}";
  }

  /** One pair of a Dict: the key through the string printer (the corrected
      MemberText; the source writes it without escaping), then ": " and the value. */
  method PrintMember(entry: Entry, format: real -> string) returns (out: string)
    ensures out == MemberText(entry.key, Printed(entry.value, format))
    decreases entry, 2
  {
    var key := PrintString(entry.key);
    var value := PrintNode(entry.value, format);
    out := key + ": " + value;
  }

  /** json::Print: the root's text. */
  method Print(doc: Document, format: real -> string) returns (out: string)
    ensures out == Printed(doc.root, format)
  {
    out := PrintNode(doc.root, format);
  }
}
