/** The nodes whose text loads back: no double anywhere (how a double is
    written is not modelled) and dict keys in order, as a std::map keeps them. */
module JsonPrintable {
  import opened Chars
  import opened Numerals
  import opened Json
  import opened JsonPrint
  import opened JsonText

  /** No double anywhere in the node. */
  predicate NoDoubles(n: Node)
    decreases n
  {
    match n
    case Double(_) => false
    case Array(items) => forall i :: 0 <= i < |items| ==> NoDoubles(items[i])
    case Dict(entries) => forall i :: 0 <= i < |entries| ==> NoDoubles(entries[i].value)
    case _ => true
  }

  /** The nodes the round trip is about. The conjunction is compared with
      true so that the verifier keeps it as one fact rather than unfolding
      both recursive predicates wherever it is to be shown. */
  predicate Printable(n: Node) {
    (Canonical(n) && NoDoubles(n)) == true
  }

  lemma PrintedFirst(n: Node, format: real -> string)
    requires NoDoubles(n)
    ensures |Printed(n, format)| > 0 && StartsNode(Printed(n, format)[0])
  {
    if n.Int? {
      var text := IntToString(n.i);
      if n.i >= 0 {
        assert IsDigit(NatToString(n.i)[0]);
      }
    }
  }


  /** The children of a printable node are printable. */
  lemma ChildPrintable(parent: Node, k: nat)
    requires Printable(parent)
    ensures parent.Array? && k < |parent.items| ==> Printable(parent.items[k])
    ensures parent.Dict? && k < |parent.entries| ==> Printable(parent.entries[k].value)
  {
  }

  /** text is the text NodePrint writes for n. */
  predicate PrintsAs(n: Node, format: real -> string, text: string) {
    Printed(n, format) == text
  }

  /** texts are the texts of the items, in order. */
  predicate ItemsPrintAs(items: seq<Node>, format: real -> string, texts: seq<string>) {
    ItemTexts(items, format) == texts
  }

  /** texts are the texts of the pairs, in order. */
  predicate MembersPrintAs(entries: seq<Entry>, format: real -> string, texts: seq<string>) {
    MemberTexts(entries, format) == texts
  }

  /** text is the text of the pair e. */
  predicate MemberPrintsAs(e: Entry, format: real -> string, text: string) {
    MemberText(e.key, Printed(e.value, format)) == text
  }

  /** Item text k is the text of item k. */
  lemma ItemPrints(items: seq<Node>, format: real -> string, texts: seq<string>, k: nat)
    requires ItemsPrintAs(items, format, texts) && k < |items|
    ensures k < |texts| && PrintsAs(items[k], format, texts[k])
  {
    ItemTextsAt(items, format, k);
  }

  /** Member text k is the text of pair k. */
  lemma MemberPrints(entries: seq<Entry>, format: real -> string, texts: seq<string>, k: nat)
    requires MembersPrintAs(entries, format, texts) && k < |entries|
    ensures k < |texts| && MemberPrintsAs(entries[k], format, texts[k])
  {
    MemberTextsAt(entries, format, k);
  }

  /** A pair's text is its quoted key, ": " and the text of its value. */
  lemma MemberParts(e: Entry, format: real -> string, text: string) returns (value: string)
    requires MemberPrintsAs(e, format, text)
    ensures PrintsAs(e.value, format, value) && text == MemberText(e.key, value)
  {
    value := Printed(e.value, format);
  }

  /** A node's text starts with a character LoadNode dispatches on. */
  lemma PrintedStarts(s: string, p: nat, n: Node, format: real -> string, text: string)
    requires NoDoubles(n) && PrintsAs(n, format, text) && TextAt(s, p, text)
    ensures p < |s| && StartsNode(s[p])
  {
    PrintedFirst(n, format);
    CharAt(s, p, text, 0);
  }

}
