/** Strings, null, true, false and ints load back from the text NodePrint
    writes for them. */
module JsonScalarRoundTrip {
  import opened Wrappers
  import opened Chars
  import opened Numerals
  import opened Geo
  import opened Json
  import opened JsonLoad
  import opened JsonPrint
  import opened Lexicographic
  import opened JsonText
  import opened JsonPrintable

  /** One escaped character is read back as that character. */
  lemma StringStep(s: string, p: nat, acc: string, c: char)
    requires TextAt(s, p, EscapeChar(c))
    ensures StringRest(s, p, acc, false) == StringRest(s, p + |EscapeChar(c)|, acc + [c], false)
  {
    var e := EscapeChar(c);
    CharAt(s, p, e, 0);
    if c == '"' || c == '\\' || c == '\n' {
      CharAt(s, p, e, 1);
      assert Unescape(e[1]) == Some(c);
      assert StringRest(s, p, acc, false) == StringRest(s, p + 1, acc, true);
    }
  }

  /** The escaped body of t followed by a quote loads as t, ending after the quote. */
  lemma {:induction false} StringRoundTrip(s: string, p: nat, t: string, acc: string)
    requires TextAt(s, p, Escape(t) + "\"")
    ensures StringRest(s, p, acc, false) == Ok(Parsed(acc + t, p + |Escape(t)| + 1))
    decreases |t|
  {
    if t == [] {
      StringEnds(s, p, acc);
    } else {
      EscapeSplit(s, p, t);
      StringStep(s, p, acc, t[0]);
      StringRoundTrip(s, p + |EscapeChar(t[0])|, t[1..], acc + [t[0]]);
      StringCons(s, p, t, acc);
    }
  }

  /** A quote right away ends the string. */
  lemma StringEnds(s: string, p: nat, acc: string)
    requires TextAt(s, p, Escape([]) + "\"")
    ensures StringRest(s, p, acc, false) == Ok(Parsed(acc + [], p + |Escape([])| + 1))
  {
    assert Escape([]) + "\"" == "\"";
    CharAt(s, p, "\"", 0);
    assert acc + [] == acc;
  }

  /** The first escaped character read, the rest of t loads as the rest. */
  lemma StringCons(s: string, p: nat, t: string, acc: string)
    requires t != [] && p + |EscapeChar(t[0])| <= |s|
    requires |Escape(t)| == |EscapeChar(t[0])| + |Escape(t[1..])|
    requires StringRest(s, p, acc, false) == StringRest(s, p + |EscapeChar(t[0])|, acc + [t[0]], false)
    requires StringRest(s, p + |EscapeChar(t[0])|, acc + [t[0]], false)
             == Ok(Parsed((acc + [t[0]]) + t[1..], p + |EscapeChar(t[0])| + |Escape(t[1..])| + 1))
    ensures StringRest(s, p, acc, false) == Ok(Parsed(acc + t, p + |Escape(t)| + 1))
  {
    assert (acc + [t[0]]) + t[1..] == acc + t;
  }

  /** The escaped text of t stands at p as its first character's escape, then the rest's. */
  lemma EscapeSplit(s: string, p: nat, t: string)
    requires t != [] && TextAt(s, p, Escape(t) + "\"")
    ensures TextAt(s, p, EscapeChar(t[0]))
    ensures TextAt(s, p + |EscapeChar(t[0])|, Escape(t[1..]) + "\"")
    ensures |Escape(t)| == |EscapeChar(t[0])| + |Escape(t[1..])|
  {
    EscapeCons(t);
    var e := EscapeChar(t[0]);
    assert Escape(t) + "\"" == e + (Escape(t[1..]) + "\"");
    TextAtConcat(s, p, e, Escape(t[1..]) + "\"");
  }

  /** Characters that are not white space are taken one by one. */
  lemma {:induction false} WordRoundTrip(s: string, p: nat, w: string, acc: string)
    requires TextAt(s, p, w) && forall k :: 0 <= k < |w| ==> !IsSpace(w[k])
    ensures WordRest(s, p, |w|, acc) == Parsed(acc + w, p + |w|)
    decreases |w|
  {
    if w != [] {
      CharAt(s, p, w, 0);
      ExtractSkips(s, p, p);
      assert [w[0]] + w[1..] == w;
      TextAtConcat(s, p, [w[0]], w[1..]);
      WordRoundTrip(s, p + 1, w[1..], acc + [w[0]]);
      assert WordRest(s, p, |w|, acc) == WordRest(s, p + 1, |w| - 1, acc + [w[0]]);
      assert acc + w == (acc + [w[0]]) + w[1..];
    } else {
      assert acc + w == acc;
    }
  }

  /** null, true and false load back. */
  lemma LiteralRoundTrip(s: string, p: nat, n: Node, format: real -> string)
    requires (n.Null? || n.Bool?) && TextAt(s, p, Printed(n, format))
    ensures NullOrBoolAt(s, p) == Ok(Parsed(n, p + |Printed(n, format)|))
  {
    var w := Printed(n, format);
    CharAt(s, p, w, 0);
    WordRoundTrip(s, p, w, "");
    assert "" + w == w;
  }

  /** The text of an int: a minus sign exactly when it is negative, then the
      digits of its magnitude. */
  lemma IntSign(s: string, p: nat, i: Int32, digits: string)
    requires TextAt(s, p, IntToString(i))
    requires digits == NatToString(if i < 0 then -(i as int) else i)
    ensures PeekIs(s, p, '-') == (i < 0)
    ensures TextAt(s, if i < 0 then p + 1 else p, digits)
    ensures (if i < 0 then p + 1 else p) + |digits| == p + |IntToString(i)|
  {
    CharAt(s, p, IntToString(i), 0);
    if i < 0 {
      TextAtConcat(s, p, "-", digits);
    } else {
      assert IsDigit(digits[0]);
    }
  }

  /** The digits stand in [start, e) and a delimiter follows, so each part of the
      number scan ends at e. */
  lemma DigitsScan(s: string, start: nat, digits: string, e: nat)
    requires TextAt(s, start, digits) && e == start + |digits| && Delimited(s, e)
    requires |digits| > 0 && AllDigits(digits) && (digits[0] == '0' ==> digits == "0")
    ensures IntegerEnd(s, start) == Ok(e)
    ensures FractionEnd(s, e) == Ok(e) && !PeekIs(s, e, '.')
    ensures ExponentEnd(s, e) == Ok(e) && !HasExponent(s, e)
  {
    forall k | start <= k < e ensures IsDigit(s[k]) {
      CharAt(s, start, digits, k - start);
    }
    DigitsEndAt(s, start, e);
    CharAt(s, start, digits, 0);
    if s[start] == '0' {
      assert digits == "0";
    }
  }

  /** The scan of an int's text: no fraction and no exponent. */
  lemma IntShape(s: string, p: nat, i: Int32) returns (sh: NumberShape)
    requires TextAt(s, p, IntToString(i)) && Delimited(s, p + |IntToString(i)|)
    ensures NumberShapeAt(s, p) == Ok(sh) && sh.end == p + |IntToString(i)|
    ensures !sh.hasFraction && !sh.hasExponent && sh.negative == (i < 0)
    ensures s[sh.start..sh.intEnd] == NatToString(if i < 0 then -(i as int) else i)
  {
    var digits := NatToString(if i < 0 then -(i as int) else i);
    IntSign(s, p, i, digits);
    var start := if i < 0 then p + 1 else p;
    var e := start + |digits|;
    DigitsScan(s, start, digits, e);
    TextAtSlice(s, start, digits);
    sh := NumberShape(p, i < 0, start, e, false, e, false, false, e, e);
  }

  /** A scan that comes out as sh loads the value of sh. */
  lemma NumberAtShape(s: string, p: nat, sh: NumberShape, toDouble: Conversion)
    requires p <= |s| && NumberShapeAt(s, p) == Ok(sh)
    ensures WellShaped(s, sh)
    ensures NumberValue(s, sh, toDouble).Ok? ==>
              NumberAt(s, p, toDouble) == Ok(Parsed(NumberValue(s, sh, toDouble).value, sh.end))
  {
    NumberShapeSpec(s, p);
  }

  /** A scan with no fraction and no exponent whose value fits an int is that int. */
  lemma IntValue(s: string, sh: NumberShape, i: Int32, toDouble: Conversion)
    requires WellShaped(s, sh) && !sh.hasFraction && !sh.hasExponent
    requires s[sh.start..sh.intEnd] == NatToString(if i < 0 then -(i as int) else i)
    requires sh.negative == (i < 0)
    ensures NumberValue(s, sh, toDouble) == Ok(Int(i))
  {
  }

  /** The decimal text of an int loads as that int. */
  lemma IntRoundTrip(s: string, p: nat, i: Int32, toDouble: Conversion)
    requires TextAt(s, p, IntToString(i)) && Delimited(s, p + |IntToString(i)|)
    ensures NumberAt(s, p, toDouble) == Ok(Parsed(Int(i), p + |IntToString(i)|))
  {
    var sh := IntShape(s, p, i);
    NumberAtShape(s, p, sh, toDouble);
    IntValue(s, sh, i, toDouble);
  }

  /** The text of an int starts with a digit or a minus sign. */
  lemma IntFirst(i: Int32)
    ensures IntToString(i)[0] == '-' || IsDigit(IntToString(i)[0])
  {
    if i >= 0 {
      assert IsDigit(NatToString(i)[0]);
    }
  }

  /** A quoted string loads back, the cursor ending after the closing quote. */
  lemma QuotedRoundTrip(s: string, p: nat, t: string)
    requires TextAt(s, p, Quoted(t))
    ensures p < |s| && s[p] == '"'
    ensures StringAt(s, p + 1) == Ok(Parsed(t, p + |Quoted(t)|))
  {
    assert Quoted(t) == "\"" + (Escape(t) + "\"");
    TextAtConcat(s, p, "\"", Escape(t) + "\"");
    CharAt(s, p, "\"", 0);
    StringRoundTrip(s, p + 1, t, "");
    assert "" + t == t;
  }

  /** null, true and false load back as nodes. */
  lemma LiteralNodeRoundTrip(s: string, p: nat, n: Node, format: real -> string, text: string, toDouble: Conversion)
    requires (n.Null? || n.Bool?) && PrintsAs(n, format, text) && TextAt(s, p, text)
    ensures LoadsNode(s, p, n, p + |text|, toDouble)
  {
    CharAt(s, p, text, 0);
    NodeAtLiteral(s, p, p, toDouble);
    LiteralRoundTrip(s, p, n, format);
  }

  /** An int loads back as a node. */
  lemma IntNodeRoundTrip(s: string, p: nat, n: Node, format: real -> string, text: string, toDouble: Conversion)
    requires n.Int? && PrintsAs(n, format, text) && TextAt(s, p, text) && Delimited(s, p + |text|)
    ensures LoadsNode(s, p, n, p + |text|, toDouble)
  {
    IntFirst(n.i);
    CharAt(s, p, text, 0);
    NodeAtNumber(s, p, p, toDouble);
    IntRoundTrip(s, p, n.i, toDouble);
  }

  /** A string loads back as a node. */
  lemma StringNodeRoundTrip(s: string, p: nat, n: Node, format: real -> string, text: string, toDouble: Conversion)
    requires n.String? && PrintsAs(n, format, text) && TextAt(s, p, text)
    ensures LoadsNode(s, p, n, p + |text|, toDouble)
  {
    QuotedRoundTrip(s, p, n.s);
    NodeAtString(s, p, p, n.s, p + |text|, toDouble);
  }
}
