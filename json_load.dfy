/** The loaders of json.cpp. The input stream is the text `s` read from a
    cursor `p`: `get` and `>>` move the cursor forward, `putback` moves it back
    over the character just taken, and `peek` looks at s[p]. Each loader is a
    function of the text and the cursor, and a method with the source's loops
    that computes it. */
module JsonLoad {
  import opened Wrappers
  import opened Chars
  import opened Numerals
  import opened Geo
  import opened Json

  /** Something read from the stream, and the cursor after it. */
  datatype Parsed<T> = Parsed(value: T, next: nat)

  /** `input >> c`: white space is skipped, then one character is taken. At the
      end of the text nothing is taken. */
  function Extract(s: string, p: nat): (r: Option<(char, nat)>)
    requires p <= |s|
    ensures r.Some? ==> p < r.value.1 <= |s| && s[r.value.1 - 1] == r.value.0 && !IsSpace(r.value.0)
  {
    var q := FirstNonSpace(s, p);
    if q < |s| then Some((s[q], q + 1)) else None
  }

  /** Where the cursor stands after `input >> c`, whether or not a character was taken. */
  function AfterExtract(s: string, p: nat): (q: nat)
    requires p <= |s|
    ensures p <= q <= |s|
  {
    match Extract(s, p)
    case None => |s|
    case Some((_, q)) => q
  }

  /** `input.peek() == c`. */
  predicate PeekIs(s: string, p: nat, c: char) {
    p < |s| && s[p] == c
  }

  // LoadString

  /** The escape_sequences table: the character that an escaped c stands for. */
  function Unescape(c: char): Option<char> {
    match c
    case 'a' => Some(7 as char)
    case 'b' => Some(8 as char)
    case 'f' => Some(12 as char)
    case 'n' => Some('\n')
    case 'r' => Some('\r')
    case 't' => Some('\t')
    case 'v' => Some(11 as char)
    case '\'' => Some('\'')
    case '"' => Some('"')
    case '\\' => Some('\\')
    case _ => None
  }

  /** std::to_string of a char, which is promoted to a signed int. A character
      of the text stands for one byte. */
  function CharCodeText(c: char): string {
    IntToString(if c as int < 128 then c as int else c as int - 256)
  }

  /** The loop of LoadString from the cursor p, with acc decoded so far. It stops
      at an unescaped quote, which it consumes. Running out of text before that
      quote is an error. */
  function StringRest(s: string, p: nat, acc: string, escaped: bool): (r: Result<Parsed<string>, Exception>)
    requires p <= |s|
    ensures r.Ok? ==> p < r.value.next <= |s| && s[r.value.next - 1] == '"'
    decreases |s| - p
  {
    if p == |s| then Err(ParsingError("Failed to read string"))
    else
      var c := s[p];
      if !escaped && c == '"' then Ok(Parsed(acc, p + 1))
      else if !escaped then
        if c == '\\' then StringRest(s, p + 1, acc, true) else StringRest(s, p + 1, acc + [c], false)
      else
        match Unescape(c)
        case None => Err(ParsingError("Uncorrect escape sequence" + CharCodeText(c)))
        case Some(d) => StringRest(s, p + 1, acc + [d], false)
  }

  /** LoadString, called with the cursor just after the opening quote. */
  function StringAt(s: string, p: nat): (r: Result<Parsed<string>, Exception>)
    requires p <= |s|
    ensures r.Ok? ==> p < r.value.next <= |s| && s[r.value.next - 1] == '"'
  {
    StringRest(s, p, "", false)
  }

  // LoadNullOrBool

  /** The loop of LoadNullOrBool: up to n more characters taken one `>>` at a
      time after acc. */
  function WordRest(s: string, p: nat, n: nat, acc: string): (r: Parsed<string>)
    requires p <= |s|
    ensures p <= r.next <= |s| && |r.value| <= |acc| + n
    ensures |r.value| > |acc| ==> p < r.next
    decreases n
  {
    if n == 0 then Parsed(acc, p)
    else
      match Extract(s, p)
      case None => Parsed(acc, |s|)
      case Some((c, q)) => WordRest(s, q, n - 1, acc + [c])
  }

  function Word(s: string, p: nat, n: nat): (r: Parsed<string>)
    requires p <= |s|
    ensures p <= r.next <= |s| && |r.value| <= n
    ensures r.value != [] ==> p < r.next
  {
    WordRest(s, p, n, "")
  }

  /** LoadNullOrBool: five characters when the next one is 'f', else four; only
      null, true and false are accepted. */
  function NullOrBoolAt(s: string, p: nat): (r: Result<Parsed<Node>, Exception>)
    requires p <= |s|
    ensures r.Ok? ==> p < r.value.next <= |s|
  {
    var w := Word(s, p, if PeekIs(s, p, 'f') then 5 else 4);
    if w.value == "null" then Ok(Parsed(Null, w.next))
    else if w.value == "true" then Ok(Parsed(Bool(true), w.next))
    else if w.value == "false" then Ok(Parsed(Bool(false), w.next))
    else Err(ParsingError("Failed to read null or bool"))
  }

  // LoadNumber

  /** The first position at or after p that does not hold a digit. */
  function DigitsEnd(s: string, p: nat): (q: nat)
    requires p <= |s|
    ensures p <= q <= |s|
    ensures q == |s| || !IsDigit(s[q])
    decreases |s| - p
  {
    if p < |s| && IsDigit(s[p]) then DigitsEnd(s, p + 1) else p
  }

  /** Everything DigitsEnd passes over is a digit. */
  lemma {:induction false} DigitsRun(s: string, p: nat)
    requires p <= |s|
    ensures forall k :: p <= k < DigitsEnd(s, p) ==> IsDigit(s[k])
    decreases |s| - p
  {
    if p < |s| && IsDigit(s[p]) { DigitsRun(s, p + 1); }
  }

  /** read_digits: at least one digit is required, and all that follow are taken. */
  function ReadDigits(s: string, p: nat): (r: Result<nat, Exception>)
    requires p <= |s|
    ensures r.Ok? ==> DigitsBetween(s, p, r.value) && r.value == DigitsEnd(s, p)
  {
    if p < |s| && IsDigit(s[p]) then DigitsRun(s, p); Ok(DigitsEnd(s, p)) else Err(ParsingError("A digit is expected"))
  }

  /** Where the parts of a number lie in the text: it starts at begin; the
      integer digits are [start, intEnd); the fraction digits, after a '.', are
      [intEnd + 1, fracEnd); the exponent digits, after e or E and an optional
      sign, are [expStart, end). */
  datatype NumberShape = NumberShape(
    begin: nat, negative: bool, start: nat, intEnd: nat,
    hasFraction: bool, fracEnd: nat,
    hasExponent: bool, expNegative: bool, expStart: nat, end: nat)

  predicate DigitsBetween(s: string, a: nat, b: nat) {
    a < b <= |s| && forall k :: a <= k < b ==> IsDigit(s[k])
  }

  /** The number grammar: an optional '-', then a lone '0' or a run of digits,
      then optionally '.' and digits, then optionally e or E, an optional sign
      and digits. */
  predicate WellShaped(s: string, sh: NumberShape) {
    && sh.begin <= sh.start < sh.intEnd <= sh.fracEnd <= sh.expStart <= sh.end <= |s|
    && (sh.negative <==> sh.start == sh.begin + 1)
    && (sh.negative ==> s[sh.begin] == '-')
    && (!sh.negative ==> sh.start == sh.begin)
    && DigitsBetween(s, sh.start, sh.intEnd)
    && (s[sh.start] == '0' ==> sh.intEnd == sh.start + 1)
    && (sh.hasFraction ==> DigitsBetween(s, sh.intEnd + 1, sh.fracEnd) && s[sh.intEnd] == '.')
    && (!sh.hasFraction ==> sh.fracEnd == sh.intEnd)
    && (sh.hasExponent ==>
          && DigitsBetween(s, sh.expStart, sh.end)
          && (sh.expStart == sh.fracEnd + 1 || sh.expStart == sh.fracEnd + 2)
          && (s[sh.fracEnd] == 'e' || s[sh.fracEnd] == 'E')
          && (sh.expStart == sh.fracEnd + 2 ==> s[sh.fracEnd + 1] == '+' || s[sh.fracEnd + 1] == '-')
          && (sh.expNegative <==> sh.expStart == sh.fracEnd + 2 && s[sh.fracEnd + 1] == '-'))
    && (!sh.hasExponent ==> sh.expStart == sh.end == sh.fracEnd && !sh.expNegative)
  }

  /** The integer part: a lone '0', or at least one digit. */
  function IntegerEnd(s: string, start: nat): (r: Result<nat, Exception>)
    requires start <= |s|
    ensures r.Ok? ==> DigitsBetween(s, start, r.value)
    ensures r.Ok? && s[start] == '0' ==> r.value == start + 1
  {
    if PeekIs(s, start, '0') then Ok(start + 1) else ReadDigits(s, start)
  }

  /** The fraction part: nothing, or '.' and at least one digit. */
  function FractionEnd(s: string, intEnd: nat): (r: Result<nat, Exception>)
    requires intEnd <= |s|
    ensures r.Ok? && PeekIs(s, intEnd, '.') ==> DigitsBetween(s, intEnd + 1, r.value)
    ensures r.Ok? && !PeekIs(s, intEnd, '.') ==> r.value == intEnd
  {
    if PeekIs(s, intEnd, '.') then ReadDigits(s, intEnd + 1) else Ok(intEnd)
  }

  predicate HasExponent(s: string, fracEnd: nat) {
    PeekIs(s, fracEnd, 'e') || PeekIs(s, fracEnd, 'E')
  }

  /** Where the exponent digits start, after e or E and an optional sign. */
  function ExponentStart(s: string, fracEnd: nat): (q: nat)
    requires fracEnd < |s|
    ensures fracEnd < q <= |s|
  {
    if PeekIs(s, fracEnd + 1, '+') || PeekIs(s, fracEnd + 1, '-') then fracEnd + 2 else fracEnd + 1
  }

  /** The exponent part: nothing, or e or E, an optional sign and at least one digit. */
  function ExponentEnd(s: string, fracEnd: nat): (r: Result<nat, Exception>)
    requires fracEnd <= |s|
    ensures r.Ok? && HasExponent(s, fracEnd) ==> DigitsBetween(s, ExponentStart(s, fracEnd), r.value)
    ensures r.Ok? && !HasExponent(s, fracEnd) ==> r.value == fracEnd
  {
    if HasExponent(s, fracEnd) then ReadDigits(s, ExponentStart(s, fracEnd)) else Ok(fracEnd)
  }

  /** The scanning part of LoadNumber. */
  function NumberShapeAt(s: string, p: nat): (r: Result<NumberShape, Exception>)
    requires p <= |s|
  {
    var negative := PeekIs(s, p, '-');
    var start := if negative then p + 1 else p;
    var intEnd :- IntegerEnd(s, start);
    var fracEnd :- FractionEnd(s, intEnd);
    var end :- ExponentEnd(s, fracEnd);
    var hasExponent := HasExponent(s, fracEnd);
    Ok(NumberShape(p, negative, start, intEnd, PeekIs(s, intEnd, '.'), fracEnd, hasExponent,
                   hasExponent && PeekIs(s, fracEnd + 1, '-'), if hasExponent then ExponentStart(s, fracEnd) else fracEnd, end))
  }

  /** What the scan accepts is the number grammar, starting at p; all it can
      reject is a missing digit. */
  lemma NumberShapeSpec(s: string, p: nat)
    requires p <= |s|
    ensures NumberShapeAt(s, p).Ok? ==> NumberShapeAt(s, p).value.begin == p && WellShaped(s, NumberShapeAt(s, p).value)
    ensures NumberShapeAt(s, p).Err? ==> NumberShapeAt(s, p).error == ParsingError("A digit is expected")
  {
    var negative := PeekIs(s, p, '-');
    var start := if negative then p + 1 else p;
    var intEnd := IntegerEnd(s, start);
    if intEnd.Ok? {
      var fracEnd := FractionEnd(s, intEnd.value);
      if fracEnd.Ok? {
        var end := ExponentEnd(s, fracEnd.value);
        if end.Ok? {
          var sh := NumberShapeAt(s, p).value;
          assert sh.start == start && sh.intEnd == intEnd.value && sh.fracEnd == fracEnd.value && sh.end == end.value;
        }
      }
    }
  }

  /** m times ten to the power e, one factor of ten at a time. */
  function Scaled(m: real, e: int): real
    decreases if e < 0 then -e else e
  {
    if e == 0 then m else if e > 0 then Scaled(m, e - 1) * 10.0 else Scaled(m, e + 1) / 10.0
  }

  function Signed(negative: bool, magnitude: nat): int {
    if negative then -(magnitude as int) else magnitude
  }

  predicate InInt32(i: int) {
    -0x8000_0000 <= i <= 0x7FFF_FFFF
  }

  /** std::stod, on the exact value of a decimal text: the double it rounds
      to, or None when it throws std::out_of_range (the value overflows or
      underflows a double). How the rounding is done is not modelled. */
  type Conversion = real -> Option<real>

  /** The exact value of the digits of a number that is not read as an int:
      the mantissa, fraction included, times ten to the power of the exponent
      less the fraction's length. */
  function DecimalValue(s: string, sh: NumberShape): real
    requires WellShaped(s, sh)
  {
    var fraction := if sh.hasFraction then s[sh.intEnd + 1..sh.fracEnd] else "";
    assert AllDigits(s[sh.start..sh.intEnd] + fraction) by {
      var d := s[sh.start..sh.intEnd] + fraction;
      forall k | 0 <= k < |d| ensures IsDigit(d[k]) {
        if k < sh.intEnd - sh.start {
          assert d[k] == s[sh.start + k];
        } else {
          assert d[k] == s[sh.intEnd + 1 + k - (sh.intEnd - sh.start)];
        }
      }
    }
    var mantissa := DigitsValue(s[sh.start..sh.intEnd] + fraction);
    var power := if sh.hasExponent then DigitsValue(s[sh.expStart..sh.end]) else 0;
    var exponent := Signed(sh.expNegative, power) - |fraction|;
    Scaled(Signed(sh.negative, mantissa) as real, exponent)
  }

  /** The value of the sign and the integer part, as std::stoi reads it. */
  function IntegerValue(s: string, sh: NumberShape): int
    requires WellShaped(s, sh)
  {
    assert AllDigits(s[sh.start..sh.intEnd]) by {
      assert forall k :: 0 <= k < sh.intEnd - sh.start ==> s[sh.start..sh.intEnd][k] == s[sh.start + k];
    }
    Signed(sh.negative, DigitsValue(s[sh.start..sh.intEnd]))
  }

  /** The text is read with std::stoi: no fraction, no exponent, and a value
      that fits an int. */
  predicate IntText(s: string, sh: NumberShape)
    requires WellShaped(s, sh)
  {
    !sh.hasFraction && !sh.hasExponent && InInt32(IntegerValue(s, sh))
  }

  /** The conversion part of LoadNumber: std::stoi where it succeeds; otherwise
      std::stod, whose failure becomes a ParsingError naming the text read. */
  function NumberValue(s: string, sh: NumberShape, toDouble: Conversion): (r: Result<Node, Exception>)
    requires WellShaped(s, sh)
    ensures r.Ok? && r.value.Int? <==> IntText(s, sh)
    ensures r.Ok? && r.value.Int? ==> r.value.i as int == IntegerValue(s, sh)
    ensures r.Err? <==> !IntText(s, sh) && toDouble(DecimalValue(s, sh)).None?
    ensures r.Err? ==> r.error == ParsingError("Failed to convert " + s[sh.begin..sh.end] + " to number")
    ensures r.Ok? && !r.value.Int? ==> r.value == Double(toDouble(DecimalValue(s, sh)).value)
  {
    var integer := IntegerValue(s, sh);
    if !sh.hasFraction && !sh.hasExponent && InInt32(integer) then Ok(Int(integer))
    else
      match toDouble(DecimalValue(s, sh))
      case Some(d) => Ok(Double(d))
      case None => Err(ParsingError("Failed to convert " + s[sh.begin..sh.end] + " to number"))
  }

  /** LoadNumber from the cursor p. */
  function NumberAt(s: string, p: nat, toDouble: Conversion): (r: Result<Parsed<Node>, Exception>)
    requires p <= |s|
    ensures r.Ok? ==> p < r.value.next <= |s|
  {
    var sh :- NumberShapeAt(s, p);
    NumberShapeSpec(s, p);
    var n :- NumberValue(s, sh, toDouble);
    Ok(Parsed(n, sh.end))
  }

  // LoadNode, LoadArray, LoadDict

  /** LoadNode from the cursor p: the first non-space character decides. */
  function NodeAt(s: string, p: nat, toDouble: Conversion): (r: Result<Parsed<Node>, Exception>)
    requires p <= |s|
    ensures r.Ok? ==> p < r.value.next <= |s|
    decreases |s| - p, 1
  {
    var e := Extract(s, p);
    if e.None? then Err(Indeterminate) else NodeAfter(s, e.value, toDouble)
  }

  /** The rest of LoadNode once it has taken the character c at q - 1. */
  function NodeAfter(s: string, taken: (char, nat), toDouble: Conversion): (r: Result<Parsed<Node>, Exception>)
    requires 0 < taken.1 <= |s|
    ensures r.Ok? ==> taken.1 - 1 < r.value.next <= |s|
    decreases |s| - taken.1 + 1, 0
  {
    var (c, q) := taken;
    if c == '[' then ArrayRest(s, q, [], toDouble)
    else if c == '{' then DictRest(s, q, [], toDouble)
    else if c == '"' then
      var str :- StringAt(s, q);
      Ok(Parsed(String(str.value), str.next))
    else if c == 'n' || c == 't' || c == 'f' then NullOrBoolAt(s, q - 1)
    else NumberAt(s, q - 1, toDouble)
  }

  /** Where LoadNode starts after the character c taken at q - 1: a comma is
      skipped, anything else is put back. */
  function ElementStart(taken: (char, nat)): nat
    requires taken.1 > 0
  {
    if taken.0 != ',' then taken.1 - 1 else taken.1
  }

  /** The loop of LoadArray, with the elements acc read so far. A comma before an
      element is skipped; any other character is put back for LoadNode. */
  function ArrayRest(s: string, p: nat, acc: seq<Node>, toDouble: Conversion): (r: Result<Parsed<Node>, Exception>)
    requires p <= |s|
    ensures r.Ok? ==> p < r.value.next <= |s|
    decreases |s| - p, 2
  {
    var e := Extract(s, p);
    if e.None? then Err(ParsingError("Miss ']' at the end"))
    else if e.value.0 == ']' then Ok(Parsed(Array(acc), e.value.1))
    else
      var item := NodeAt(s, ElementStart(e.value), toDouble);
      if item.Err? then Err(item.error)
      else ArrayRest(s, item.value.next, acc + [item.value.value], toDouble)
  }

  /** Where LoadString starts once LoadDict's loop has taken a character: after
      a comma, past the character that follows it; otherwise just after it. */
  function KeyStart(s: string, taken: (char, nat)): (k: nat)
    requires taken.1 <= |s|
    ensures taken.1 <= k <= |s|
  {
    if taken.0 == ',' then AfterExtract(s, taken.1) else taken.1
  }

  /** The loop of LoadDict, with the entries acc read so far. The character taken
      before a key (after a comma, the one after it) is not checked. */
  function DictRest(s: string, p: nat, acc: seq<Entry>, toDouble: Conversion): (r: Result<Parsed<Node>, Exception>)
    requires p <= |s| && KeysAscending(acc)
    ensures r.Ok? ==> p < r.value.next <= |s|
    decreases |s| - p, 2
  {
    match Extract(s, p)
    case None => Err(ParsingError("Parse error"))
    case Some((c, q)) =>
      if c == '}' then Ok(Parsed(Dict(acc), q))
      else PairRest(s, KeyStart(s, (c, q)), acc, toDouble)
  }

  /** The rest of one pass of LoadDict's loop, from where the key is read: the
      key, then the value after one more character taken (not checked), then
      the loop again. */
  function PairRest(s: string, k: nat, acc: seq<Entry>, toDouble: Conversion): (r: Result<Parsed<Node>, Exception>)
    requires k <= |s| && KeysAscending(acc)
    ensures r.Ok? ==> k < r.value.next <= |s|
    decreases |s| - k, 3
  {
    var key :- StringAt(s, k);
    var value :- NodeAt(s, AfterExtract(s, key.next), toDouble);
    DictRest(s, value.next, DictInsert(acc, key.value, value.value), toDouble)
  }

  /** json::Load: the document rooted at the first node of the text; what
      follows that node is not read. */
  function LoadText(s: string, toDouble: Conversion): Result<Document, Exception> {
    var root :- NodeAt(s, 0, toDouble);
    Ok(Document(root.value))
  }

  /** Everything the loaders build is what a std::map-based Dict can hold:
      keys ascend in every dict, at every depth. */
  lemma {:induction false} NodeAtCanonical(s: string, p: nat, toDouble: Conversion)
    requires p <= |s|
    ensures NodeAt(s, p, toDouble).Ok? ==> Canonical(NodeAt(s, p, toDouble).value.value)
    decreases |s| - p, 1
  {
    var e := Extract(s, p);
    if e.Some? {
      var (c, q) := e.value;
      if c == '[' {
        ArrayRestCanonical(s, q, [], toDouble);
      } else if c == '{' {
        DictRestCanonical(s, q, [], toDouble);
      }
    }
  }

  lemma {:induction false} ArrayRestCanonical(s: string, p: nat, acc: seq<Node>, toDouble: Conversion)
    requires p <= |s| && forall i :: 0 <= i < |acc| ==> Canonical(acc[i])
    ensures ArrayRest(s, p, acc, toDouble).Ok? ==> Canonical(ArrayRest(s, p, acc, toDouble).value.value)
    decreases |s| - p, 2
  {
    var e := Extract(s, p);
    if e.Some? && e.value.0 != ']' {
      var start := ElementStart(e.value);
      var item := NodeAt(s, start, toDouble);
      if item.Ok? {
        NodeAtCanonical(s, start, toDouble);
        ArrayRestCanonical(s, item.value.next, acc + [item.value.value], toDouble);
      }
    }
  }

  lemma {:induction false} DictRestCanonical(s: string, p: nat, acc: seq<Entry>, toDouble: Conversion)
    requires p <= |s| && KeysAscending(acc) && forall i :: 0 <= i < |acc| ==> Canonical(acc[i].value)
    ensures DictRest(s, p, acc, toDouble).Ok? ==> Canonical(DictRest(s, p, acc, toDouble).value.value)
    decreases |s| - p, 2
  {
    var e := Extract(s, p);
    if e.Some? && e.value.0 != '}' {
      var key := StringAt(s, KeyStart(s, e.value));
      if key.Ok? {
        var start := AfterExtract(s, key.value.next);
        var value := NodeAt(s, start, toDouble);
        if value.Ok? {
          NodeAtCanonical(s, start, toDouble);
          var entries := DictInsert(acc, key.value.value, value.value.value);
          forall i | 0 <= i < |entries| ensures Canonical(entries[i].value) {
            assert entries[i] in entries;
          }
          DictRestCanonical(s, value.value.next, entries, toDouble);
        }
      }
    }
  }

  /** A loaded document is canonical. */
  lemma LoadTextCanonical(s: string, toDouble: Conversion)
    ensures LoadText(s, toDouble).Ok? ==> Canonical(LoadText(s, toDouble).value.root)
  {
    NodeAtCanonical(s, 0, toDouble);
  }

  // The string loop as written

  /** The loop of LoadString as the source writes it. When the text runs out,
      the check after the loop looks at `last`, the last character the loop
      took, which is unassigned when it took none; a final quote taken as an
      escaped character then passes for the closing quote. */
  function StringRestAsWritten(s: string, p: nat, acc: string, escaped: bool, last: Option<char>): (r: Result<Parsed<string>, Exception>)
    requires p <= |s|
    decreases |s| - p
  {
    if p == |s| then
      if last.None? then Err(Indeterminate)
      else if escaped || last.value != '"' then Err(ParsingError("Failed to read string"))
      else Ok(Parsed(acc, p))
    else
      var c := s[p];
      if !escaped && c == '"' then Ok(Parsed(acc, p + 1))
      else if !escaped then
        if c == '\\' then StringRestAsWritten(s, p + 1, acc, true, Some(c))
        else StringRestAsWritten(s, p + 1, acc + [c], false, Some(c))
      else
        match Unescape(c)
        case None => Err(ParsingError("Uncorrect escape sequence" + CharCodeText(c)))
        case Some(d) => StringRestAsWritten(s, p + 1, acc + [d], false, Some(c))
  }

  /** The document `"abc\"` with nothing after it: LoadNode takes the opening
      quote and, as written, LoadString returns the string `abc"`; the
      corrected loop rejects the document. */
  lemma UnterminatedDocumentAsWritten(toDouble: Conversion)
    ensures Extract("\"abc\\\"", 0) == Some(('"', 1))
    ensures StringRestAsWritten("\"abc\\\"", 1, "", false, None) == Ok(Parsed("abc\"", 6))
    ensures LoadText("\"abc\\\"", toDouble) == Err(ParsingError("Failed to read string"))
  {
    var s := "\"abc\\\"";
    assert FirstNonSpace(s, 0) == 0;
    assert Unescape('"') == Some('"') && "abc" + ['"'] == "abc\"";
    assert "" + ['a'] == "a" && "a" + ['b'] == "ab" && "ab" + ['c'] == "abc";
    assert StringRestAsWritten(s, 1, "", false, None) == StringRestAsWritten(s, 2, "a", false, Some('a'));
    assert StringRestAsWritten(s, 2, "a", false, Some('a')) == StringRestAsWritten(s, 3, "ab", false, Some('b'));
    assert StringRestAsWritten(s, 3, "ab", false, Some('b')) == StringRestAsWritten(s, 4, "abc", false, Some('c'));
    assert StringRestAsWritten(s, 4, "abc", false, Some('c')) == StringRestAsWritten(s, 5, "abc", true, Some('\\'));
    assert StringRestAsWritten(s, 5, "abc", true, Some('\\')) == StringRestAsWritten(s, 6, "abc\"", false, Some('"'));
    assert StringRest(s, 1, "", false) == StringRest(s, 2, "a", false);
    assert StringRest(s, 2, "a", false) == StringRest(s, 3, "ab", false);
    assert StringRest(s, 3, "ab", false) == StringRest(s, 4, "abc", false);
    assert StringRest(s, 4, "abc", false) == StringRest(s, 5, "abc", true);
    assert StringRest(s, 5, "abc", true) == StringRest(s, 6, "abc\"", false);
  }

  /** The two loops agree whenever the corrected one finds its closing quote;
      where only the loop as written succeeds, it has consumed the whole text. */
  lemma {:induction false} StringAsWrittenAgrees(s: string, p: nat, acc: string, escaped: bool, last: Option<char>)
    requires p <= |s|
    ensures StringRest(s, p, acc, escaped).Ok? ==> StringRestAsWritten(s, p, acc, escaped, last) == StringRest(s, p, acc, escaped)
    ensures StringRestAsWritten(s, p, acc, escaped, last).Ok? && StringRest(s, p, acc, escaped).Err? ==>
              StringRestAsWritten(s, p, acc, escaped, last).value.next == |s|
    decreases |s| - p
  {
    if p < |s| {
      var c := s[p];
      if !(!escaped && c == '"') {
        if !escaped {
          if c == '\\' {
            StringAsWrittenAgrees(s, p + 1, acc, true, Some(c));
          } else {
            StringAsWrittenAgrees(s, p + 1, acc + [c], false, Some(c));
          }
        } else if Unescape(c).Some? {
          StringAsWrittenAgrees(s, p + 1, acc + [Unescape(c).value], false, Some(c));
        }
      }
    }
  }

  // The dict loop as written

  /** The loop of LoadDict as the source writes it, with keys and values read
      as LoadString and LoadNode read them. `last` is the character the loop
      took last ('!' before any). When the text runs out, the check after the
      loop looks at `last`, so a pair whose separator was a closing brace
      ends the dict there. */
  function DictRestAsWritten(s: string, p: nat, acc: seq<Entry>, last: char, toDouble: Conversion): (r: Result<Parsed<Node>, Exception>)
    requires p <= |s| && KeysAscending(acc)
    decreases |s| - p
  {
    match Extract(s, p)
    case None => if last == '}' then Ok(Parsed(Dict(acc), |s|)) else Err(ParsingError("Parse error"))
    case Some((c, q)) =>
      if c == '}' then Ok(Parsed(Dict(acc), q))
      else
        var key :- StringAt(s, KeyStart(s, (c, q)));
        match Extract(s, key.next)
        // LoadNode then starts at the end of the text, as NodeAt does
        case None => Err(Indeterminate)
        case Some((separator, _)) =>
          var value :- NodeAt(s, AfterExtract(s, key.next), toDouble);
          DictRestAsWritten(s, value.next, DictInsert(acc, key.value, value.value), separator, toDouble)
  }

  /** The text `{"a"}1`: as written LoadDict takes the brace for the
      separator, reads 1, meets the end of the text with `}` as its last
      character, and returns {"a": 1}. */
  lemma UnclosedDictAsWritten(toDouble: Conversion)
    ensures Extract("{\"a\"}1", 0) == Some(('{', 1))
    ensures DictRestAsWritten("{\"a\"}1", 1, [], '!', toDouble) == Ok(Parsed(Dict([Entry("a", Int(1))]), 6))
  {
    var s := "{\"a\"}1";
    UnclosedDictPair(s, toDouble);
    assert FirstNonSpace(s, 0) == 0 && FirstNonSpace(s, 1) == 1 && FirstNonSpace(s, 4) == 4;
    assert FirstNonSpace(s, 6) == 6;
  }

  /** The corrected loop rejects `{"a"}1`: the text ends before a closing brace. */
  lemma UnclosedDictRejected(toDouble: Conversion)
    ensures LoadText("{\"a\"}1", toDouble) == Err(ParsingError("Parse error"))
  {
    var s := "{\"a\"}1";
    UnclosedDictPair(s, toDouble);
    assert FirstNonSpace(s, 0) == 0 && FirstNonSpace(s, 1) == 1 && FirstNonSpace(s, 4) == 4;
    assert FirstNonSpace(s, 6) == 6;
    assert PairRest(s, 2, [], toDouble) == DictRest(s, 6, [Entry("a", Int(1))], toDouble);
  }

  /** The key and the value of `{"a"}1`. */
  lemma UnclosedDictPair(s: string, toDouble: Conversion)
    requires s == "{\"a\"}1"
    ensures StringAt(s, 2) == Ok(Parsed("a", 4))
    ensures NodeAt(s, 5, toDouble) == Ok(Parsed(Int(1), 6))
    ensures DictInsert([], "a", Int(1)) == [Entry("a", Int(1))]
  {
    assert "" + ['a'] == "a";
    assert StringRest(s, 2, "", false) == StringRest(s, 3, "a", false);
    NumberOne(s, toDouble);
  }

  /** The 1 at the end of `{"a"}1` loads as the int 1. */
  lemma NumberOne(s: string, toDouble: Conversion)
    requires s == "{\"a\"}1"
    ensures NodeAt(s, 5, toDouble) == Ok(Parsed(Int(1), 6))
  {
    assert FirstNonSpace(s, 5) == 5;
    assert DigitsEnd(s, 6) == 6 && DigitsEnd(s, 5) == 6;
    var sh := NumberShape(5, false, 5, 6, false, 6, false, false, 6, 6);
    assert NumberShapeAt(s, 5) == Ok(sh);
    assert s[5..6] == "1";
    assert DigitsValue("1") == 1;
  }

  /** A dict the corrected loop reads ends with its closing brace. */
  lemma {:induction false} DictRestBraced(s: string, p: nat, acc: seq<Entry>, toDouble: Conversion)
    requires p <= |s| && KeysAscending(acc)
    ensures DictRest(s, p, acc, toDouble).Ok? ==> s[DictRest(s, p, acc, toDouble).value.next - 1] == '}'
    decreases |s| - p
  {
    var e := Extract(s, p);
    if e.Some? && e.value.0 != '}' {
      var key := StringAt(s, KeyStart(s, e.value));
      if key.Ok? {
        var value := NodeAt(s, AfterExtract(s, key.value.next), toDouble);
        if value.Ok? {
          var entries := DictInsert(acc, key.value.value, value.value.value);
          DictRestBraced(s, value.value.next, entries, toDouble);
          assert DictRest(s, p, acc, toDouble) == DictRest(s, value.value.next, entries, toDouble);
        }
      }
    }
  }

  /** The two loops agree whenever the corrected one succeeds; where only the
      loop as written succeeds, it has consumed the whole text. */
  lemma {:induction false} DictAsWrittenAgrees(s: string, p: nat, acc: seq<Entry>, last: char, toDouble: Conversion)
    requires p <= |s| && KeysAscending(acc)
    ensures DictRest(s, p, acc, toDouble).Ok? ==> DictRestAsWritten(s, p, acc, last, toDouble) == DictRest(s, p, acc, toDouble)
    ensures DictRestAsWritten(s, p, acc, last, toDouble).Ok? && DictRest(s, p, acc, toDouble).Err? ==>
              DictRestAsWritten(s, p, acc, last, toDouble).value.next == |s|
    decreases |s| - p
  {
    var e := Extract(s, p);
    if e.Some? && e.value.0 != '}' {
      var key := StringAt(s, KeyStart(s, e.value));
      if key.Ok? {
        var sep := Extract(s, key.value.next);
        var value := NodeAt(s, AfterExtract(s, key.value.next), toDouble);
        if sep.Some? && value.Ok? {
          var entries := DictInsert(acc, key.value.value, value.value.value);
          DictAsWrittenAgrees(s, value.value.next, entries, sep.value.0, toDouble);
          assert DictRest(s, p, acc, toDouble) == DictRest(s, value.value.next, entries, toDouble);
        }
      }
    }
  }

  // The loaders with the source's loops

  /** LoadString's loop, with the check after it corrected: the text running
      out before the closing quote is an error, as StringAt has it
      (StringRestAsWritten is the check as written). */
  method LoadString(s: string, p: nat) returns (r: Result<Parsed<string>, Exception>)
    requires p <= |s|
    ensures r == StringAt(s, p)
  {
    var str := "";
    var escaped := false;
    var pos := p;
    while pos < |s| && !(!escaped && s[pos] == '"')
      invariant p <= pos <= |s|
      invariant StringRest(s, pos, str, escaped) == StringAt(s, p)
      decreases |s| - pos
    {
      var c := s[pos];
      pos := pos + 1;
      if !escaped {
        if c == '\\' {
          escaped := true;
        } else {
          str := str + [c];
        }
      } else {
        var d := Unescape(c);
        if d.None? {
          return Err(ParsingError("Uncorrect escape sequence" + CharCodeText(c)));
        }
        str := str + [d.value];
        escaped := false;
      }
    }
    if pos == |s| {
      // the text ran out before the closing quote
      return Err(ParsingError("Failed to read string"));
    }
    r := Ok(Parsed(str, pos + 1));
  }

  /** The loop of LoadNullOrBool: up to n characters taken with `>>`. */
  method LoadWord(s: string, p: nat, n: nat) returns (r: Parsed<string>)
    requires p <= |s|
    ensures r == Word(s, p, n)
  {
    var result := "";
    var pos := p;
    var i := 0;
    while i < n
      invariant 0 <= i <= n && p <= pos <= |s|
      invariant WordRest(s, pos, n - i, result) == Word(s, p, n)
    {
      var c := Extract(s, pos);
      if c.None? {
        return Parsed(result, |s|);
      }
      result := result + [c.value.0];
      pos := c.value.1;
      i := i + 1;
    }
    r := Parsed(result, pos);
  }

  method LoadNullOrBool(s: string, p: nat) returns (r: Result<Parsed<Node>, Exception>)
    requires p <= |s|
    ensures r == NullOrBoolAt(s, p)
  {
    var w := LoadWord(s, p, if PeekIs(s, p, 'f') then 5 else 4);
    if w.value == "null" {
      r := Ok(Parsed(Null, w.next));
    } else if w.value == "true" {
      r := Ok(Parsed(Bool(true), w.next));
    } else if w.value == "false" {
      r := Ok(Parsed(Bool(false), w.next));
    } else {
      r := Err(ParsingError("Failed to read null or bool"));
    }
  }

  /** read_digits as the source writes it: check one digit, then take digits while they last. */
  method LoadDigits(s: string, p: nat) returns (r: Result<nat, Exception>)
    requires p <= |s|
    ensures r == ReadDigits(s, p)
  {
    if !(p < |s| && IsDigit(s[p])) {
      return Err(ParsingError("A digit is expected"));
    }
    var pos := p;
    while pos < |s| && IsDigit(s[pos])
      invariant p <= pos <= |s|
      invariant DigitsEnd(s, pos) == DigitsEnd(s, p)
      decreases |s| - pos
    {
      pos := pos + 1;
    }
    r := Ok(pos);
  }

  method LoadIntegerPart(s: string, start: nat) returns (r: Result<nat, Exception>)
    requires start <= |s|
    ensures r == IntegerEnd(s, start)
  {
    if PeekIs(s, start, '0') {
      r := Ok(start + 1);
    } else {
      r := LoadDigits(s, start);
    }
  }

  method LoadFraction(s: string, intEnd: nat) returns (r: Result<nat, Exception>)
    requires intEnd <= |s|
    ensures r == FractionEnd(s, intEnd)
  {
    if PeekIs(s, intEnd, '.') {
      r := LoadDigits(s, intEnd + 1);
    } else {
      r := Ok(intEnd);
    }
  }

  method LoadExponent(s: string, fracEnd: nat) returns (r: Result<nat, Exception>)
    requires fracEnd <= |s|
    ensures r == ExponentEnd(s, fracEnd)
  {
    if PeekIs(s, fracEnd, 'e') || PeekIs(s, fracEnd, 'E') {
      var pos := fracEnd + 1;
      if PeekIs(s, pos, '+') || PeekIs(s, pos, '-') {
        pos := pos + 1;
      }
      r := LoadDigits(s, pos);
    } else {
      r := Ok(fracEnd);
    }
  }

  method LoadNumber(s: string, p: nat, toDouble: Conversion) returns (r: Result<Parsed<Node>, Exception>)
    requires p <= |s|
    ensures r == NumberAt(s, p, toDouble)
  {
    var negative := PeekIs(s, p, '-');
    var start := if negative then p + 1 else p;
    var intEnd := LoadIntegerPart(s, start);
    if intEnd.Err? {
      return Err(intEnd.error);
    }
    var fracEnd := LoadFraction(s, intEnd.value);
    if fracEnd.Err? {
      return Err(fracEnd.error);
    }
    var end := LoadExponent(s, fracEnd.value);
    if end.Err? {
      return Err(end.error);
    }
    var hasExponent := HasExponent(s, fracEnd.value);
    var shape := NumberShape(p, negative, start, intEnd.value, PeekIs(s, intEnd.value, '.'), fracEnd.value, hasExponent,
                             hasExponent && PeekIs(s, fracEnd.value + 1, '-'),
                             if hasExponent then ExponentStart(s, fracEnd.value) else fracEnd.value, end.value);
    assert NumberShapeAt(s, p) == Ok(shape);
    NumberShapeSpec(s, p);
    var n := NumberValue(s, shape, toDouble);
    if n.Err? {
      return Err(n.error);
    }
    r := Ok(Parsed(n.value, end.value));
  }

  method LoadNode(s: string, p: nat, toDouble: Conversion) returns (r: Result<Parsed<Node>, Exception>)
    requires p <= |s|
    ensures r == NodeAt(s, p, toDouble)
    decreases |s| - p, 1
  {
    var c := Extract(s, p);
    if c.None? {
      return Err(Indeterminate);
    }
    var (ch, q) := c.value;
    if ch == '[' {
      r := LoadArray(s, q, toDouble);
    } else if ch == '{' {
      r := LoadDict(s, q, toDouble);
    } else if ch == '"' {
      var str := LoadString(s, q);
      if str.Err? {
        return Err(str.error);
      }
      r := Ok(Parsed(String(str.value.value), str.value.next));
    } else if ch == 'n' || ch == 't' || ch == 'f' {
      r := LoadNullOrBool(s, q - 1);
    } else {
      r := LoadNumber(s, q - 1, toDouble);
    }
  }

  method LoadArray(s: string, p: nat, toDouble: Conversion) returns (r: Result<Parsed<Node>, Exception>)
    requires p <= |s|
    ensures r == ArrayRest(s, p, [], toDouble)
    decreases |s| - p, 2
  {
    var result: seq<Node> := [];
    var pos := p;
    while true
      invariant p <= pos <= |s|
      invariant ArrayRest(s, pos, result, toDouble) == ArrayRest(s, p, [], toDouble)
      decreases |s| - pos
    {
      var c := Extract(s, pos);
      if c.None? {
        return Err(ParsingError("Miss ']' at the end"));
      }
      if c.value.0 == ']' {
        return Ok(Parsed(Array(result), c.value.1));
      }
      var item := LoadNode(s, ElementStart(c.value), toDouble);
      if item.Err? {
        return Err(item.error);
      }
      result := result + [item.value.value];
      pos := item.value.next;
    }
  }

  /** LoadDict's loop, with the check after it corrected: the text running
      out before the closing brace is an error, as DictRest has it
      (DictRestAsWritten is the check as written). */
  method LoadDict(s: string, p: nat, toDouble: Conversion) returns (r: Result<Parsed<Node>, Exception>)
    requires p <= |s|
    ensures r == DictRest(s, p, [], toDouble)
    decreases |s| - p, 2
  {
    var result: seq<Entry> := [];
    var pos := p;
    while true
      invariant p <= pos <= |s| && KeysAscending(result)
      invariant DictRest(s, pos, result, toDouble) == DictRest(s, p, [], toDouble)
      decreases |s| - pos
    {
      var c := Extract(s, pos);
      if c.None? {
        return Err(ParsingError("Parse error"));
      }
      var (ch, q) := c.value;
      if ch == '}' {
        return Ok(Parsed(Dict(result), q));
      }
      var keyStart := if ch == ',' then AfterExtract(s, q) else q;
      assert keyStart == KeyStart(s, (ch, q));
      var key := LoadString(s, keyStart);
      if key.Err? {
        return Err(key.error);
      }
      var value := LoadNode(s, AfterExtract(s, key.value.next), toDouble);
      if value.Err? {
        return Err(value.error);
      }
      result := DictInsert(result, key.value.value, value.value.value);
      pos := value.value.next;
    }
  }

  method Load(s: string, toDouble: Conversion) returns (r: Result<Document, Exception>)
    ensures r == LoadText(s, toDouble)
  {
    var root := LoadNode(s, 0, toDouble);
    if root.Err? {
      return Err(root.error);
    }
    r := Ok(Document(root.value.value));
  }
}
