/** svg.h / svg.cpp: the text the SVG objects write. Everything here is a
    value; how `out << double` writes a double is a parameter, `num`. */
module Svg {
  import opened Wrappers
  import opened Chars
  import opened Numerals

  /** uint8_t, the colour channels. */
  type Byte = x: int | 0 <= x < 0x100

  /** uint32_t, the font size of a text. */
  type UInt32 = x: int | 0 <= x < 0x1_0000_0000

  datatype StrokeLineCap = Butt | Round | Square

  datatype StrokeLineJoin = Arcs | Bevel | Miter | MiterClip | RoundJoin

  /** operator<< for StrokeLineCap. */
  function LineCapName(cap: StrokeLineCap): string {
    match cap
    case Butt => "butt"
    case Round => "round"
    case Square => "square"
  }

  /** operator<< for StrokeLineJoin. */
  function LineJoinName(join: StrokeLineJoin): string {
    match join
    case Arcs => "arcs"
    case Bevel => "bevel"
    case Miter => "miter"
    case MiterClip => "miter-clip"
    case RoundJoin => "round"
  }

  /** The cap a stroke-linecap value names: the reading of LineCapName. The
      program has no such reader; it exists to state StrokeNamesRead. */
  function LineCapNamed(name: string): (r: Option<StrokeLineCap>)
    ensures r.Some? ==> LineCapName(r.value) == name
  {
    if name == "butt" then Some(Butt)
    else if name == "round" then Some(Round)
    else if name == "square" then Some(Square)
    else None
  }

  /** The join a stroke-linejoin value names: the reading of LineJoinName. The
      program has no such reader; it exists to state StrokeNamesRead. */
  function LineJoinNamed(name: string): (r: Option<StrokeLineJoin>)
    ensures r.Some? ==> LineJoinName(r.value) == name
  {
    if name == "arcs" then Some(Arcs)
    else if name == "bevel" then Some(Bevel)
    else if name == "miter" then Some(Miter)
    else if name == "miter-clip" then Some(MiterClip)
    else if name == "round" then Some(RoundJoin)
    else None
  }

  /** Every cap and every join is written under a name of its own, so the
      attribute value tells which one was set. */
  lemma StrokeNamesRead(cap: StrokeLineCap, join: StrokeLineJoin)
    ensures LineCapNamed(LineCapName(cap)) == Some(cap)
    ensures LineJoinNamed(LineJoinName(join)) == Some(join)
  {
  }

  datatype Point = Point(x: real, y: real)

  /** Rgb; the default colour is black. */
  datatype Rgb = Rgb(red: Byte, green: Byte, blue: Byte)

  /** Rgba; by default black and opaque. */
  datatype Rgba = Rgba(red: Byte, green: Byte, blue: Byte, opacity: real)

  const DefaultRgb := Rgb(0, 0, 0)
  const DefaultRgba := Rgba(0, 0, 0, 1.0)

  /** Color: std::monostate, a colour name, Rgb or Rgba. */
  datatype Color = NoColor | Named(name: string) | RgbColor(rgb: Rgb) | RgbaColor(rgba: Rgba)

  /** NoneColor: the name "none". */
  const NoneColor := Named("none")

  /** ColorPrintVariants: what visiting a colour writes. The channels are
      written as unsigned decimal numbers, the opacity as a double. */
  function ColorText(color: Color, num: real -> string): string {
    match color
    case NoColor => "none"
    case Named(name) => name
    case RgbColor(c) => RgbText(c)
    case RgbaColor(c) =>
      "rgba(" + NatToString(c.red) + "," + NatToString(c.green) + "," + NatToString(c.blue) + "," + num(c.opacity) + ")"
  }

  /** The Rgb alternative: the three channels in decimal. */
  function RgbText(c: Rgb): string {
    "rgb(" + NatToString(c.red) + "," + NatToString(c.green) + "," + NatToString(c.blue) + ")"
  }

  /** The empty variant and NoneColor are written alike; a name is written as it is. */
  lemma NoColorIsNone(num: real -> string)
    ensures ColorText(NoColor, num) == ColorText(NoneColor, num) == "none"
    ensures forall name :: ColorText(Named(name), num) == name
  {
  }

  /** Two digit runs each followed by the same non-digit split alike. */
  lemma {:induction false} DigitsSplit(x: string, y: string, x': string, y': string, c: char)
    requires AllDigits(x) && AllDigits(x') && !IsDigit(c)
    requires x + [c] + y == x' + [c] + y'
    ensures x == x' && y == y'
  {
    var t := x + [c] + y;
    DigitsThenStop(x, c, y);
    DigitsThenStop(x', c, y');
    assert |x| == |x'|;
    assert x == t[..|x|] == x';
    assert y == t[|x| + 1..] == y';
  }

  /** In a digit run followed by a non-digit, the first non-digit stands just after the run. */
  lemma DigitsThenStop(x: string, c: char, y: string)
    requires AllDigits(x) && !IsDigit(c)
    ensures forall i :: 0 <= i < |x| ==> IsDigit((x + [c] + y)[i])
    ensures !IsDigit((x + [c] + y)[|x|])
  {
  }

  /** NatToString writes no two numbers alike. */
  lemma NatToStringInjective(a: nat, b: nat)
    requires NatToString(a) == NatToString(b)
    ensures a == b
  {
    assert DigitsValue(NatToString(a)) == a;
  }

  lemma RgbTextParts(c: Rgb)
    ensures RgbText(c) == "rgb(" + (NatToString(c.red) + [','] + (NatToString(c.green) + [','] + (NatToString(c.blue) + [')'])))
  {
  }

  lemma PrefixCancel(p: string, x: string, y: string)
    requires p + x == p + y
    ensures x == y
  {
    assert x == (p + x)[|p|..];
  }

  /** An rgb() colour is written so that its three channels can be read back:
      two rgb colours with the same text are the same colour. */
  lemma RgbTextInjective(a: Rgb, b: Rgb)
    requires RgbText(a) == RgbText(b)
    ensures a == b
  {
    var ra, ga, ba := NatToString(a.red), NatToString(a.green), NatToString(a.blue);
    var rb, gb, bb := NatToString(b.red), NatToString(b.green), NatToString(b.blue);
    var xa := ra + [','] + (ga + [','] + (ba + [')']));
    var xb := rb + [','] + (gb + [','] + (bb + [')']));
    RgbTextParts(a);
    RgbTextParts(b);
    PrefixCancel("rgb(", xa, xb);
    DigitsSplit(ra, ga + [','] + (ba + [')']), rb, gb + [','] + (bb + [')']), ',');
    DigitsSplit(ga, ba + [')'], gb, bb + [')'], ',');
    DigitsSplit(ba, [], bb, [], ')');
    NatToStringInjective(a.red, b.red);
    NatToStringInjective(a.green, b.green);
    NatToStringInjective(a.blue, b.blue);
  }

  // Path attributes

  /** The five optional fields of PathProps; an unset field is None. */
  datatype PathAttrs = PathAttrs(
    fillColor: Option<Color>,
    strokeColor: Option<Color>,
    strokeWidth: Option<real>,
    strokeLineCap: Option<StrokeLineCap>,
    strokeLineJoin: Option<StrokeLineJoin>)

  /** A new object has none of them set. */
  const NoAttrs := PathAttrs(None, None, None, None, None)

  /** The names of the path attributes, in the order RenderAttrs writes them. */
  const AttrNames: seq<string> := ["fill", "stroke", "stroke-width", "stroke-linecap", "stroke-linejoin"]

  /** Whether field i (in AttrNames order) is set. */
  predicate IsSet(a: PathAttrs, i: nat) {
    match i
    case 0 => a.fillColor.Some?
    case 1 => a.strokeColor.Some?
    case 2 => a.strokeWidth.Some?
    case 3 => a.strokeLineCap.Some?
    case 4 => a.strokeLineJoin.Some?
    case _ => false
  }

  /** What RenderAttrs writes as the value of field i, when the field is set. */
  function AttrValue(a: PathAttrs, i: nat, num: real -> string): (r: Option<string>)
    ensures r.Some? <==> IsSet(a, i)
  {
    match i
    case 0 => if a.fillColor.Some? then Some(ColorText(a.fillColor.value, num)) else None
    case 1 => if a.strokeColor.Some? then Some(ColorText(a.strokeColor.value, num)) else None
    case 2 => if a.strokeWidth.Some? then Some(num(a.strokeWidth.value)) else None
    case 3 => if a.strokeLineCap.Some? then Some(LineCapName(a.strokeLineCap.value)) else None
    case 4 => if a.strokeLineJoin.Some? then Some(LineJoinName(a.strokeLineJoin.value)) else None
    case _ => None
  }

  /** The attributes RenderAttrs writes from field i on, as name and value:
      one `if` after another in field order. */
  function AttrsFrom(a: PathAttrs, i: nat, num: real -> string): seq<(string, string)>
    requires i <= |AttrNames|
    decreases |AttrNames| - i
  {
    if i == |AttrNames| then []
    else
      var head := match AttrValue(a, i, num) case Some(v) => [(AttrNames[i], v)] case None => [];
      head + AttrsFrom(a, i + 1, num)
  }

  /** The fields from i on that are set, in field order. */
  function SetFields(a: PathAttrs, i: nat): seq<nat>
    requires i <= |AttrNames|
    decreases |AttrNames| - i
  {
    if i == |AttrNames| then [] else (if IsSet(a, i) then [i] else []) + SetFields(a, i + 1)
  }

  /** One attribute with its leading space: ` name="value"`. */
  function Attribute(name: string, value: string): string {
    " " + name + "=\"" + value + "\""
  }

  /** The attributes written one after another. */
  function AttributesText(attrs: seq<(string, string)>): string
    decreases |attrs|
  {
    if attrs == [] then "" else Attribute(attrs[0].0, attrs[0].1) + AttributesText(attrs[1..])
  }

  /** RenderAttrs: the attributes that are set, each with a leading space. */
  function RenderAttrs(a: PathAttrs, num: real -> string): string {
    AttributesText(AttrsFrom(a, 0, num))
  }

  /** attrs is what RenderAttrs writes for the fields listed in fields: one
      attribute per field, with that field's name and value. */
  predicate WrittenFor(a: PathAttrs, num: real -> string, attrs: seq<(string, string)>, fields: seq<nat>) {
    && |attrs| == |fields|
    && forall k :: 0 <= k < |fields| ==>
      && fields[k] < |AttrNames|
      && attrs[k].0 == AttrNames[fields[k]]
      && Some(attrs[k].1) == AttrValue(a, fields[k], num)
  }

  lemma WrittenForAppend(a: PathAttrs, num: real -> string,
                         attrs: seq<(string, string)>, fields: seq<nat>,
                         attrs': seq<(string, string)>, fields': seq<nat>)
    requires WrittenFor(a, num, attrs, fields) && WrittenFor(a, num, attrs', fields')
    ensures WrittenFor(a, num, attrs + attrs', fields + fields')
  {
    forall k | |fields| <= k < |fields + fields'|
      ensures (attrs + attrs')[k] == attrs'[k - |fields|] && (fields + fields')[k] == fields'[k - |fields|]
    {
    }
  }

  /** RenderAttrs writes one attribute for each field that is set, in field
      order: attribute k is the name and value of the k-th set field. */
  lemma {:induction false} AttrsFromFields(a: PathAttrs, i: nat, num: real -> string)
    requires i <= |AttrNames|
    ensures WrittenFor(a, num, AttrsFrom(a, i, num), SetFields(a, i))
    decreases |AttrNames| - i
  {
    if i < |AttrNames| {
      AttrsFromFields(a, i + 1, num);
      var v := AttrValue(a, i, num);
      var head: seq<(string, string)> := if v.Some? then [(AttrNames[i], v.value)] else [];
      var headFields: seq<nat> := if v.Some? then [i] else [];
      assert WrittenFor(a, num, head, headFields);
      WrittenForAppend(a, num, head, headFields, AttrsFrom(a, i + 1, num), SetFields(a, i + 1));
    }
  }

  /** The set fields from i on are listed in increasing order, exactly once
      each, and no field that is unset is listed: so the order attributes
      are written in is fixed, whatever order the setters ran in. */
  lemma {:induction false} SetFieldsRange(a: PathAttrs, i: nat)
    requires i <= |AttrNames|
    ensures FieldsFrom(SetFields(a, i), i)
    decreases |AttrNames| - i
  {
    if i < |AttrNames| {
      SetFieldsRange(a, i + 1);
      FieldsFromCons(IsSet(a, i), SetFields(a, i + 1), i);
    }
  }

  /** Field numbers from i on, strictly ascending. */
  predicate FieldsFrom(fields: seq<nat>, i: nat) {
    && (forall k :: 0 <= k < |fields| ==> i <= fields[k] < |AttrNames|)
    && (forall k, l :: 0 <= k < l < |fields| ==> fields[k] < fields[l])
  }

  lemma FieldsFromCons(isSet: bool, rest: seq<nat>, i: nat)
    requires i < |AttrNames| && FieldsFrom(rest, i + 1)
    ensures FieldsFrom((if isSet then [i] else []) + rest, i)
  {
    var head := if isSet then [i] else [];
    forall k | 0 <= k < |head + rest| ensures i <= (head + rest)[k] < |AttrNames| {
      if k >= |head| {
        assert (head + rest)[k] == rest[k - |head|];
      }
    }
    forall k, l | 0 <= k < l < |head + rest| ensures (head + rest)[k] < (head + rest)[l] {
      assert (head + rest)[l] == rest[l - |head|];
      if k >= |head| {
        assert (head + rest)[k] == rest[k - |head|];
      }
    }
  }

  /** A field from i on is listed exactly when it is set. */
  lemma {:induction false} SetFieldsMembers(a: PathAttrs, i: nat)
    requires i <= |AttrNames|
    ensures forall f :: i <= f < |AttrNames| ==> (IsSet(a, f) <==> f in SetFields(a, i))
    decreases |AttrNames| - i
  {
    if i < |AttrNames| {
      SetFieldsMembers(a, i + 1);
      SetFieldsRange(a, i + 1);
    }
  }

  /** Nothing set, nothing written. */
  lemma NoAttrsWritten(num: real -> string)
    ensures RenderAttrs(NoAttrs, num) == ""
  {
    AttrsFromFields(NoAttrs, 0, num);
    SetFieldsMembers(NoAttrs, 0);
  }
}
