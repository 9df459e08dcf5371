/** svg.h / svg.cpp: the objects of an SVG document, the text each of them
    writes, and the document that writes them one per line. */
module SvgObjects {
  import opened Wrappers
  import opened Numerals
  import opened Svg

  // Indentation

  /** RenderContext: the indentation step and the current indentation. */
  datatype RenderContext = RenderContext(indentStep: int, indent: int)
  {
    /** Indented: one step deeper, with the same step. */
    function Indented(): (r: RenderContext)
      ensures r.indentStep == indentStep
      ensures r.indent - indent == indentStep
    {
      RenderContext(indentStep, indent + indentStep)
    }
  }

  /** The spaces RenderIndent writes for an indentation of n: none when n is
      not positive, since the loop then does not run. */
  function Spaces(n: int): (r: string)
    ensures |r| == (if n > 0 then n else 0)
    ensures forall i :: 0 <= i < |r| ==> r[i] == ' '
    decreases n
  {
    if n <= 0 then "" else Spaces(n - 1) + " "
  }

  /** RenderIndent: a space for each unit of the current indentation. */
  method RenderIndent(context: RenderContext) returns (out: string)
    ensures out == Spaces(context.indent)
  {
    out := "";
    var i := 0;
    while i < context.indent
      invariant 0 <= i && out == Spaces(i)
      invariant context.indent > 0 ==> i <= context.indent
      invariant context.indent <= 0 ==> i == 0
    {
      out := out + " ";
      i := i + 1;
    }
  }

  // The objects

  /** What Document holds for each object: the fields of a Circle, a Polyline
      or a Text, with the path attributes each one has. */
  datatype Shape =
    | CircleShape(center: Point, radius: real, attrs: PathAttrs)
    | PolylineShape(points: seq<Point>, attrs: PathAttrs)
    | TextShape(pos: Point, offset: Point, size: UInt32, fontFamily: string,
                fontWeight: string, data: string, attrs: PathAttrs)

  /** One polyline point: x, a comma, y. */
  function PointText(p: Point, num: real -> string): string {
    num(p.x) + "," + num(p.y)
  }

  /** The points of a polyline, with one space between neighbours. */
  function PointsText(points: seq<Point>, num: real -> string): string
    decreases |points|
  {
    if points == [] then ""
    else if |points| == 1 then PointText(points[0], num)
    else PointsText(points[..|points| - 1], num) + " " + PointText(points[|points| - 1], num)
  }

  /** The loop in Polyline::RenderObject: each point, then a space unless it
      is the last one. */
  method RenderPoints(points: seq<Point>, num: real -> string) returns (out: string)
    ensures out == PointsText(points, num)
  {
    out := "";
    var i := 0;
    while i < |points|
      invariant 0 <= i <= |points|
      invariant out == PointsText(points[..i], num) + (if 0 < i < |points| then " " else "")
    {
      out := out + PointText(points[i], num);
      if i != |points| - 1 {
        out := out + " ";
      }
      assert points[..i + 1][..i] == points[..i];
      i := i + 1;
    }
    assert points[..i] == points;
  }

  /** How often c occurs in s. */
  function Occurrences(c: char, s: string): nat
    decreases |s|
  {
    if s == [] then 0 else (if s[0] == c then 1 else 0) + Occurrences(c, s[1..])
  }

  lemma {:induction false} OccurrencesConcat(c: char, a: string, b: string)
    ensures Occurrences(c, a + b) == Occurrences(c, a) + Occurrences(c, b)
    decreases |a|
  {
    if a == [] {
      assert a + b == b;
    } else {
      assert (a + b)[0] == a[0] && (a + b)[1..] == a[1..] + b;
      OccurrencesConcat(c, a[1..], b);
    }
  }

  /** num never writes a space. */
  ghost predicate NoSpaces(num: real -> string) {
    forall x :: Occurrences(' ', num(x)) == 0
  }

  /** Points are separated by single spaces: n points hold n - 1 spaces, so
      none leads, none trails and no two stand together, as long as the
      numbers themselves hold none. */
  lemma {:induction false} PointsSeparated(points: seq<Point>, num: real -> string)
    requires NoSpaces(num)
    ensures Occurrences(' ', PointsText(points, num)) == if points == [] then 0 else |points| - 1
    decreases |points|
  {
    if points != [] {
      var last := points[|points| - 1];
      PointNoSpaces(last, num);
      if |points| > 1 {
        var front := points[..|points| - 1];
        PointsSeparated(front, num);
        assert Occurrences(' ', " ") == 1 by { assert " "[1..] == []; }
        OccurrencesConcat(' ', PointsText(front, num), " ");
        OccurrencesConcat(' ', PointsText(front, num) + " ", PointText(last, num));
      }
    }
  }

  lemma PointNoSpaces(p: Point, num: real -> string)
    requires NoSpaces(num)
    ensures Occurrences(' ', PointText(p, num)) == 0
  {
    assert Occurrences(' ', num(p.x)) == 0 && Occurrences(' ', num(p.y)) == 0;
    assert Occurrences(' ', ",") == 0 by { assert ","[1..] == []; }
    OccurrencesConcat(' ', num(p.x), ",");
    OccurrencesConcat(' ', num(p.x) + ",", num(p.y));
  }

  // Text data

  /** The characters XML markup is made of, which Text escapes. */
  predicate Markup(c: char) {
    c == '"' || c == '\'' || c == '<' || c == '>' || c == '&'
  }

  /** The switch in Text::RenderObject: a markup character becomes its
      entity, any other character stays as it is. */
  function EscapedChar(c: char): (r: string)
    ensures |r| > 0 && (Markup(c) ==> r[0] == '&')
    ensures !Markup(c) ==> r == [c]
  {
    match c
    case '"' => "&quot;"
    case '\'' => "&apos;"
    case '<' => "&lt;"
    case '>' => "&gt;"
    case '&' => "&amp;"
    case _ => [c]
  }

  /** The text written for data, character by character. */
  function Escaped(data: string): string
    decreases |data|
  {
    if data == [] then "" else EscapedChar(data[0]) + Escaped(data[1..])
  }

  lemma {:induction false} EscapedSnoc(data: string, c: char)
    ensures Escaped(data + [c]) == Escaped(data) + EscapedChar(c)
    decreases |data|
  {
    if data == [] {
      assert [c][1..] == [];
    } else {
      assert (data + [c])[1..] == data[1..] + [c];
      EscapedSnoc(data[1..], c);
    }
  }

  /** The loop over data_ in Text::RenderObject. */
  method RenderData(data: string) returns (out: string)
    ensures out == Escaped(data)
  {
    out := "";
    var i := 0;
    while i < |data|
      invariant 0 <= i <= |data|
      invariant out == Escaped(data[..i])
    {
      EscapedSnoc(data[..i], data[i]);
      assert data[..i + 1] == data[..i] + [data[i]];
      out := out + EscapedChar(data[i]);
      i := i + 1;
    }
    assert data[..i] == data;
  }

  /** What an XML reader makes of the escaped text: each of the five
      entities stands for its character, and all else for itself. */
  function Unescaped(s: string): string
    decreases |s|
  {
    if s == [] then ""
    else if StartsWith(s, "&quot;") then "\"" + Unescaped(s[6..])
    else if StartsWith(s, "&apos;") then "'" + Unescaped(s[6..])
    else if StartsWith(s, "&lt;") then "<" + Unescaped(s[4..])
    else if StartsWith(s, "&gt;") then ">" + Unescaped(s[4..])
    else if StartsWith(s, "&amp;") then "&" + Unescaped(s[5..])
    else [s[0]] + Unescaped(s[1..])
  }

  predicate StartsWith(s: string, w: string) {
    |w| <= |s| && s[..|w|] == w
  }

  lemma StartsWithPrefix(w: string, rest: string)
    ensures StartsWith(w + rest, w) && (w + rest)[|w|..] == rest
  {
    assert (w + rest)[..|w|] == w;
  }

  /** s starts with a character other than an ampersand, so with no entity. */
  lemma NoEntity(s: string)
    requires s != [] && s[0] != '&'
    ensures Unescaped(s) == [s[0]] + Unescaped(s[1..])
  {
    NotEntity(s, "&quot;", 0);
    NotEntity(s, "&apos;", 0);
    NotEntity(s, "&lt;", 0);
    NotEntity(s, "&gt;", 0);
    NotEntity(s, "&amp;", 0);
  }

  /** s starts with the character at k of w, where it differs from the
      character at k of the entity e. */
  lemma NotEntity(s: string, e: string, k: nat)
    requires k < |s| && k < |e| && s[k] != e[k]
    ensures !StartsWith(s, e)
  {
    if |e| <= |s| { assert s[..|e|][k] == s[k]; }
  }

  /** One escaped character, then the rest: it reads back as that character. */
  lemma UnescapedStep(c: char, rest: string)
    ensures Unescaped(EscapedChar(c) + rest) == [c] + Unescaped(rest)
  {
    var e := EscapedChar(c);
    var s := e + rest;
    StartsWithPrefix(e, rest);
    if !Markup(c) {
      assert s[0] == c && s[1..] == rest;
      NoEntity(s);
    } else if c == '\'' {
      NotEntity(s, "&quot;", 1);
    } else if c == '<' {
      NotEntity(s, "&quot;", 1);
      NotEntity(s, "&apos;", 1);
    } else if c == '>' {
      NotEntity(s, "&quot;", 1);
      NotEntity(s, "&apos;", 1);
      NotEntity(s, "&lt;", 1);
    } else if c == '&' {
      NotEntity(s, "&quot;", 1);
      NotEntity(s, "&apos;", 2);
      NotEntity(s, "&lt;", 1);
      NotEntity(s, "&gt;", 1);
    }
  }

  /** Reading the text back gives the data. */
  lemma {:induction false} UnescapedEscaped(data: string)
    ensures Unescaped(Escaped(data)) == data
    decreases |data|
  {
    if data != [] {
      UnescapedStep(data[0], Escaped(data[1..]));
      UnescapedEscaped(data[1..]);
    }
  }

  /** The text holds no quote, apostrophe or angle bracket, so it cannot end
      the element or begin a tag, and every ampersand in it begins an entity. */
  lemma {:induction false} EscapedSafe(data: string)
    ensures forall i :: 0 <= i < |Escaped(data)| ==> !Markup(Escaped(data)[i]) || Escaped(data)[i] == '&'
    decreases |data|
  {
    if data != [] {
      EscapedSafe(data[1..]);
      var e, rest := EscapedChar(data[0]), Escaped(data[1..]);
      assert forall i :: 0 <= i < |e| ==> !Markup(e[i]) || e[i] == '&';
      assert forall i :: |e| <= i < |e + rest| ==> (e + rest)[i] == rest[i - |e|];
    }
  }

  // RenderObject

  /** An attribute written only when its value is not empty. */
  function OptionalAttribute(name: string, value: string): (r: string)
    ensures value == [] ==> r == []
    ensures value != [] ==> r == Attribute(name, value)
  {
    if value == [] then "" else Attribute(name, value)
  }

  /** Circle::RenderObject: centre and radius, then the path attributes. */
  function CircleText(center: Point, radius: real, attrs: PathAttrs, num: real -> string): string {
    "<circle cx=\"" + num(center.x) + "\" cy=\"" + num(center.y) + "\" "
    + "r=\"" + num(radius) + "\" " + RenderAttrs(attrs, num) + "/>"
  }

  /** Polyline::RenderObject: the points, then the path attributes. */
  function PolylineText(points: seq<Point>, attrs: PathAttrs, num: real -> string): string {
    "<polyline points=\"" + PointsText(points, num) + "\"" + RenderAttrs(attrs, num) + "/>"
  }

  /** The opening tag of a text up to its font size: the path attributes
      come first, then position, offset and size. */
  function TextHead(pos: Point, offset: Point, size: UInt32, attrs: PathAttrs, num: real -> string): string {
    "<text" + RenderAttrs(attrs, num)
    + " x=\"" + num(pos.x) + "\" y=\"" + num(pos.y) + "\" dx=\"" + num(offset.x)
    + "\" dy=\"" + num(offset.y) + "\" font-size=\"" + NatToString(size) + "\""
  }

  /** Text::RenderObject: the font attributes that are not empty, after the
      size; then the escaped data and the closing tag. */
  function TextText(pos: Point, offset: Point, size: UInt32, family: string, weight: string,
                    data: string, attrs: PathAttrs, num: real -> string): string {
    TextHead(pos, offset, size, attrs, num)
    + OptionalAttribute("font-family", family) + OptionalAttribute("font-weight", weight)
    + ">" + Escaped(data) + "</text>"
  }

  /** The text RenderObject writes for each kind of object. */
  function ShapeText(shape: Shape, num: real -> string): string {
    match shape
    case CircleShape(center, radius, attrs) => CircleText(center, radius, attrs, num)
    case PolylineShape(points, attrs) => PolylineText(points, attrs, num)
    case TextShape(pos, offset, size, family, weight, data, attrs) =>
      TextText(pos, offset, size, family, weight, data, attrs, num)
  }

  method RenderCircle(center: Point, radius: real, attrs: PathAttrs, num: real -> string) returns (out: string)
    ensures out == CircleText(center, radius, attrs, num)
  {
    out := "<circle cx=\"" + num(center.x) + "\" cy=\"" + num(center.y) + "\" ";
    out := out + "r=\"" + num(radius) + "\" ";
    out := out + RenderAttrs(attrs, num);
    out := out + "/>";
  }

  method RenderPolyline(points: seq<Point>, attrs: PathAttrs, num: real -> string) returns (out: string)
    ensures out == PolylineText(points, attrs, num)
  {
    var body := RenderPoints(points, num);
    out := "<polyline points=\"" + body + "\"";
    out := out + RenderAttrs(attrs, num);
    out := out + "/>";
  }

  method RenderText(pos: Point, offset: Point, size: UInt32, family: string, weight: string,
                    data: string, attrs: PathAttrs, num: real -> string) returns (out: string)
    ensures out == TextText(pos, offset, size, family, weight, data, attrs, num)
  {
    out := TextHead(pos, offset, size, attrs, num);
    if family != [] {
      out := out + Attribute("font-family", family);
    }
    assert out == TextHead(pos, offset, size, attrs, num) + OptionalAttribute("font-family", family);
    if weight != [] {
      out := out + Attribute("font-weight", weight);
    }
    assert out == TextHead(pos, offset, size, attrs, num) + OptionalAttribute("font-family", family)
      + OptionalAttribute("font-weight", weight);
    out := out + ">";
    var text := RenderData(data);
    out := out + text + "</text>";
  }

  /** RenderObject, dispatched on the kind of object. */
  method RenderObject(shape: Shape, num: real -> string) returns (out: string)
    ensures out == ShapeText(shape, num)
  {
    match shape
    case CircleShape(center, radius, attrs) =>
      out := RenderCircle(center, radius, attrs, num);
    case PolylineShape(points, attrs) =>
      out := RenderPolyline(points, attrs, num);
    case TextShape(pos, offset, size, family, weight, data, attrs) =>
      out := RenderText(pos, offset, size, family, weight, data, attrs, num);
  }

  /** Object::Render: the indentation, the object, and the end of the line. */
  function ObjectLine(context: RenderContext, shape: Shape, num: real -> string): string {
    Spaces(context.indent) + ShapeText(shape, num) + "\n"
  }

  method RenderLine(context: RenderContext, shape: Shape, num: real -> string) returns (out: string)
    ensures out == ObjectLine(context, shape, num)
  {
    out := RenderIndent(context);
    var text := RenderObject(shape, num);
    out := out + text + "\n";
  }

  // The document

  const XmlDeclaration := "<?xml version=\"1.0\" encoding=\"UTF-8\" ?>"
  const SvgOpen := "<svg xmlns=\"http://www.w3.org/2000/svg\" version=\"1.1\">"
  const SvgClose := "</svg>"

  /** The two lines every document starts with. */
  const DocumentHead := XmlDeclaration + "\n" + SvgOpen + "\n"

  /** The context Document::Render writes its objects in. */
  const DocumentContext := RenderContext(2, 2)

  /** The texts one after another. */
  function Concat(texts: seq<string>): string
    decreases |texts|
  {
    if texts == [] then "" else Concat(texts[..|texts| - 1]) + texts[|texts| - 1]
  }

  lemma Associative(a: string, b: string, c: string)
    ensures a + b + c == a + (b + c)
  {
  }

  lemma {:induction false} ConcatAppend(a: seq<string>, b: seq<string>)
    ensures Concat(a + b) == Concat(a) + Concat(b)
    decreases |b|
  {
    if b == [] {
      assert a + b == a;
    } else {
      var ab, front := a + b, b[..|b| - 1];
      assert ab[..|ab| - 1] == a + front && ab[|ab| - 1] == b[|b| - 1];
      ConcatAppend(a, front);
      Associative(Concat(a), Concat(front), b[|b| - 1]);
    }
  }

  /** The text each object gives, in the order of the objects. */
  function Texts(objects: seq<Shape>, text: Shape -> string): (r: seq<string>)
    ensures |r| == |objects|
    ensures forall i :: 0 <= i < |objects| ==> r[i] == text(objects[i])
  {
    seq(|objects|, i requires 0 <= i < |objects| => text(objects[i]))
  }

  lemma ConcatSnoc(texts: seq<string>, text: string)
    ensures Concat(texts + [text]) == Concat(texts) + text
  {
    assert (texts + [text])[..|texts|] == texts;
  }

  lemma TextsSnoc(objects: seq<Shape>, i: nat, text: Shape -> string)
    requires i < |objects|
    ensures Texts(objects[..i + 1], text) == Texts(objects[..i], text) + [text(objects[i])]
  {
  }

  /** Object::Render in a given context, as a function of the object. */
  function LineIn(context: RenderContext, num: real -> string): Shape -> string {
    shape => ObjectLine(context, shape, num)
  }

  /** Document::Render: the two head lines, each object on a line of its own,
      and the closing tag with no newline after it. */
  function DocumentText(objects: seq<Shape>, num: real -> string): string {
    DocumentHead + Concat(Texts(objects, LineIn(DocumentContext, num))) + SvgClose
  }

  /** Object k stands on a line of its own, after the lines of the objects
      before it and before the lines of those after it. */
  lemma TextsAt(objects: seq<Shape>, k: nat, text: Shape -> string)
    requires k < |objects|
    ensures Concat(Texts(objects, text))
      == Concat(Texts(objects[..k], text)) + text(objects[k]) + Concat(Texts(objects[k + 1..], text))
  {
    var all := Texts(objects, text);
    var before, after := Texts(objects[..k], text), Texts(objects[k + 1..], text);
    assert all == before + [all[k]] + after;
    ConcatAppend(before + [all[k]], after);
    ConcatAppend(before, [all[k]]);
    assert [all[k]][..0] == [];
  }

  /** In a document every object is indented by two spaces. */
  lemma DocumentIndent(shape: Shape, num: real -> string)
    ensures ObjectLine(DocumentContext, shape, num) == "  " + ShapeText(shape, num) + "\n"
  {
    assert Spaces(2) == "  ";
  }

  /** A document with no objects is the two head lines and the closing tag. */
  lemma EmptyDocument(num: real -> string)
    ensures DocumentText([], num) == XmlDeclaration + "\n" + SvgOpen + "\n" + SvgClose
  {
  }

  // The classes

  class Circle {
    var center: Point
    var radius: real
    var attrs: PathAttrs

    function Value(): Shape
      reads this
    {
      CircleShape(center, radius, attrs)
    }

    constructor()
      ensures Value() == CircleShape(Point(0.0, 0.0), 1.0, NoAttrs)
    {
      center, radius, attrs := Point(0.0, 0.0), 1.0, NoAttrs;
    }

    method SetCenter(p: Point) returns (self: Circle)
      modifies this
      ensures self == this && center == p
      ensures radius == old(radius) && attrs == old(attrs)
    {
      center := p;
      self := this;
    }

    method SetRadius(r: real) returns (self: Circle)
      modifies this
      ensures self == this && radius == r
      ensures center == old(center) && attrs == old(attrs)
    {
      radius := r;
      self := this;
    }

    method SetFillColor(color: Color) returns (self: Circle)
      modifies this
      ensures self == this && attrs == old(attrs).(fillColor := Some(color))
      ensures center == old(center) && radius == old(radius)
    {
      attrs := attrs.(fillColor := Some(color));
      self := this;
    }

    method SetStrokeColor(color: Color) returns (self: Circle)
      modifies this
      ensures self == this && attrs == old(attrs).(strokeColor := Some(color))
      ensures center == old(center) && radius == old(radius)
    {
      attrs := attrs.(strokeColor := Some(color));
      self := this;
    }

    method SetStrokeWidth(width: real) returns (self: Circle)
      modifies this
      ensures self == this && attrs == old(attrs).(strokeWidth := Some(width))
      ensures center == old(center) && radius == old(radius)
    {
      attrs := attrs.(strokeWidth := Some(width));
      self := this;
    }

    method SetStrokeLineCap(cap: StrokeLineCap) returns (self: Circle)
      modifies this
      ensures self == this && attrs == old(attrs).(strokeLineCap := Some(cap))
      ensures center == old(center) && radius == old(radius)
    {
      attrs := attrs.(strokeLineCap := Some(cap));
      self := this;
    }

    method SetStrokeLineJoin(join: StrokeLineJoin) returns (self: Circle)
      modifies this
      ensures self == this && attrs == old(attrs).(strokeLineJoin := Some(join))
      ensures center == old(center) && radius == old(radius)
    {
      attrs := attrs.(strokeLineJoin := Some(join));
      self := this;
    }
  }

  class Polyline {
    var points: seq<Point>
    var attrs: PathAttrs

    function Value(): Shape
      reads this
    {
      PolylineShape(points, attrs)
    }

    constructor()
      ensures Value() == PolylineShape([], NoAttrs)
    {
      points, attrs := [], NoAttrs;
    }

    method AddPoint(p: Point) returns (self: Polyline)
      modifies this
      ensures self == this && points == old(points) + [p]
      ensures attrs == old(attrs)
    {
      points := points + [p];
      self := this;
    }

    method SetFillColor(color: Color) returns (self: Polyline)
      modifies this
      ensures self == this && attrs == old(attrs).(fillColor := Some(color))
      ensures points == old(points)
    {
      attrs := attrs.(fillColor := Some(color));
      self := this;
    }

    method SetStrokeColor(color: Color) returns (self: Polyline)
      modifies this
      ensures self == this && attrs == old(attrs).(strokeColor := Some(color))
      ensures points == old(points)
    {
      attrs := attrs.(strokeColor := Some(color));
      self := this;
    }

    method SetStrokeWidth(width: real) returns (self: Polyline)
      modifies this
      ensures self == this && attrs == old(attrs).(strokeWidth := Some(width))
      ensures points == old(points)
    {
      attrs := attrs.(strokeWidth := Some(width));
      self := this;
    }

    method SetStrokeLineCap(cap: StrokeLineCap) returns (self: Polyline)
      modifies this
      ensures self == this && attrs == old(attrs).(strokeLineCap := Some(cap))
      ensures points == old(points)
    {
      attrs := attrs.(strokeLineCap := Some(cap));
      self := this;
    }

    method SetStrokeLineJoin(join: StrokeLineJoin) returns (self: Polyline)
      modifies this
      ensures self == this && attrs == old(attrs).(strokeLineJoin := Some(join))
      ensures points == old(points)
    {
      attrs := attrs.(strokeLineJoin := Some(join));
      self := this;
    }
  }

  class Text {
    var data: string
    var fontWeight: string
    var fontFamily: string
    var size: UInt32
    var offset: Point
    var pos: Point
    var attrs: PathAttrs

    function Value(): Shape
      reads this
    {
      TextShape(pos, offset, size, fontFamily, fontWeight, data, attrs)
    }

    constructor()
      ensures Value() == TextShape(Point(0.0, 0.0), Point(0.0, 0.0), 1, "", "", "", NoAttrs)
    {
      data, fontWeight, fontFamily, size := "", "", "", 1;
      offset, pos, attrs := Point(0.0, 0.0), Point(0.0, 0.0), NoAttrs;
    }

    method SetData(d: string) returns (self: Text)
      modifies this
      ensures self == this && data == d
      ensures fontWeight == old(fontWeight) && fontFamily == old(fontFamily) && size == old(size) && offset == old(offset) && pos == old(pos) && attrs == old(attrs)
    {
      data := d;
      self := this;
    }

    method SetPosition(p: Point) returns (self: Text)
      modifies this
      ensures self == this && pos == p
      ensures data == old(data) && fontWeight == old(fontWeight) && fontFamily == old(fontFamily) && size == old(size) && offset == old(offset) && attrs == old(attrs)
    {
      pos := p;
      self := this;
    }

    method SetOffset(p: Point) returns (self: Text)
      modifies this
      ensures self == this && offset == p
      ensures data == old(data) && fontWeight == old(fontWeight) && fontFamily == old(fontFamily) && size == old(size) && pos == old(pos) && attrs == old(attrs)
    {
      offset := p;
      self := this;
    }

    method SetFontSize(s: UInt32) returns (self: Text)
      modifies this
      ensures self == this && size == s
      ensures data == old(data) && fontWeight == old(fontWeight) && fontFamily == old(fontFamily) && offset == old(offset) && pos == old(pos) && attrs == old(attrs)
    {
      size := s;
      self := this;
    }

    method SetFontFamily(family: string) returns (self: Text)
      modifies this
      ensures self == this && fontFamily == family
      ensures data == old(data) && fontWeight == old(fontWeight) && size == old(size) && offset == old(offset) && pos == old(pos) && attrs == old(attrs)
    {
      fontFamily := family;
      self := this;
    }

    method SetFontWeight(weight: string) returns (self: Text)
      modifies this
      ensures self == this && fontWeight == weight
      ensures data == old(data) && fontFamily == old(fontFamily) && size == old(size) && offset == old(offset) && pos == old(pos) && attrs == old(attrs)
    {
      fontWeight := weight;
      self := this;
    }

    method SetFillColor(color: Color) returns (self: Text)
      modifies this
      ensures self == this && attrs == old(attrs).(fillColor := Some(color))
      ensures data == old(data) && fontWeight == old(fontWeight) && fontFamily == old(fontFamily) && size == old(size) && offset == old(offset) && pos == old(pos)
    {
      attrs := attrs.(fillColor := Some(color));
      self := this;
    }

    method SetStrokeColor(color: Color) returns (self: Text)
      modifies this
      ensures self == this && attrs == old(attrs).(strokeColor := Some(color))
      ensures data == old(data) && fontWeight == old(fontWeight) && fontFamily == old(fontFamily) && size == old(size) && offset == old(offset) && pos == old(pos)
    {
      attrs := attrs.(strokeColor := Some(color));
      self := this;
    }

    method SetStrokeWidth(width: real) returns (self: Text)
      modifies this
      ensures self == this && attrs == old(attrs).(strokeWidth := Some(width))
      ensures data == old(data) && fontWeight == old(fontWeight) && fontFamily == old(fontFamily) && size == old(size) && offset == old(offset) && pos == old(pos)
    {
      attrs := attrs.(strokeWidth := Some(width));
      self := this;
    }

    method SetStrokeLineCap(cap: StrokeLineCap) returns (self: Text)
      modifies this
      ensures self == this && attrs == old(attrs).(strokeLineCap := Some(cap))
      ensures data == old(data) && fontWeight == old(fontWeight) && fontFamily == old(fontFamily) && size == old(size) && offset == old(offset) && pos == old(pos)
    {
      attrs := attrs.(strokeLineCap := Some(cap));
      self := this;
    }

    method SetStrokeLineJoin(join: StrokeLineJoin) returns (self: Text)
      modifies this
      ensures self == this && attrs == old(attrs).(strokeLineJoin := Some(join))
      ensures data == old(data) && fontWeight == old(fontWeight) && fontFamily == old(fontFamily) && size == old(size) && offset == old(offset) && pos == old(pos)
    {
      attrs := attrs.(strokeLineJoin := Some(join));
      self := this;
    }
  }

  /** Document: the objects in the order they were added. */
  class Document {
    var objects: seq<Shape>

    constructor()
      ensures objects == []
    {
      objects := [];
    }

    /** ObjectContainer::Add: a copy of the object goes to the back. */
    method Add(obj: Shape)
      modifies this
      ensures objects == old(objects) + [obj]
    {
      objects := objects + [obj];
    }

    /** Document::AddPtr: the object goes to the back. */
    method AddPtr(obj: Shape)
      modifies this
      ensures objects == old(objects) + [obj]
    {
      objects := objects + [obj];
    }

    method Render(num: real -> string) returns (out: string)
      ensures out == DocumentText(objects, num)
    {
      out := XmlDeclaration + "\n";
      out := out + SvgOpen + "\n";
      var context := RenderContext(2, 2);
      var i := 0;
      while i < |objects|
        invariant 0 <= i <= |objects|
        invariant out == DocumentHead + Concat(Texts(objects[..i], LineIn(context, num)))
      {
        var line := RenderLine(context, objects[i], num);
        TextsSnoc(objects, i, LineIn(context, num));
        ConcatSnoc(Texts(objects[..i], LineIn(context, num)), line);
        Associative(DocumentHead, Concat(Texts(objects[..i], LineIn(context, num))), line);
        out := out + line;
        i := i + 1;
      }
      assert objects[..i] == objects;
      out := out + SvgClose;
    }
  }
}
