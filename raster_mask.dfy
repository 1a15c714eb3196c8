/** test.py: the raster-mask builder. Its number parsing (parse_floats, parse_viewbox,
    parse_size), the canvas it sizes (get_canvas), the mapping of drawing coordinates to pixels
    (map_point), the guards of draw_polygon and draw_polyline, the tokens of a path
    (path_tokens) and the M/L/H/V/Z walker of draw_path_simple. The drawing calls are not
    modelled: the model yields the pixel lists the script hands to them. */
module RasterMask {
  import opened Wrappers
  import opened Lex
  import SvgDoc

  type ViewBox = SvgDoc.ViewBox

  /** `root.get(name)` */
  function Get(attrs: map<string, string>, name: string): Option<string>
  {
    if name in attrs then Some(attrs[name]) else None
  }

  // ---------------------------------------------------------------- parse_floats

  /** float() of each part, in order, leaving out the parts it rejects. */
  function ReadParts(parts: seq<string>, read: string -> Option<real>): seq<real>
    decreases |parts|
  {
    if parts == [] then []
    else
      var init := ReadParts(parts[..|parts| - 1], read);
      match read(parts[|parts| - 1])
      case Some(v) => init + [v]
      case None => init
  }

  /** parse_floats: no text gives no numbers; otherwise commas become spaces, the text is split
      at whitespace (str.split() yields no empty part) and float() is applied to every part, the
      parts it rejects being dropped. */
  function Floats(s: Option<string>, read: string -> Option<real>): seq<real>
  {
    match s
    case None => []
    case Some(t) => ReadParts(Split(ReplaceChar(t, ',', ' ')), read)
  }

  /** The loop of parse_floats, appending to `out` every part float() accepts. */
  method ParseFloats(s: Option<string>, read: string -> Option<real>) returns (out: seq<real>)
    ensures out == Floats(s, read)
  {
    if s.None? {
      return [];
    }
    var parts := Split(ReplaceChar(s.value, ',', ' '));
    out := [];
    var i := 0;
    while i < |parts|
      invariant 0 <= i <= |parts|
      invariant out == ReadParts(parts[..i], read)
    {
      assert parts[..i + 1][..i] == parts[..i];
      match read(parts[i]) {
        case Some(v) =>
          out := out + [v];
        case None =>
      }
      i := i + 1;
    }
    assert parts[..i] == parts;
  }

  /** The numbers of two runs of parts are those of the first run, then those of the second. */
  lemma {:induction false} ReadPartsConcat(a: seq<string>, b: seq<string>, read: string -> Option<real>)
    ensures ReadParts(a + b, read) == ReadParts(a, read) + ReadParts(b, read)
    decreases |b|
  {
    if b != [] {
      var init, x := b[..|b| - 1], b[|b| - 1];
      assert (a + b)[..|a + b| - 1] == a + init;
      assert (a + b)[|a + b| - 1] == x;
      ReadPartsConcat(a, init, read);
      match read(x) {
        case Some(v) =>
          assert ReadParts(a + b, read) == ReadParts(a + init, read) + [v];
          assert ReadParts(b, read) == ReadParts(init, read) + [v];
        case None =>
      }
    } else {
      assert a + b == a;
    }
  }

  /** A part float() rejects is dropped, and the numbers around it keep their order. */
  lemma RejectedPartDropped(a: seq<string>, p: string, b: seq<string>, read: string -> Option<real>)
    requires read(p).None?
    ensures ReadParts(a + [p] + b, read) == ReadParts(a, read) + ReadParts(b, read)
  {
    ReadPartsConcat(a + [p], b, read);
    ReadPartsConcat(a, [p], read);
    assert [p][..0] == [];
  }

  /** When every part reads, there is one number per part: the value of that part. */
  lemma {:induction false} ReadPartsAll(parts: seq<string>, read: string -> Option<real>)
    requires forall i :: 0 <= i < |parts| ==> read(parts[i]).Some?
    ensures |ReadParts(parts, read)| == |parts|
    ensures forall i :: 0 <= i < |parts| ==> ReadParts(parts, read)[i] == read(parts[i]).value
    decreases |parts|
  {
    if parts != [] {
      ReadPartsAll(parts[..|parts| - 1], read);
    }
  }

  /** A comma separates two numbers exactly as a space does. */
  lemma CommaIsSeparator(a: string, b: string, read: string -> Option<real>)
    ensures Floats(Some(a + "," + b), read) == Floats(Some(a + " " + b), read)
  {
    var s, t := a + "," + b, a + " " + b;
    assert forall i :: 0 <= i < |s| ==> (s[i] == ',' || s[i] == t[i]) && (t[i] == ' ' || t[i] == s[i]);
    assert ReplaceChar(s, ',', ' ') == ReplaceChar(t, ',', ' ');
  }

  function Texts(ns: seq<Numeral>): (r: seq<string>)
    ensures |r| == |ns| && forall k :: 0 <= k < |ns| ==> r[k] == ns[k].Text()
  {
    seq(|ns|, k requires 0 <= k < |ns| => ns[k].Text())
  }

  function Values(ns: seq<Numeral>): (r: seq<real>)
    ensures |r| == |ns| && forall k :: 0 <= k < |ns| ==> r[k] == ns[k].Value()
  {
    seq(|ns|, k requires 0 <= k < |ns| => ns[k].Value())
  }

  /** Numbers written out with single spaces between them are read back, all of them, in order. */
  lemma FloatsOfNumerals(ns: seq<Numeral>)
    requires forall k :: 0 <= k < |ns| ==> ns[k].Valid()
    ensures Floats(Some(Join(Texts(ns), " ")), ParseFloat) == Values(ns)
  {
    var ws := Texts(ns);
    forall k | 0 <= k < |ws|
      ensures IsWord(ws[k]) && (forall i :: 0 <= i < |ws[k]| ==> ws[k][i] != ',')
      ensures ParseFloat(ws[k]) == Some(ns[k].Value())
    {
      SvgDoc.NumeralIsWord(ns[k]);
      SvgDoc.NumeralHasNoLetters(ns[k], ',');
      ParseFloatNumeral(ns[k]);
    }
    JoinWithout(ws, " ", ',');
    var text := Join(ws, " ");
    assert ReplaceChar(text, ',', ' ') == text;
    SplitJoin(ws);
    ReadPartsAll(ws, ParseFloat);
  }

  /** Words and a separator without the character `c` join into a text without it. */
  lemma {:induction false} JoinWithout(ws: seq<string>, sep: string, c: char)
    requires forall k :: 0 <= k < |ws| ==> forall i :: 0 <= i < |ws[k]| ==> ws[k][i] != c
    requires forall i :: 0 <= i < |sep| ==> sep[i] != c
    ensures forall i :: 0 <= i < |Join(ws, sep)| ==> Join(ws, sep)[i] != c
    decreases |ws|
  {
    if |ws| > 1 {
      JoinWithout(ws[1..], sep, c);
      var rest := Join(ws[1..], sep);
      forall i | 0 <= i < |ws[0] + sep + rest|
        ensures (ws[0] + sep + rest)[i] != c
      {
        if i >= |ws[0]| + |sep| {
          assert (ws[0] + sep + rest)[i] == rest[i - |ws[0]| - |sep|];
        }
      }
    }
  }

  // ---------------------------------------------------------------- parse_viewbox

  /** `root.get("viewBox") or root.get("viewbox")`: the first when present and not empty. */
  function ViewBoxAttribute(attrs: map<string, string>): Option<string>
  {
    if "viewBox" in attrs && attrs["viewBox"] != "" then Some(attrs["viewBox"]) else Get(attrs, "viewbox")
  }

  /** parse_viewbox: a viewBox exactly when the attribute text holds four numbers, and then
      those four numbers in order. */
  function ParseViewBox(attrs: map<string, string>, read: string -> Option<real>): (r: Option<ViewBox>)
    ensures r.Some? <==> |Floats(ViewBoxAttribute(attrs), read)| == 4
    ensures r.Some? ==> [r.value.x, r.value.y, r.value.width, r.value.height] == Floats(ViewBoxAttribute(attrs), read)
  {
    var t := ViewBoxAttribute(attrs);
    if t.None? || t.value == "" then
      assert Split(ReplaceChar("", ',', ' ')) == [];
      None
    else
      var nums := Floats(t, read);
      if |nums| == 4 then Some(SvgDoc.ViewBox(nums[0], nums[1], nums[2], nums[3])) else None
  }

  /** A viewBox attribute holding four numbers separated by spaces is read back as those four. */
  lemma ViewBoxOfNumerals(attrs: map<string, string>, x: Numeral, y: Numeral, w: Numeral, h: Numeral)
    requires x.Valid() && y.Valid() && w.Valid() && h.Valid()
    requires "viewBox" in attrs && attrs["viewBox"] == Join([x.Text(), y.Text(), w.Text(), h.Text()], " ")
    ensures ParseViewBox(attrs, ParseFloat) == Some(SvgDoc.ViewBox(x.Value(), y.Value(), w.Value(), h.Value()))
  {
    var ns := [x, y, w, h];
    assert Texts(ns) == [x.Text(), y.Text(), w.Text(), h.Text()];
    assert attrs["viewBox"] != "" by {
      assert |attrs["viewBox"]| >= |x.Text()| > 0;
    }
    FloatsOfNumerals(ns);
  }

  // ---------------------------------------------------------------- parse_size

  predicate IsUnitChar(c: char) { IsAsciiLetter(c) || c == '%' }

  /** Length of the run of `[a-zA-Z%]` that starts `s`. */
  function UnitRun(s: string): (n: nat)
    ensures n <= |s|
  {
    if s != [] && IsUnitChar(s[0]) then 1 + UnitRun(s[1..]) else 0
  }

  /** The regex `^\s*([0-9]*\.?[0-9]+)\s*([a-zA-Z%]*)\s*$` on `s`: the value of the first group
      and the text of the second. What follows the number holds no digit and no '.', so the
      number is the longest match of its group and the match is unique. */
  function SizeMatch(s: string): Option<(real, string)>
  {
    var t := LStrip(s);
    match RegexDecimal(t)
    case None => None
    case Some(m) =>
      var rest := LStrip(t[m.len..]);
      var u := UnitRun(rest);
      if LStrip(rest[u..]) == [] then Some((m.value, rest[..u])) else None
  }

  /** parse_size: the pixel size of a width or height attribute, or `fallback` when there is
      none, the text is not a number and a unit, or the unit is unknown. */
  function ParseSize(value: Option<string>, fallback: Option<int>): Option<int>
  {
    if value.None? then fallback
    else match SizeMatch(Strip(value.value))
      case None => fallback
      case Some((num, u)) => Convert(num, Lower(u), fallback)
  }

  /** The number of pixels `num` of the lower-cased `unit` make, at 96 pixels to the inch,
      rounded; `fallback` for a unit the script does not know. */
  function Convert(num: real, unit: string, fallback: Option<int>): Option<int>
  {
    if unit == "" || unit == "px" then Some(RoundHalfEven(num))
    else if unit == "pt" then Some(RoundHalfEven(num * 96.0 / 72.0))
    else if unit == "mm" then Some(RoundHalfEven(num * 96.0 / 25.4))
    else if unit == "cm" then Some(RoundHalfEven(num * 96.0 / 2.54))
    else if unit == "in" then Some(RoundHalfEven(num * 96.0))
    else fallback
  }

  /** An unsigned number followed by a unit converts at 96 pixels to the inch, whatever the
      case of the unit, and is rounded to the nearest pixel; any other unit gives the fallback. */
  lemma SizeOfNumber(n: Numeral, unit: string, fallback: Option<int>)
    requires n.Valid() && !n.negative
    requires forall i :: 0 <= i < |unit| ==> IsUnitChar(unit[i])
    ensures var v, u, r := n.Value(), Lower(unit), ParseSize(Some(n.Text() + unit), fallback);
      && (u == "" || u == "px" ==> r == Some(RoundHalfEven(v)))
      && (u == "pt" ==> r == Some(RoundHalfEven(v * 96.0 / 72.0)))
      && (u == "mm" ==> r == Some(RoundHalfEven(v * 96.0 / 25.4)))
      && (u == "cm" ==> r == Some(RoundHalfEven(v * 96.0 / 2.54)))
      && (u == "in" ==> r == Some(RoundHalfEven(v * 96.0)))
      && (u != "" && u != "px" && u != "pt" && u != "mm" && u != "cm" && u != "in" ==> r == fallback)
  {
    SizeText(n, unit);
    assert ParseSize(Some(n.Text() + unit), fallback) == Convert(n.Value(), Lower(unit), fallback);
  }

  /** The text of a number and a unit is already stripped, and matches as that number and unit. */
  lemma SizeText(n: Numeral, unit: string)
    requires n.Valid() && !n.negative
    requires forall i :: 0 <= i < |unit| ==> IsUnitChar(unit[i])
    ensures Strip(n.Text() + unit) == n.Text() + unit
    ensures SizeMatch(n.Text() + unit) == Some((n.Value(), unit))
  {
    var t := n.Text();
    NumeralUnsignedStart(n);
    StrippedSizeText(t, unit);
    RegexUnsignedNumeral(n, unit);
    UnitMatch(t + unit, |t|, unit);
  }

  /** A text that starts with a digit and ends with a digit or a unit character has no
      whitespace to strip. */
  lemma StrippedSizeText(t: string, unit: string)
    requires t != [] && IsDigit(t[0]) && IsDigit(t[|t| - 1])
    requires forall i :: 0 <= i < |unit| ==> IsUnitChar(unit[i])
    ensures LStrip(t + unit) == t + unit && Strip(t + unit) == t + unit
  {
    var s := t + unit;
    assert s[0] == t[0];
    assert s[|s| - 1] == if unit == [] then t[|t| - 1] else unit[|unit| - 1];
    LStripNoLeadingSpace(s);
    RStripNoTrailingSpace(s);
  }

  /** After a number of length `k`, a run of unit characters to the end is taken as the unit. */
  lemma UnitMatch(s: string, k: nat, unit: string)
    requires k <= |s| && s[k..] == unit && LStrip(s) == s
    requires forall i :: 0 <= i < |unit| ==> IsUnitChar(unit[i])
    requires RegexDecimal(s).Some? && RegexDecimal(s).value.len == k
    ensures SizeMatch(s) == Some((RegexDecimal(s).value.value, unit))
  {
    LStripNoLeadingSpace(unit);
    UnitRunAll(unit);
    assert unit[|unit|..] == [] && unit[..|unit|] == unit;
  }

  /** The text of a non-negative numeral starts and ends with a digit. */
  lemma NumeralUnsignedStart(n: Numeral)
    requires n.Valid() && !n.negative
    ensures n.Text() == n.Unsigned() && IsDigit(n.Text()[0]) && IsDigit(n.Text()[|n.Text()| - 1])
  {
    var u := n.Unsigned();
    assert u[0] == n.whole[0];
    if n.frac == [] {
      assert u == n.whole;
    } else {
      assert u[|u| - 1] == n.frac[|n.frac| - 1];
    }
  }

  lemma {:induction false} UnitRunAll(u: string)
    requires forall i :: 0 <= i < |u| ==> IsUnitChar(u[i])
    ensures UnitRun(u) == |u|
    decreases |u|
  {
    if u != [] {
      UnitRunAll(u[1..]);
    }
  }

  /** Text that does not start, after whitespace, with a digit or a point (a negative size,
      "auto", nothing) gives the fallback. */
  lemma SizeWithoutNumber(t: string, fallback: Option<int>)
    requires Strip(t) == [] || (!IsDigit(Strip(t)[0]) && Strip(t)[0] != '.')
    ensures ParseSize(Some(t), fallback) == fallback
  {
    LStripNoLeadingSpace(Strip(t));
  }

  // ---------------------------------------------------------------- get_canvas

  datatype Canvas = Canvas(width: int, height: int, box: ViewBox)

  /** A side before the viewBox is consulted: the size passed in, else the parsed attribute. */
  function GivenSide(given: Option<int>, attrs: map<string, string>, name: string): Option<int>
  {
    if given.Some? then given else ParseSize(Get(attrs, name), None)
  }

  /** `int(round(side * num / den))`: the side that keeps the ratio `num / den` to `side`,
      rounded to the nearest pixel. */
  function Proportional(side: int, num: real, den: real): (r: int)
    requires den != 0.0
    ensures side as real * num / den - 0.5 <= r as real <= side as real * num / den + 0.5
  {
    RoundHalfEven(side as real * num / den)
  }

  /** What get_canvas promises, given the two sides before the viewBox is consulted and the
      parsed viewBox: a side that is missing is derived from the other through the viewBox's
      aspect ratio, or is the viewBox's own when both are missing, or 1024 when there is no
      viewBox; a missing viewBox is the rectangle of the image. Deriving a side divides by a
      viewBox side, which raises ZeroDivisionError when that side is zero. */
  predicate CanvasFrom(w: Option<int>, h: Option<int>, vb: Option<ViewBox>, r: Result<Canvas>)
  {
    && (r.Failure? <==> vb.Some? && ((w.None? && h.Some? && vb.value.height == 0.0) || (w.Some? && h.None? && vb.value.width == 0.0)))
    && (r.Failure? ==> r.error == ZeroDivisionError)
    && (r.Success? ==> Fitted(w, h, vb, r.value))
  }

  predicate Fitted(w: Option<int>, h: Option<int>, vb: Option<ViewBox>, c: Canvas)
    requires vb.Some? && w.None? && h.Some? ==> vb.value.height != 0.0
    requires vb.Some? && w.Some? && h.None? ==> vb.value.width != 0.0
  {
    && (w.Some? ==> c.width == w.value)
    && (h.Some? ==> c.height == h.value)
    && (w.None? && vb.Some? ==>
          c.width == if h.None? then RoundHalfEven(vb.value.width)
                     else Proportional(h.value, vb.value.width, vb.value.height))
    && (h.None? && vb.Some? ==>
          c.height == if w.None? then RoundHalfEven(vb.value.height)
                      else Proportional(w.value, vb.value.height, vb.value.width))
    && (vb.None? ==>
          && c.width == (if w.None? then 1024 else w.value)
          && c.height == (if h.None? then 1024 else h.value)
          && c.box == SvgDoc.ViewBox(0.0, 0.0, c.width as real, c.height as real))
    && (vb.Some? ==> c.box == vb.value)
  }

  /** get_canvas: the image size and the viewBox it shows. A width or height passed in
      overrides the attribute's. */
  method GetCanvas(attrs: map<string, string>, width: Option<int>, height: Option<int>,
                   read: string -> Option<real>) returns (r: Result<Canvas>)
    ensures CanvasFrom(GivenSide(width, attrs, "width"), GivenSide(height, attrs, "height"), ParseViewBox(attrs, read), r)
  {
    var w := ParseSize(Get(attrs, "width"), None);
    var h := ParseSize(Get(attrs, "height"), None);
    if width.Some? {
      w := width;
    }
    if height.Some? {
      h := height;
    }
    assert w == GivenSide(width, attrs, "width") && h == GivenSide(height, attrs, "height");
    var vb := ParseViewBox(attrs, read);
    r := FitCanvas(w, h, vb);
  }

  /** The rest of get_canvas, once the sides and the viewBox are parsed. */
  method FitCanvas(w0: Option<int>, h0: Option<int>, vb: Option<ViewBox>) returns (r: Result<Canvas>)
    ensures CanvasFrom(w0, h0, vb, r)
  {
    var w, h := w0, h0;
    if (w.None? || h.None?) && vb.Some? {
      var vbW, vbH := vb.value.width, vb.value.height;
      if w.None? && h.None? {
        w := Some(RoundHalfEven(vbW));
        h := Some(RoundHalfEven(vbH));
      } else if w.None? {
        if vbH == 0.0 {
          return Failure(ZeroDivisionError);
        }
        w := Some(Proportional(h.value, vbW, vbH));
      } else {
        if vbW == 0.0 {
          return Failure(ZeroDivisionError);
        }
        h := Some(Proportional(w.value, vbH, vbW));
      }
    }
    if w.None? {
      w := Some(1024);
    }
    if h.None? {
      h := Some(1024);
    }
    var box := if vb.None? then SvgDoc.ViewBox(0.0, 0.0, w.value as real, h.value as real) else vb.value;
    r := Success(Canvas(w.value, h.value, box));
  }

  // ---------------------------------------------------------------- map_point

  datatype Point = Point(x: real, y: real)

  /** map_point: the pixel position of a drawing coordinate; ZeroDivisionError for a viewBox of
      zero width or height. */
  function MapPoint(x: real, y: real, vb: ViewBox, outW: int, outH: int): (r: Result<Point>)
    ensures r.Failure? <==> vb.width == 0.0 || vb.height == 0.0
  {
    if vb.width == 0.0 || vb.height == 0.0 then Failure(ZeroDivisionError)
    else Success(Point((x - vb.x) / vb.width * outW as real, (y - vb.y) / vb.height * outH as real))
  }

  /** The viewBox's top-left corner goes to the image's origin and its bottom-right corner to
      the image's far corner. */
  lemma MapCorners(vb: ViewBox, outW: int, outH: int)
    requires vb.width != 0.0 && vb.height != 0.0
    ensures MapPoint(vb.x, vb.y, vb, outW, outH) == Success(Point(0.0, 0.0))
    ensures MapPoint(vb.Right(), vb.Bottom(), vb, outW, outH) == Success(Point(outW as real, outH as real))
  {
    assert (vb.Right() - vb.x) / vb.width == 1.0;
    assert (vb.Bottom() - vb.y) / vb.height == 1.0;
  }

  /** The drawing coordinate a pixel position stands for. */
  function UnmapPoint(p: Point, vb: ViewBox, outW: int, outH: int): Point
    requires outW != 0 && outH != 0
  {
    Point(vb.x + p.x / outW as real * vb.width, vb.y + p.y / outH as real * vb.height)
  }

  /** Mapping loses nothing: on a non-empty image the coordinate is recovered from its pixel. */
  lemma MapInverse(x: real, y: real, vb: ViewBox, outW: int, outH: int)
    requires vb.width != 0.0 && vb.height != 0.0 && outW != 0 && outH != 0
    ensures UnmapPoint(MapPoint(x, y, vb, outW, outH).value, vb, outW, outH) == Point(x, y)
  {
    var p := MapPoint(x, y, vb, outW, outH).value;
    Rescaled(x - vb.x, vb.width, outW as real);
    Rescaled(y - vb.y, vb.height, outH as real);
  }

  lemma Rescaled(d: real, side: real, out: real)
    requires side != 0.0 && out != 0.0
    ensures d / side * out / out * side == d
  {
  }

  /** With a viewBox and an image of positive size, left-to-right and top-to-bottom order is kept. */
  lemma MapKeepsOrder(x1: real, y1: real, x2: real, y2: real, vb: ViewBox, outW: int, outH: int)
    requires vb.width > 0.0 && vb.height > 0.0 && outW > 0 && outH > 0
    ensures var p, q := MapPoint(x1, y1, vb, outW, outH).value, MapPoint(x2, y2, vb, outW, outH).value;
      (x1 < x2 ==> p.x < q.x) && (y1 < y2 ==> p.y < q.y)
  {
    Scaled(x1 - vb.x, x2 - vb.x, vb.width, outW as real);
    Scaled(y1 - vb.y, y2 - vb.y, vb.height, outH as real);
  }

  lemma Scaled(a: real, b: real, side: real, out: real)
    requires side > 0.0 && out > 0.0
    ensures a < b ==> a / side * out < b / side * out
  {
    if a < b {
      assert a / side < b / side;
    }
  }

  // ---------------------------------------------------------------- draw_polygon / draw_polyline

  /** `[map_point(points[i], points[i + 1]) for i in range(0, len(points), 2)]`, pair by pair:
      IndexError when the last number has no partner. */
  function MapPairs(points: seq<real>, vb: ViewBox, outW: int, outH: int): Result<seq<Point>>
    decreases |points|
  {
    if points == [] then Success([])
    else if |points| == 1 then Failure(IndexError)
    else match MapPoint(points[0], points[1], vb, outW, outH)
      case Failure(e) => Failure(e)
      case Success(p) =>
        match MapPairs(points[2..], vb, outW, outH)
        case Failure(e) => Failure(e)
        case Success(ps) => Success([p] + ps)
  }

  /** On a viewBox of positive area an even count of numbers gives one pixel per pair, and an
      odd count raises IndexError; on a flat viewBox any pair raises ZeroDivisionError. */
  lemma {:induction false} MapPairsMeaning(points: seq<real>, vb: ViewBox, outW: int, outH: int)
    ensures var r := MapPairs(points, vb, outW, outH);
      vb.width != 0.0 && vb.height != 0.0 && |points| % 2 == 0 ==>
        && r.Success? && 2 * |r.value| == |points|
        && forall k :: 0 <= k < |r.value| ==> r.value[k] == MapPoint(points[2 * k], points[2 * k + 1], vb, outW, outH).value
    ensures vb.width != 0.0 && vb.height != 0.0 && |points| % 2 == 1 ==> MapPairs(points, vb, outW, outH) == Failure(IndexError)
    ensures (vb.width == 0.0 || vb.height == 0.0) && |points| >= 2 ==> MapPairs(points, vb, outW, outH) == Failure(ZeroDivisionError)
    decreases |points|
  {
    if |points| >= 2 {
      var rest := points[2..];
      MapPairsMeaning(rest, vb, outW, outH);
      if vb.width != 0.0 && vb.height != 0.0 && |points| % 2 == 0 {
        var ps := MapPairs(rest, vb, outW, outH).value;
        forall k | 0 <= k < |ps| + 1
          ensures ([MapPoint(points[0], points[1], vb, outW, outH).value] + ps)[k]
                  == MapPoint(points[2 * k], points[2 * k + 1], vb, outW, outH).value
        {
          if k > 0 {
            assert rest[2 * (k - 1)] == points[2 * k] && rest[2 * (k - 1) + 1] == points[2 * k + 1];
          }
        }
      }
    }
  }

  /** draw_polygon: fewer than three numbers draw nothing (None); otherwise the pixel list
      handed to draw.polygon. */
  function PolygonCall(points: seq<real>, vb: ViewBox, outW: int, outH: int): (r: Result<Option<seq<Point>>>)
    ensures |points| < 3 ==> r == Success(None)
    ensures |points| >= 3 ==> r.Failure? || r.value.Some?
  {
    if |points| < 3 then Success(None)
    else match MapPairs(points, vb, outW, outH)
      case Failure(e) => Failure(e)
      case Success(ps) => Success(Some(ps))
  }

  /** draw_polyline: fewer than four numbers draw nothing (None); otherwise the pixel list
      handed to draw.line. */
  function PolylineCall(points: seq<real>, vb: ViewBox, outW: int, outH: int): (r: Result<Option<seq<Point>>>)
    ensures |points| < 4 ==> r == Success(None)
    ensures |points| >= 4 ==> r.Failure? || r.value.Some?
  {
    if |points| < 4 then Success(None)
    else match MapPairs(points, vb, outW, outH)
      case Failure(e) => Failure(e)
      case Success(ps) => Success(Some(ps))
  }

  /** The guard lets three numbers through to a pairing that has no partner for the third, so a
      `points` attribute of three numbers raises IndexError; four numbers draw a two-point
      polygon, and three pairs the triangle. */
  lemma PolygonGuardCounts(a: real, b: real, c: real, d: real, e: real, f: real, vb: ViewBox, outW: int, outH: int)
    requires vb.width != 0.0 && vb.height != 0.0
    ensures PolygonCall([a, b, c], vb, outW, outH) == Failure(IndexError)
    ensures PolygonCall([a, b, c, d], vb, outW, outH)
         == Success(Some([MapPoint(a, b, vb, outW, outH).value, MapPoint(c, d, vb, outW, outH).value]))
    ensures PolygonCall([a, b, c, d, e, f], vb, outW, outH)
         == Success(Some([MapPoint(a, b, vb, outW, outH).value, MapPoint(c, d, vb, outW, outH).value,
                          MapPoint(e, f, vb, outW, outH).value]))
  {
    MapPairsMeaning([a, b, c], vb, outW, outH);
    MapPairsMeaning([a, b, c, d], vb, outW, outH);
    MapPairsMeaning([a, b, c, d, e, f], vb, outW, outH);
    var two := MapPairs([a, b, c, d], vb, outW, outH).value;
    var three := MapPairs([a, b, c, d, e, f], vb, outW, outH).value;
    assert two == [two[0], two[1]];
    assert three == [three[0], three[1], three[2]];
  }
  // ---------------------------------------------------------------- path_tokens

  /** A token of a path: a command letter, or a number already read by float(). */
  datatype Token = Command(letter: char) | Number(value: real)

  predicate IsCommand(c: char)
  {
    c == 'M' || c == 'm' || c == 'L' || c == 'l' || c == 'H' || c == 'h' || c == 'V' || c == 'v' || c == 'Z' || c == 'z'
  }

  /** `-?\d*\.?\d+(?:[eE][-+]?\d+)?` matched at the start of `s`, with the value float() gives
      the matched text. */
  function NumberMatch(s: string): (r: Option<Lexeme>)
    ensures r.Some? ==> 0 < r.value.len <= |s|
  {
    var k := if s != [] && s[0] == '-' then 1 else 0;
    match RegexDecimal(s[k..])
    case None => None
    case Some(m) =>
      var v := if k == 1 then -m.value else m.value;
      match Exponent(s[k + m.len..])
      case Some(e) => Some(Lexeme(k + m.len + e.len, Shift10(v, e.exp)))
      case None => Some(Lexeme(k + m.len, v))
  }

  /** `re.findall(r"[MmLlHhVvZz]|-?\d*\.?\d+(?:[eE][-+]?\d+)?", s)`: at each position a command
      letter, else a number, else the character is skipped. */
  function Tokens(s: string): seq<Token>
    decreases |s|
  {
    if s == [] then []
    else if IsCommand(s[0]) then [Command(s[0])] + Tokens(s[1..])
    else match NumberMatch(s)
      case Some(m) => [Number(m.value)] + Tokens(s[m.len..])
      case None => Tokens(s[1..])
  }

  /** path_tokens: the tokens of `d` once its commas are spaces. */
  function PathTokens(d: string): seq<Token>
  {
    Tokens(ReplaceChar(d, ',', ' '))
  }

  /** A word of a path as written: a command letter or a decimal number. */
  datatype Word = Letter(c: char) | Numeric(n: Numeral)

  predicate WellFormed(w: Word)
  {
    match w
    case Letter(c) => IsCommand(c)
    case Numeric(n) => n.Valid()
  }

  function WordText(w: Word): string
  {
    match w
    case Letter(c) => [c]
    case Numeric(n) => n.Text()
  }

  function WordToken(w: Word): Token
  {
    match w
    case Letter(c) => Command(c)
    case Numeric(n) => Number(n.Value())
  }

  /** The words written one after the other, each followed by a space. */
  function Spell(ws: seq<Word>): string
  {
    if ws == [] then "" else WordText(ws[0]) + " " + Spell(ws[1..])
  }

  function WordTokens(ws: seq<Word>): seq<Token>
  {
    if ws == [] then [] else [WordToken(ws[0])] + WordTokens(ws[1..])
  }

  /** Tokenizing a path written as words gives back one token per word: every command letter
      and the value of every number, in order. */
  lemma {:induction false} TokensOfSpelling(ws: seq<Word>)
    requires forall k :: 0 <= k < |ws| ==> WellFormed(ws[k])
    ensures Tokens(Spell(ws)) == WordTokens(ws)
    decreases |ws|
  {
    if ws != [] {
      TokensOfSpelling(ws[1..]);
      TokensAfterWord(ws[0], Spell(ws[1..]));
    }
  }

  lemma TokensAfterWord(w: Word, rest: string)
    requires WellFormed(w)
    ensures Tokens(WordText(w) + " " + rest) == [WordToken(w)] + Tokens(rest)
  {
    match w {
      case Letter(c) => TokensAfterLetter(c, rest);
      case Numeric(n) => TokensAfterNumeral(n, rest);
    }
  }

  lemma TokensAfterLetter(c: char, rest: string)
    requires IsCommand(c)
    ensures Tokens([c] + " " + rest) == [Command(c)] + Tokens(rest)
  {
    var s := [c] + " " + rest;
    assert s[1..] == " " + rest;
    SpaceSkipped(rest);
  }

  lemma TokensAfterNumeral(n: Numeral, rest: string)
    requires n.Valid()
    ensures Tokens(n.Text() + " " + rest) == [Number(n.Value())] + Tokens(rest)
  {
    var t := n.Text();
    NumeralStart(n);
    TextThenSpace(t, rest);
    NumberOfNumeral(n, rest);
    SpaceSkipped(rest);
    TokensAtNumber(t + " " + rest, |t|, n.Value(), rest);
  }

  /** A non-empty text followed by a space and `rest` starts with the text's first character. */
  lemma TextThenSpace(t: string, rest: string)
    requires t != []
    ensures (t + " " + rest)[0] == t[0] && (t + " " + rest)[|t|..] == " " + rest
  {
    assert (t + " " + rest)[|t|..] == " " + rest;
  }

  /** A number that is matched and followed by a space is one token. */
  lemma TokensAtNumber(s: string, len: nat, v: real, rest: string)
    requires s != [] && !IsCommand(s[0]) && NumberMatch(s) == Some(Lexeme(len, v))
    requires len <= |s| && s[len..] == " " + rest && Tokens(" " + rest) == Tokens(rest)
    ensures Tokens(s) == [Number(v)] + Tokens(rest)
  {
  }

  /** A space is no token. */
  lemma SpaceSkipped(rest: string)
    ensures Tokens(" " + rest) == Tokens(rest)
  {
    var s := " " + rest;
    assert DigitRun(s) == 0;
    assert s[1..] == rest;
  }

  /** A numeral starts with '-' or a digit, so never with a command letter. */
  lemma NumeralStart(n: Numeral)
    requires n.Valid()
    ensures n.Text() != [] && !IsCommand(n.Text()[0])
    ensures n.negative ==> n.Text()[0] == '-' && n.Text()[1..] == n.Unsigned()
    ensures !n.negative ==> n.Text() == n.Unsigned()
    ensures n.Unsigned() != [] && IsDigit(n.Unsigned()[0])
  {
    assert n.Unsigned()[0] == n.whole[0];
  }

  /** A numeral followed by a space is matched whole, with its value. */
  lemma NumberOfNumeral(n: Numeral, rest: string)
    requires n.Valid()
    ensures NumberMatch(n.Text() + " " + rest) == Some(Lexeme(|n.Text()|, n.Value()))
  {
    var t, u := n.Text(), n.Unsigned();
    var after := " " + rest;
    var s := t + " " + rest;
    assert s == t + after;
    var k := if n.negative then 1 else 0;
    var m := Lexeme(|u|, DecimalValue(n.whole, n.frac));
    assert RegexDecimal(u + after) == Some(m) by {
      RegexUnsignedNumeral(n, after);
    }
    NumeralLayout(n, s, after, k, m);
    SignedMatchAt(s, k, u, after, m, |t|, n.Value());
  }

  /** Where the sign and the digits of a numeral lie in its text. */
  lemma NumeralLayout(n: Numeral, s: string, after: string, k: nat, m: Lexeme)
    requires n.Valid() && k == (if n.negative then 1 else 0)
    requires m == Lexeme(|n.Unsigned()|, DecimalValue(n.whole, n.frac))
    requires s == n.Text() + after
    ensures |s| > 0 && (s[0] == '-' <==> k == 1) && s[k..] == n.Unsigned() + after
    ensures |n.Text()| == k + |n.Unsigned()| && n.Value() == if k == 1 then -m.value else m.value
  {
    NumeralStart(n);
    assert s[0] == n.Text()[0];
    assert s[k..] == n.Text()[k..] + after;
  }

  /** The match of an optional '-', a decimal `body` and what follows it, when that cannot
      start an exponent. */
  lemma SignedMatchAt(s: string, k: nat, body: string, after: string, m: Lexeme, len: nat, v: real)
    requires k <= 1 && |s| > 0 && (s[0] == '-' <==> k == 1)
    requires s[k..] == body + after && RegexDecimal(body + after) == Some(m) && m.len == |body|
    requires after != [] && after[0] == ' '
    requires len == k + |body| && v == if k == 1 then -m.value else m.value
    ensures NumberMatch(s) == Some(Lexeme(len, v))
  {
    Rest(s, k, body, after);
    NoExponent(after);
    NumberMatchParts(s, k, m, after, len, v);
  }

  /** A space cannot start an exponent. */
  lemma NoExponent(after: string)
    requires after != [] && after[0] == ' '
    ensures Exponent(after) == None
  {
  }

  /** The match of an optional '-' and a decimal with no exponent after it. */
  lemma NumberMatchParts(s: string, k: nat, m: Lexeme, after: string, len: nat, v: real)
    requires k <= 1 && |s| > 0 && (s[0] == '-' <==> k == 1)
    requires RegexDecimal(s[k..]) == Some(m) && k + m.len <= |s| && s[k + m.len..] == after
    requires Exponent(after) == None
    requires len == k + m.len && v == if k == 1 then -m.value else m.value
    ensures NumberMatch(s) == Some(Lexeme(len, v))
  {
  }

  lemma Rest(s: string, k: nat, body: string, after: string)
    requires k <= |s| && s[k..] == body + after
    ensures s[k + |body|..] == after
  {
    assert s[k + |body|..] == s[k..][|body|..];
  }
  // ---------------------------------------------------------------- draw_path_simple

  /** The walker's variables between tokens: the current command, the pen position, the start
      of the subpath and the numbers of the polygon being collected. */
  datatype Pen = Pen(cmd: Option<char>, x: real, y: real, start: Option<Point>, pts: seq<real>)

  const Initial: Pen := Pen(None, 0.0, 0.0, None, [])

  /** The position in the token list, the pen, and the pixel lists drawn so far. */
  datatype Walker = Walker(i: nat, pen: Pen, drawn: seq<seq<Point>>)

  /** flush_polygon: the collected numbers are drawn as a polygon when they make at least three
      points; the collection then starts afresh. */
  function Flush(pts: seq<real>, vb: ViewBox, outW: int, outH: int, drawn: seq<seq<Point>>): Result<seq<seq<Point>>>
  {
    if |pts| >= 6 then
      match PolygonCall(pts, vb, outW, outH)
      case Failure(e) => Failure(e)
      case Success(None) => Success(drawn)
      case Success(Some(ps)) => Success(drawn + [ps])
    else Success(drawn)
  }

  /** `float(toks[j])` in the walker: IndexError past the end, ValueError on a command letter. */
  function Operand(toks: seq<Token>, j: nat): Result<real>
  {
    if j >= |toks| then Failure(IndexError)
    else match toks[j]
      case Number(v) => Success(v)
      case Command(_) => Failure(ValueError)
  }

  /** One turn of draw_path_simple's loop, at token `s.i`. */
  function Step(toks: seq<Token>, s: Walker, vb: ViewBox, outW: int, outH: int): (r: Result<Walker>)
    requires s.i < |toks|
    ensures r.Success? ==> s.i < r.value.i <= |toks|
  {
    var pen := s.pen;
    match toks[s.i]
    case Command(c) =>
      if c == 'Z' || c == 'z' then
        var pts := if pen.start.Some? then pen.pts + [pen.start.value.x, pen.start.value.y] else pen.pts;
        match Flush(pts, vb, outW, outH, s.drawn)
        case Failure(e) => Failure(e)
        case Success(drawn) => Success(Walker(s.i + 1, Pen(Some(c), pen.x, pen.y, None, []), drawn))
      else
        Success(Walker(s.i + 1, pen.(cmd := Some(c)), s.drawn))
    case Number(v) =>
      if pen.cmd.None? then Success(Walker(s.i + 1, pen, s.drawn))
      else
        var c := pen.cmd.value;
        if c == 'M' || c == 'm' then
          match Operand(toks, s.i + 1)
          case Failure(e) => Failure(e)
          case Success(ny) =>
            var next := if c == 'M' then 'L' else 'l';
            Success(Walker(s.i + 2, Pen(Some(next), v, ny, Some(Point(v, ny)), pen.pts + [v, ny]), s.drawn))
        else if c == 'L' || c == 'l' then
          match Operand(toks, s.i + 1)
          case Failure(e) => Failure(e)
          case Success(ny) => Success(Walker(s.i + 2, Pen(pen.cmd, v, ny, pen.start, pen.pts + [v, ny]), s.drawn))
        else if c == 'H' || c == 'h' then
          Success(Walker(s.i + 1, Pen(pen.cmd, v, pen.y, pen.start, pen.pts + [v, pen.y]), s.drawn))
        else if c == 'V' || c == 'v' then
          Success(Walker(s.i + 1, Pen(pen.cmd, pen.x, v, pen.start, pen.pts + [pen.x, v]), s.drawn))
        else
          Success(Walker(s.i + 1, pen, s.drawn))
  }

  /** The walk from `s` to the end of the tokens, and the final flush. */
  function Walk(toks: seq<Token>, s: Walker, vb: ViewBox, outW: int, outH: int): Result<seq<seq<Point>>>
    requires s.i <= |toks|
    decreases |toks| - s.i
  {
    if s.i == |toks| then Flush(s.pen.pts, vb, outW, outH, s.drawn)
    else match Step(toks, s, vb, outW, outH)
      case Failure(e) => Failure(e)
      case Success(t) => Walk(toks, t, vb, outW, outH)
  }

  /** What draw_path_simple draws for a path's `d`: the pixel lists of its polygons, in order;
      nothing for a missing or empty `d`. */
  function PathPolygons(d: Option<string>, vb: ViewBox, outW: int, outH: int): Result<seq<seq<Point>>>
  {
    if d.None? || d.value == "" then Success([])
    else Walk(PathTokens(d.value), Walker(0, Initial, []), vb, outW, outH)
  }

  /** draw_path_simple's loop, with the pixel lists handed to draw.polygon collected in `drawn`. */
  method DrawPathSimple(d: Option<string>, vb: ViewBox, outW: int, outH: int) returns (r: Result<seq<seq<Point>>>)
    ensures r == PathPolygons(d, vb, outW, outH)
  {
    if d.None? || d.value == "" {
      return Success([]);
    }
    var toks := PathTokens(d.value);
    ghost var goal := Walk(toks, Walker(0, Initial, []), vb, outW, outH);
    var i := 0;
    var cmd: Option<char> := None;
    var x, y := 0.0, 0.0;
    var start: Option<Point> := None;
    var pts: seq<real> := [];
    var drawn: seq<seq<Point>> := [];
    while i < |toks|
      invariant 0 <= i <= |toks|
      invariant Walk(toks, Walker(i, Pen(cmd, x, y, start, pts), drawn), vb, outW, outH) == goal
      decreases |toks| - i
    {
      var turn: Result<Walker>;
      if toks[i].Command? {
        turn := OnCommand(toks, Walker(i, Pen(cmd, x, y, start, pts), drawn), vb, outW, outH);
      } else {
        turn := OnNumber(toks, Walker(i, Pen(cmd, x, y, start, pts), drawn));
      }
      if turn.Failure? {
        return Failure(turn.error);
      }
      i, drawn := turn.value.i, turn.value.drawn;
      cmd, x, y, start, pts := turn.value.pen.cmd, turn.value.pen.x, turn.value.pen.y, turn.value.pen.start, turn.value.pen.pts;
    }
    r := Flush(pts, vb, outW, outH, drawn);
  }

  /** The loop body on a command letter: it becomes the current command; 'Z' closes the
      subpath back to its start and flushes the polygon. */
  method OnCommand(toks: seq<Token>, s: Walker, vb: ViewBox, outW: int, outH: int) returns (r: Result<Walker>)
    requires s.i < |toks| && toks[s.i].Command?
    ensures r == Step(toks, s, vb, outW, outH)
  {
    var c := toks[s.i].letter;
    var pen := s.pen;
    if c == 'Z' || c == 'z' {
      var pts := pen.pts;
      if pen.start.Some? {
        pts := pts + [pen.start.value.x, pen.start.value.y];
      }
      var flushed := Flush(pts, vb, outW, outH, s.drawn);
      if flushed.Failure? {
        return Failure(flushed.error);
      }
      r := Success(Walker(s.i + 1, Pen(Some(c), pen.x, pen.y, None, []), flushed.value));
    } else {
      r := Success(Walker(s.i + 1, pen.(cmd := Some(c)), s.drawn));
    }
  }

  /** The loop body on a number: skipped before any command; M and L take it with the next
      number as a point (M also marks the subpath start and turns into L); H and V move along
      one axis; any other command ignores it. */
  method OnNumber(toks: seq<Token>, s: Walker) returns (r: Result<Walker>)
    requires s.i < |toks| && toks[s.i].Number?
    ensures forall vb, outW, outH :: r == Step(toks, s, vb, outW, outH)
  {
    var pen := s.pen;
    var v := toks[s.i].value;
    if pen.cmd.None? {
      return Success(Walker(s.i + 1, pen, s.drawn));
    }
    var c := pen.cmd.value;
    if c == 'M' || c == 'm' || c == 'L' || c == 'l' {
      var ny := Operand(toks, s.i + 1);
      if ny.Failure? {
        return Failure(ny.error);
      }
      if c == 'M' || c == 'm' {
        var next := if c == 'M' then 'L' else 'l';
        r := Success(Walker(s.i + 2, Pen(Some(next), v, ny.value, Some(Point(v, ny.value)), pen.pts + [v, ny.value]), s.drawn));
      } else {
        r := Success(Walker(s.i + 2, Pen(pen.cmd, v, ny.value, pen.start, pen.pts + [v, ny.value]), s.drawn));
      }
    } else if c == 'H' || c == 'h' {
      r := Success(Walker(s.i + 1, Pen(pen.cmd, v, pen.y, pen.start, pen.pts + [v, pen.y]), s.drawn));
    } else if c == 'V' || c == 'v' {
      r := Success(Walker(s.i + 1, Pen(pen.cmd, pen.x, v, pen.start, pen.pts + [pen.x, v]), s.drawn));
    } else {
      r := Success(Walker(s.i + 1, pen, s.drawn));
    }
  }
  /** Every polygon drawn has at least three pixels. */
  predicate Polygons(drawn: seq<seq<Point>>)
  {
    forall k :: 0 <= k < |drawn| ==> |drawn[k]| >= 3
  }

  /** A flush of fewer than three points draws nothing; an even count of at least six numbers on
      a viewBox of positive area draws one polygon with one pixel per pair, an odd count raises
      IndexError; on a flat viewBox it raises ZeroDivisionError. */
  lemma FlushMeaning(pts: seq<real>, vb: ViewBox, outW: int, outH: int, drawn: seq<seq<Point>>)
    ensures |pts| < 6 ==> Flush(pts, vb, outW, outH, drawn) == Success(drawn)
    ensures |pts| >= 6 && |pts| % 2 == 0 && vb.width != 0.0 && vb.height != 0.0 ==>
      && MapPairs(pts, vb, outW, outH).Success?
      && Flush(pts, vb, outW, outH, drawn) == Success(drawn + [MapPairs(pts, vb, outW, outH).value])
      && 2 * |MapPairs(pts, vb, outW, outH).value| == |pts|
    ensures |pts| >= 6 && |pts| % 2 == 1 && vb.width != 0.0 && vb.height != 0.0 ==>
      Flush(pts, vb, outW, outH, drawn) == Failure(IndexError)
    ensures |pts| >= 6 && (vb.width == 0.0 || vb.height == 0.0) ==>
      Flush(pts, vb, outW, outH, drawn) == Failure(ZeroDivisionError)
  {
    MapPairsMeaning(pts, vb, outW, outH);
  }

  /** One turn keeps the collected numbers paired and draws only polygons of three pixels or more. */
  lemma StepKeepsPolygons(toks: seq<Token>, s: Walker, vb: ViewBox, outW: int, outH: int)
    requires s.i < |toks|
    requires |s.pen.pts| % 2 == 0 && Polygons(s.drawn)
    ensures var r := Step(toks, s, vb, outW, outH);
      r.Success? ==> |r.value.pen.pts| % 2 == 0 && Polygons(r.value.drawn)
  {
    if toks[s.i].Command? && (toks[s.i].letter == 'Z' || toks[s.i].letter == 'z') {
      var pen := s.pen;
      var pts := if pen.start.Some? then pen.pts + [pen.start.value.x, pen.start.value.y] else pen.pts;
      FlushKeepsPolygons(pts, vb, outW, outH, s.drawn);
    }
  }

  /** A flush adds nothing or a polygon of three pixels or more. */
  lemma FlushKeepsPolygons(pts: seq<real>, vb: ViewBox, outW: int, outH: int, drawn: seq<seq<Point>>)
    requires Polygons(drawn)
    ensures Flush(pts, vb, outW, outH, drawn).Success? ==> Polygons(Flush(pts, vb, outW, outH, drawn).value)
  {
    FlushMeaning(pts, vb, outW, outH, drawn);
  }

  /** The polygons drawn by a walk all have at least three pixels. */
  lemma {:induction false} WalkDrawsPolygons(toks: seq<Token>, s: Walker, vb: ViewBox, outW: int, outH: int)
    requires s.i <= |toks|
    requires |s.pen.pts| % 2 == 0 && Polygons(s.drawn)
    ensures Walk(toks, s, vb, outW, outH).Success? ==> Polygons(Walk(toks, s, vb, outW, outH).value)
    decreases |toks| - s.i
  {
    if s.i == |toks| {
      FlushMeaning(s.pen.pts, vb, outW, outH, s.drawn);
    } else {
      StepKeepsPolygons(toks, s, vb, outW, outH);
      var r := Step(toks, s, vb, outW, outH);
      if r.Success? {
        WalkDrawsPolygons(toks, r.value, vb, outW, outH);
      }
    }
  }

  /** draw_path_simple never hands draw.polygon fewer than three pixels. */
  lemma PathPolygonsHaveThreePoints(d: Option<string>, vb: ViewBox, outW: int, outH: int)
    ensures PathPolygons(d, vb, outW, outH).Success? ==> Polygons(PathPolygons(d, vb, outW, outH).value)
  {
    if d.Some? && d.value != "" {
      WalkDrawsPolygons(PathTokens(d.value), Walker(0, Initial, []), vb, outW, outH);
    }
  }

  /** Numbers before the first command are skipped without effect. */
  lemma {:induction false} LeadingNumbersSkipped(toks: seq<Token>, j: nat, k: nat, vb: ViewBox, outW: int, outH: int)
    requires j <= k <= |toks|
    requires forall n :: j <= n < k ==> toks[n].Number?
    ensures Walk(toks, Walker(j, Initial, []), vb, outW, outH) == Walk(toks, Walker(k, Initial, []), vb, outW, outH)
    decreases k - j
  {
    if j < k {
      assert Step(toks, Walker(j, Initial, []), vb, outW, outH) == Success(Walker(j + 1, Initial, []));
      LeadingNumbersSkipped(toks, j + 1, k, vb, outW, outH);
    }
  }

  /** The upper-case form of a path command letter. */
  function Absolute(c: char): (r: char)
    ensures c !in "mlhvz" ==> r == c
  {
    if c == 'm' then 'M' else if c == 'l' then 'L' else if c == 'h' then 'H'
    else if c == 'v' then 'V' else if c == 'z' then 'Z' else c
  }

  function AbsoluteToken(t: Token): Token
  {
    match t
    case Command(c) => Command(Absolute(c))
    case Number(_) => t
  }

  /** The tokens with every command letter in upper case. */
  function AbsoluteTokens(toks: seq<Token>): (r: seq<Token>)
    ensures |r| == |toks| && forall k :: 0 <= k < |toks| ==> r[k] == AbsoluteToken(toks[k])
  {
    seq(|toks|, k requires 0 <= k < |toks| => AbsoluteToken(toks[k]))
  }

  function AbsoluteWalker(s: Walker): Walker
  {
    Walker(s.i, s.pen.(cmd := if s.pen.cmd.Some? then Some(Absolute(s.pen.cmd.value)) else None), s.drawn)
  }

  function AbsoluteResult(r: Result<Walker>): Result<Walker>
  {
    match r
    case Success(t) => Success(AbsoluteWalker(t))
    case Failure(e) => Failure(e)
  }

  /** One turn on upper-cased tokens does what it does on the originals, up to the case of the
      current command. */
  lemma StepCaseBlind(toks: seq<Token>, s: Walker, vb: ViewBox, outW: int, outH: int)
    requires s.i < |toks|
    ensures Step(AbsoluteTokens(toks), AbsoluteWalker(s), vb, outW, outH) == AbsoluteResult(Step(toks, s, vb, outW, outH))
  {
    if toks[s.i].Command? {
      CommandCaseBlind(toks, s, vb, outW, outH);
    } else {
      NumberCaseBlind(toks, s, vb, outW, outH);
    }
  }

  lemma CommandCaseBlind(toks: seq<Token>, s: Walker, vb: ViewBox, outW: int, outH: int)
    requires s.i < |toks| && toks[s.i].Command?
    ensures Step(AbsoluteTokens(toks), AbsoluteWalker(s), vb, outW, outH) == AbsoluteResult(Step(toks, s, vb, outW, outH))
  {
    assert AbsoluteTokens(toks)[s.i] == Command(Absolute(toks[s.i].letter));
  }

  lemma NumberCaseBlind(toks: seq<Token>, s: Walker, vb: ViewBox, outW: int, outH: int)
    requires s.i < |toks| && toks[s.i].Number?
    ensures Step(AbsoluteTokens(toks), AbsoluteWalker(s), vb, outW, outH) == AbsoluteResult(Step(toks, s, vb, outW, outH))
  {
    assert AbsoluteTokens(toks)[s.i] == toks[s.i];
    assert Operand(AbsoluteTokens(toks), s.i + 1) == Operand(toks, s.i + 1);
  }

  /** The walker reads lower-case commands exactly as the upper-case ones: relative path commands
      are taken as absolute. */
  lemma {:induction false} WalkCaseBlind(toks: seq<Token>, s: Walker, vb: ViewBox, outW: int, outH: int)
    requires s.i <= |toks|
    ensures Walk(AbsoluteTokens(toks), AbsoluteWalker(s), vb, outW, outH) == Walk(toks, s, vb, outW, outH)
    decreases |toks| - s.i
  {
    if s.i < |toks| {
      StepCaseBlind(toks, s, vb, outW, outH);
      var r := Step(toks, s, vb, outW, outH);
      if r.Success? {
        WalkCaseBlind(toks, r.value, vb, outW, outH);
      }
    }
  }

  /** Upper-casing every command of a path changes nothing that is drawn. */
  lemma LowerCaseIsAbsolute(toks: seq<Token>, vb: ViewBox, outW: int, outH: int)
    ensures Walk(AbsoluteTokens(toks), Walker(0, Initial, []), vb, outW, outH) == Walk(toks, Walker(0, Initial, []), vb, outW, outH)
  {
    WalkCaseBlind(toks, Walker(0, Initial, []), vb, outW, outH);
    assert AbsoluteWalker(Walker(0, Initial, [])) == Walker(0, Initial, []);
  }
  /** The numbers of a list of points, x before y. */
  function Coords(ps: seq<Point>): (r: seq<real>)
    ensures |r| == 2 * |ps|
  {
    if ps == [] then [] else [ps[0].x, ps[0].y] + Coords(ps[1..])
  }

  /** The number tokens of a list of points. */
  function PairTokens(ps: seq<Point>): (r: seq<Token>)
    ensures |r| == 2 * |ps|
  {
    if ps == [] then [] else [Number(ps[0].x), Number(ps[0].y)] + PairTokens(ps[1..])
  }

  /** The pixels of a list of points. */
  function Pixels(ps: seq<Point>, vb: ViewBox, outW: int, outH: int): (r: seq<Point>)
    requires vb.width != 0.0 && vb.height != 0.0
    ensures |r| == |ps|
  {
    if ps == [] then [] else [MapPoint(ps[0].x, ps[0].y, vb, outW, outH).value] + Pixels(ps[1..], vb, outW, outH)
  }

  lemma {:induction false} CoordsConcat(a: seq<Point>, b: seq<Point>)
    ensures Coords(a + b) == Coords(a) + Coords(b)
    decreases |a|
  {
    if a == [] {
      assert a + b == b;
    } else {
      assert (a + b)[1..] == a[1..] + b;
      CoordsConcat(a[1..], b);
    }
  }

  /** Pairing the numbers of a list of points maps each point. */
  lemma {:induction false} MapPairsCoords(ps: seq<Point>, vb: ViewBox, outW: int, outH: int)
    requires vb.width != 0.0 && vb.height != 0.0
    ensures MapPairs(Coords(ps), vb, outW, outH) == Success(Pixels(ps, vb, outW, outH))
    decreases |ps|
  {
    if ps != [] {
      assert Coords(ps)[2..] == Coords(ps[1..]);
      MapPairsCoords(ps[1..], vb, outW, outH);
    }
  }

  /** The last of `ps`, or `p` when there is none. */
  function LastPoint(ps: seq<Point>, p: Point): Point
  {
    if ps == [] then p else ps[|ps| - 1]
  }

  /** Under L, each pair of numbers moves the pen there and adds the point to the polygon. */
  lemma LinesCollected(toks: seq<Token>, pre: seq<Token>, ps: seq<Point>, post: seq<Token>,
                       pen: Pen, drawn: seq<seq<Point>>, vb: ViewBox, outW: int, outH: int)
    requires toks == pre + PairTokens(ps) + post
    requires pen.cmd == Some('L')
    ensures var e := LastPoint(ps, Point(pen.x, pen.y));
      Walk(toks, Walker(|pre|, pen, drawn), vb, outW, outH)
      == Walk(toks, Walker(|pre| + 2 * |ps|, Pen(Some('L'), e.x, e.y, pen.start, pen.pts + Coords(ps)), drawn), vb, outW, outH)
  {
    LinesTo(toks, pre, ps, post, pen, drawn, vb, outW, outH,
            |pre| + 2 * |ps|, LastPoint(ps, Point(pen.x, pen.y)), pen.pts + Coords(ps));
  }

  /** The above, with the walker it ends in named by its parts. */
  lemma {:induction false} LinesTo(toks: seq<Token>, pre: seq<Token>, ps: seq<Point>, post: seq<Token>,
                                   pen: Pen, drawn: seq<seq<Point>>, vb: ViewBox, outW: int, outH: int,
                                   end: nat, e: Point, pts: seq<real>)
    requires toks == pre + PairTokens(ps) + post
    requires pen.cmd == Some('L')
    requires end == |pre| + 2 * |ps| && e == LastPoint(ps, Point(pen.x, pen.y)) && pts == pen.pts + Coords(ps)
    ensures Walk(toks, Walker(|pre|, pen, drawn), vb, outW, outH)
         == Walk(toks, Walker(end, Pen(Some('L'), e.x, e.y, pen.start, pts), drawn), vb, outW, outH)
    decreases |ps|
  {
    if ps == [] {
      assert pts == pen.pts;
    } else {
      var p := ps[0];
      var pair := [Number(p.x), Number(p.y)];
      var next := Pen(Some('L'), p.x, p.y, pen.start, pen.pts + [p.x, p.y]);
      FirstPair(toks, pre, ps, post);
      FirstPoint(pen.pts, ps, Point(pen.x, pen.y));
      LineStep(toks, |pre|, pen, drawn, vb, outW, outH);
      LinesTo(toks, pre + pair, ps[1..], post, next, drawn, vb, outW, outH, end, e, pts);
    }
  }

  /** Taking the first point off a list of points. */
  lemma FirstPoint(pts: seq<real>, ps: seq<Point>, q: Point)
    requires ps != []
    ensures (pts + [ps[0].x, ps[0].y]) + Coords(ps[1..]) == pts + Coords(ps)
    ensures LastPoint(ps[1..], Point(ps[0].x, ps[0].y)) == LastPoint(ps, q)
  {
    var rest := ps[1..];
    assert Coords(ps) == [ps[0].x, ps[0].y] + Coords(rest);
    assert (pts + [ps[0].x, ps[0].y]) + Coords(rest) == pts + ([ps[0].x, ps[0].y] + Coords(rest));
    if rest == [] {
      assert ps[|ps| - 1] == ps[0] == Point(ps[0].x, ps[0].y);
    } else {
      assert rest[|rest| - 1] == ps[|ps| - 1];
    }
  }

  /** The first pair of tokens of a non-empty list of points. */
  lemma FirstPair(toks: seq<Token>, pre: seq<Token>, ps: seq<Point>, post: seq<Token>)
    requires toks == pre + PairTokens(ps) + post && ps != []
    ensures toks[|pre|] == Number(ps[0].x) && toks[|pre| + 1] == Number(ps[0].y)
    ensures toks == (pre + [Number(ps[0].x), Number(ps[0].y)]) + PairTokens(ps[1..]) + post
  {
    var pair := [Number(ps[0].x), Number(ps[0].y)];
    assert PairTokens(ps) == pair + PairTokens(ps[1..]);
    Regroup(pre, pair, PairTokens(ps[1..]), post);
  }

  /** Moving a two-token group from the middle part to the front part. */
  lemma Regroup(pre: seq<Token>, pair: seq<Token>, tail: seq<Token>, post: seq<Token>)
    requires |pair| == 2
    ensures pre + (pair + tail) + post == (pre + pair) + tail + post
    ensures (pre + (pair + tail) + post)[|pre|] == pair[0]
    ensures (pre + (pair + tail) + post)[|pre| + 1] == pair[1]
  {
    assert pre + (pair + tail) + post == (pre + pair) + tail + post;
  }

  /** Under L, a pair of numbers moves the pen and adds the point. */
  lemma LineStep(toks: seq<Token>, k: nat, pen: Pen, drawn: seq<seq<Point>>, vb: ViewBox, outW: int, outH: int)
    requires k + 1 < |toks| && toks[k].Number? && toks[k + 1].Number? && pen.cmd == Some('L')
    ensures var a, b := toks[k].value, toks[k + 1].value;
      Walk(toks, Walker(k, pen, drawn), vb, outW, outH)
      == Walk(toks, Walker(k + 2, Pen(Some('L'), a, b, pen.start, pen.pts + [a, b]), drawn), vb, outW, outH)
  {
  }

  /** `M p0 p1 … pn Z` draws one polygon: the pixels of p0 … pn and p0 again. */
  lemma ClosedPolygonDrawn(ps: seq<Point>, vb: ViewBox, outW: int, outH: int)
    requires |ps| >= 2 && vb.width != 0.0 && vb.height != 0.0
    ensures Walk([Command('M')] + PairTokens(ps) + [Command('Z')], Walker(0, Initial, []), vb, outW, outH)
         == Success([Pixels(ps + [ps[0]], vb, outW, outH)])
  {
    var toks := [Command('M')] + PairTokens(ps) + [Command('Z')];
    var p := ps[0];
    var pen := Pen(Some('L'), p.x, p.y, Some(p), [p.x, p.y]);
    OpenSubpath(toks, ps, vb, outW, outH);
    var pre := [Command('M'), Number(p.x), Number(p.y)];
    LinesCollected(toks, pre, ps[1..], [Command('Z')], pen, [], vb, outW, outH);
    var e := LastPoint(ps[1..], Point(p.x, p.y));
    assert [p.x, p.y] + Coords(ps[1..]) == Coords(ps);
    CloseSubpath(toks, ps, e, vb, outW, outH);
  }

  /** The M and its first pair open the subpath at ps[0]. */
  lemma OpenSubpath(toks: seq<Token>, ps: seq<Point>, vb: ViewBox, outW: int, outH: int)
    requires |ps| >= 1 && toks == [Command('M')] + PairTokens(ps) + [Command('Z')]
    ensures toks == [Command('M'), Number(ps[0].x), Number(ps[0].y)] + PairTokens(ps[1..]) + [Command('Z')]
    ensures Walk(toks, Walker(0, Initial, []), vb, outW, outH)
         == Walk(toks, Walker(3, Pen(Some('L'), ps[0].x, ps[0].y, Some(ps[0]), [ps[0].x, ps[0].y]), []), vb, outW, outH)
  {
    var p := ps[0];
    assert PairTokens(ps) == [Number(p.x), Number(p.y)] + PairTokens(ps[1..]);
    assert toks[0] == Command('M') && toks[1] == Number(p.x) && toks[2] == Number(p.y);
    var w1 := Walker(1, Pen(Some('M'), 0.0, 0.0, None, []), []);
    assert Step(toks, Walker(0, Initial, []), vb, outW, outH) == Success(w1);
    assert Operand(toks, 2) == Success(p.y);
    assert Point(p.x, p.y) == p;
    assert Initial.pts + [p.x, p.y] == [p.x, p.y];
    var w3 := Walker(3, Pen(Some('L'), p.x, p.y, Some(Point(p.x, p.y)), [p.x, p.y]), []);
    assert Step(toks, w1, vb, outW, outH) == Success(w3);
  }

  /** The closing Z adds the start point and draws the polygon; nothing is left to flush. */
  lemma CloseSubpath(toks: seq<Token>, ps: seq<Point>, e: Point, vb: ViewBox, outW: int, outH: int)
    requires |ps| >= 2 && vb.width != 0.0 && vb.height != 0.0
    requires toks == [Command('M')] + PairTokens(ps) + [Command('Z')]
    ensures Walk(toks, Walker(1 + 2 * |ps|, Pen(Some('L'), e.x, e.y, Some(ps[0]), Coords(ps)), []), vb, outW, outH)
         == Success([Pixels(ps + [ps[0]], vb, outW, outH)])
  {
    var p := ps[0];
    var n := 1 + 2 * |ps|;
    assert toks[n] == Command('Z');
    CoordsConcat(ps, [p]);
    assert Coords([p]) == [p.x, p.y];
    MapPairsCoords(ps + [p], vb, outW, outH);
    var poly := Pixels(ps + [p], vb, outW, outH);
    FlushMeaning(Coords(ps + [p]), vb, outW, outH, []);
    assert Coords(ps + [p]) == Coords(ps) + [p.x, p.y];
    assert Flush(Coords(ps + [p]), vb, outW, outH, []) == Success([] + [poly]);
    assert [] + [poly] == [poly];
    var done := Walker(n + 1, Pen(Some('Z'), e.x, e.y, None, []), [poly]);
    assert Step(toks, Walker(n, Pen(Some('L'), e.x, e.y, Some(p), Coords(ps)), []), vb, outW, outH) == Success(done);
    assert Walk(toks, done, vb, outW, outH) == Success([poly]);
  }
  /** The tokens of `M x0 y0 H x1 V y1 H x0 Z`. */
  function RectangleTokens(x0: real, y0: real, x1: real, y1: real): seq<Token>
  {
    [Command('M'), Number(x0), Number(y0), Command('H'), Number(x1), Command('V'), Number(y1),
     Command('H'), Number(x0), Command('Z')]
  }

  /** `M x0 y0 H x1 V y1 H x0 Z` draws the four corners and the start again: H keeps the pen's y,
      V keeps its x, and Z returns to the start. */
  lemma RectangleDrawn(x0: real, y0: real, x1: real, y1: real, vb: ViewBox, outW: int, outH: int)
    requires vb.width != 0.0 && vb.height != 0.0
    ensures Walk(RectangleTokens(x0, y0, x1, y1), Walker(0, Initial, []), vb, outW, outH)
         == Success([Pixels([Point(x0, y0), Point(x1, y0), Point(x1, y1), Point(x0, y1), Point(x0, y0)], vb, outW, outH)])
  {
    var toks := RectangleTokens(x0, y0, x1, y1);
    assert RectangleAt(toks, x0, y0, x1, y1);
    var pen := RectangleOutline(toks, x0, y0, x1, y1, vb, outW, outH);
    CloseStep(toks, 9, pen, [], vb, outW, outH);
    var corners := [Point(x0, y0), Point(x1, y0), Point(x1, y1), Point(x0, y1), Point(x0, y0)];
    RectangleCoords(corners);
    assert pen.pts + [x0, y0] == Coords(corners);
    MapPairsCoords(corners, vb, outW, outH);
    FlushMeaning(Coords(corners), vb, outW, outH, []);
    assert [] + [Pixels(corners, vb, outW, outH)] == [Pixels(corners, vb, outW, outH)];
  }

  lemma RectangleCoords(corners: seq<Point>)
    requires |corners| == 5
    ensures Coords(corners) == [corners[0].x, corners[0].y, corners[1].x, corners[1].y, corners[2].x, corners[2].y,
                                corners[3].x, corners[3].y, corners[4].x, corners[4].y]
  {
    assert Coords(corners[4..]) == [corners[4].x, corners[4].y];
    assert Coords(corners[3..]) == [corners[3].x, corners[3].y] + Coords(corners[4..]);
    assert Coords(corners[2..]) == [corners[2].x, corners[2].y] + Coords(corners[3..]);
    assert Coords(corners[1..]) == [corners[1].x, corners[1].y] + Coords(corners[2..]);
  }

  /** Up to the Z, the pen has gone round the rectangle's corners. */
  lemma RectangleOutline(toks: seq<Token>, x0: real, y0: real, x1: real, y1: real, vb: ViewBox, outW: int, outH: int)
    returns (pen: Pen)
    requires RectangleAt(toks, x0, y0, x1, y1)
    ensures pen == Pen(Some('H'), x0, y1, Some(Point(x0, y0)), [x0, y0, x1, y0, x1, y1, x0, y1])
    ensures Walk(toks, Walker(0, Initial, []), vb, outW, outH) == Walk(toks, Walker(9, pen, []), vb, outW, outH)
  {
    var p3 := RectangleStart(toks, x0, y0, x1, y1, vb, outW, outH);
    var p4 := CommandStep(toks, 3, p3, [], vb, outW, outH);
    var p5 := AcrossStep(toks, 4, p4, [], vb, outW, outH);
    pen := RectangleBack(toks, x0, y0, x1, y1, p5, vb, outW, outH);
  }

  /** M x0 y0 puts the pen at the first corner. */
  lemma RectangleStart(toks: seq<Token>, x0: real, y0: real, x1: real, y1: real, vb: ViewBox, outW: int, outH: int)
    returns (pen: Pen)
    requires RectangleAt(toks, x0, y0, x1, y1)
    ensures pen == Pen(Some('L'), x0, y0, Some(Point(x0, y0)), [x0, y0])
    ensures Walk(toks, Walker(0, Initial, []), vb, outW, outH) == Walk(toks, Walker(3, pen, []), vb, outW, outH)
  {
    var p1 := CommandStep(toks, 0, Initial, [], vb, outW, outH);
    pen := MoveStep(toks, 1, p1, [], vb, outW, outH);
    assert pen.pts == [] + [x0, y0];
  }

  /** From the first corner on: V then H back to x0. */
  lemma RectangleBack(toks: seq<Token>, x0: real, y0: real, x1: real, y1: real, p5: Pen, vb: ViewBox, outW: int, outH: int)
    returns (pen: Pen)
    requires RectangleAt(toks, x0, y0, x1, y1)
    requires p5 == Pen(Some('H'), x1, y0, Some(Point(x0, y0)), [x0, y0, x1, y0])
    ensures pen == Pen(Some('H'), x0, y1, Some(Point(x0, y0)), [x0, y0, x1, y0, x1, y1, x0, y1])
    ensures Walk(toks, Walker(5, p5, []), vb, outW, outH) == Walk(toks, Walker(9, pen, []), vb, outW, outH)
  {
    var p6 := CommandStep(toks, 5, p5, [], vb, outW, outH);
    var p7 := AcrossStep(toks, 6, p6, [], vb, outW, outH);
    var p8 := CommandStep(toks, 7, p7, [], vb, outW, outH);
    pen := AcrossStep(toks, 8, p8, [], vb, outW, outH);
    assert p7.pts == [x0, y0, x1, y0, x1, y1];
  }

  /** `toks` reads `M x0 y0 H x1 V y1 H x0 Z`. */
  predicate RectangleAt(toks: seq<Token>, x0: real, y0: real, x1: real, y1: real)
  {
    && |toks| == 10
    && toks[0] == Command('M') && toks[1] == Number(x0) && toks[2] == Number(y0)
    && toks[3] == Command('H') && toks[4] == Number(x1) && toks[5] == Command('V') && toks[6] == Number(y1)
    && toks[7] == Command('H') && toks[8] == Number(x0) && toks[9] == Command('Z')
  }

  /** A command letter other than Z only becomes the current command. */
  lemma CommandStep(toks: seq<Token>, k: nat, pen: Pen, drawn: seq<seq<Point>>, vb: ViewBox, outW: int, outH: int)
    returns (next: Pen)
    requires k < |toks| && toks[k].Command? && toks[k].letter != 'Z' && toks[k].letter != 'z'
    ensures next == pen.(cmd := Some(toks[k].letter))
    ensures Walk(toks, Walker(k, pen, drawn), vb, outW, outH) == Walk(toks, Walker(k + 1, next, drawn), vb, outW, outH)
  {
    next := pen.(cmd := Some(toks[k].letter));
  }

  /** Under M, a pair of numbers moves the pen, marks the subpath start and turns M into L. */
  lemma MoveStep(toks: seq<Token>, k: nat, pen: Pen, drawn: seq<seq<Point>>, vb: ViewBox, outW: int, outH: int)
    returns (next: Pen)
    requires k + 1 < |toks| && toks[k].Number? && toks[k + 1].Number? && pen.cmd == Some('M')
    ensures var a, b := toks[k].value, toks[k + 1].value;
      next == Pen(Some('L'), a, b, Some(Point(a, b)), pen.pts + [a, b])
    ensures Walk(toks, Walker(k, pen, drawn), vb, outW, outH) == Walk(toks, Walker(k + 2, next, drawn), vb, outW, outH)
  {
    var a, b := toks[k].value, toks[k + 1].value;
    next := Pen(Some('L'), a, b, Some(Point(a, b)), pen.pts + [a, b]);
  }

  /** Under H a number moves the pen along x; under V, along y. */
  lemma AcrossStep(toks: seq<Token>, k: nat, pen: Pen, drawn: seq<seq<Point>>, vb: ViewBox, outW: int, outH: int)
    returns (next: Pen)
    requires k < |toks| && toks[k].Number? && (pen.cmd == Some('H') || pen.cmd == Some('V'))
    ensures var v := toks[k].value;
      next == if pen.cmd == Some('H') then Pen(pen.cmd, v, pen.y, pen.start, pen.pts + [v, pen.y])
              else Pen(pen.cmd, pen.x, v, pen.start, pen.pts + [pen.x, v])
    ensures Walk(toks, Walker(k, pen, drawn), vb, outW, outH) == Walk(toks, Walker(k + 1, next, drawn), vb, outW, outH)
  {
    var v := toks[k].value;
    next := if pen.cmd == Some('H') then Pen(pen.cmd, v, pen.y, pen.start, pen.pts + [v, pen.y])
            else Pen(pen.cmd, pen.x, v, pen.start, pen.pts + [pen.x, v]);
  }

  /** A final Z draws what was collected together with the subpath start. */
  lemma CloseStep(toks: seq<Token>, k: nat, pen: Pen, drawn: seq<seq<Point>>, vb: ViewBox, outW: int, outH: int)
    requires k + 1 == |toks| && toks[k] == Command('Z') && pen.start.Some?
    ensures Walk(toks, Walker(k, pen, drawn), vb, outW, outH)
         == Flush(pen.pts + [pen.start.value.x, pen.start.value.y], vb, outW, outH, drawn)
  {
    var pts := pen.pts + [pen.start.value.x, pen.start.value.y];
    match Flush(pts, vb, outW, outH, drawn)
    case Failure(_) =>
    case Success(d) =>
      var done := Walker(k + 1, Pen(Some('Z'), pen.x, pen.y, None, []), d);
      assert Step(toks, Walker(k, pen, drawn), vb, outW, outH) == Success(done);
      assert Walk(toks, done, vb, outW, outH) == Success(d);
  }
}
