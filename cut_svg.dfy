/** cut_svg.py: copy every shape of a drawing, at any depth, into a new document that keeps the
    root's attributes and its `defs` and `style` children; rects 0.406 high and paths listed for
    removal or shaped as thin rectangles are left out, with everything below them. Also the
    in-place rect and point-list helpers defined beside it. */
module CutSvg {
  import opened Wrappers
  import opened Lex
  import opened Seqs
  import opened Geometry
  import opened CutSvgText
  import opened ExtractPathsFromSvg
  import InvertSvg

  /** `attrib.get(key, default)` */
  function Get(attrib: map<string, string>, key: string, default: string): string
  {
    if key in attrib then attrib[key] else default
  }

  /** `float(attrib.get(key, '0'))` with `read` for float(); None where it raises ValueError. */
  function AttrNumber(attrib: map<string, string>, key: string, read: InvertSvg.Reader): Option<real>
  {
    read(Get(attrib, key, "0"))
  }

  /** A rect's attribute dictionary, updated in place. */
  class RectElement {
    var attrib: map<string, string>

    constructor (attrib: map<string, string>)
      ensures this.attrib == attrib
    {
      this.attrib := attrib;
    }
  }

  /** The attributes expand_rect leaves behind: x and y moved back by `expand`, width and height
      grown by twice it, each written by `show`; ValueError when one of the four does not read
      as a number. */
  function ExpandedRect(attrib: map<string, string>, expand: real, show: InvertSvg.Show, read: InvertSvg.Reader): Result<map<string, string>>
  {
    var x, y := AttrNumber(attrib, "x", read), AttrNumber(attrib, "y", read);
    var w, h := AttrNumber(attrib, "width", read), AttrNumber(attrib, "height", read);
    if x.None? || y.None? || w.None? || h.None? then Failure(ValueError)
    else Success(Grown(attrib, x.value, y.value, w.value, h.value, expand, show))
  }

  /** The four numbers of a rect written back: x and y less `expand`, width and height plus
      twice it. */
  function Grown(attrib: map<string, string>, x: real, y: real, w: real, h: real, expand: real, show: InvertSvg.Show): map<string, string>
  {
    attrib["x" := show(x - expand)]["y" := show(y - expand)]
          ["width" := show(w + 2.0 * expand)]["height" := show(h + 2.0 * expand)]
  }

  /** expand_rect: all four numbers are read before any is written, so a ValueError leaves the
      attributes as they were. */
  method ExpandRect(e: RectElement, expand: real, show: InvertSvg.Show, read: InvertSvg.Reader) returns (r: Result<()>)
    modifies e
    ensures ExpandedRect(old(e.attrib), expand, show, read).Failure? ==> r == Failure(ValueError) && e.attrib == old(e.attrib)
    ensures ExpandedRect(old(e.attrib), expand, show, read).Success? ==>
      r.Success? && e.attrib == ExpandedRect(old(e.attrib), expand, show, read).value
  {
    var x := AttrNumber(e.attrib, "x", read);
    if x.None? { return Failure(ValueError); }
    var y := AttrNumber(e.attrib, "y", read);
    if y.None? { return Failure(ValueError); }
    var width := AttrNumber(e.attrib, "width", read);
    if width.None? { return Failure(ValueError); }
    var height := AttrNumber(e.attrib, "height", read);
    if height.None? { return Failure(ValueError); }
    e.attrib := Grown(e.attrib, x.value, y.value, width.value, height.value, expand, show);
    return Success(());
  }

  /** The expanded rect reads back as the old one grown by `expand` on every side, whenever
      float() reads back the four numbers str() writes: its left and top edges move out by
      `expand`, and so do its right and bottom edges. Every other attribute is untouched. */
  lemma ExpandedRectGrows(attrib: map<string, string>, expand: real, show: InvertSvg.Show, read: InvertSvg.Reader,
                          x: real, y: real, w: real, h: real)
    requires AttrNumber(attrib, "x", read) == Some(x) && AttrNumber(attrib, "y", read) == Some(y)
    requires AttrNumber(attrib, "width", read) == Some(w) && AttrNumber(attrib, "height", read) == Some(h)
    requires read(show(x - expand)) == Some(x - expand) && read(show(y - expand)) == Some(y - expand)
    requires read(show(w + 2.0 * expand)) == Some(w + 2.0 * expand)
    requires read(show(h + 2.0 * expand)) == Some(h + 2.0 * expand)
    ensures ExpandedRect(attrib, expand, show, read).Success?
    ensures var m := ExpandedRect(attrib, expand, show, read).value;
      && AttrNumber(m, "x", read) == Some(x - expand) && AttrNumber(m, "y", read) == Some(y - expand)
      && AttrNumber(m, "width", read) == Some(w + 2.0 * expand) && AttrNumber(m, "height", read) == Some(h + 2.0 * expand)
      && (x - expand) + (w + 2.0 * expand) == (x + w) + expand
      && (y - expand) + (h + 2.0 * expand) == (y + h) + expand
      && forall k :: k in attrib && k !in {"x", "y", "width", "height"} ==> k in m && m[k] == attrib[k]
  {
    var m := Grown(attrib, x, y, w, h, expand, show);
    assert ExpandedRect(attrib, expand, show, read) == Success(m);
    assert m["x"] == show(x - expand) && m["y"] == show(y - expand);
    assert m["width"] == show(w + 2.0 * expand) && m["height"] == show(h + 2.0 * expand);
  }

  /** The attributes stretch_rect_y leaves behind: the height scaled by `factor` about the
      rect's vertical centre; ValueError when y or height does not read as a number. */
  function StretchedRect(attrib: map<string, string>, factor: real, show: InvertSvg.Show, read: InvertSvg.Reader): Result<map<string, string>>
  {
    var y, h := AttrNumber(attrib, "y", read), AttrNumber(attrib, "height", read);
    if y.None? || h.None? then Failure(ValueError)
    else Success(attrib["y" := show(StretchedTop(y.value, h.value, factor))]["height" := show(StretchedHeight(h.value, factor))])
  }

  function StretchedHeight(h: real, factor: real): real
  {
    h * factor
  }

  /** The new top edge: the centre `y + h / 2` less half of the new height. */
  function StretchedTop(y: real, h: real, factor: real): real
  {
    var cy := y + h / 2.0;
    var newHeight := h * factor;
    cy - newHeight / 2.0
  }

  /** stretch_rect_y */
  method StretchRectY(e: RectElement, factor: real, show: InvertSvg.Show, read: InvertSvg.Reader) returns (r: Result<()>)
    modifies e
    ensures StretchedRect(old(e.attrib), factor, show, read).Failure? ==> r == Failure(ValueError) && e.attrib == old(e.attrib)
    ensures StretchedRect(old(e.attrib), factor, show, read).Success? ==>
      r.Success? && e.attrib == StretchedRect(old(e.attrib), factor, show, read).value
  {
    var y := AttrNumber(e.attrib, "y", read);
    if y.None? { return Failure(ValueError); }
    var height := AttrNumber(e.attrib, "height", read);
    if height.None? { return Failure(ValueError); }
    var newY := StretchedTop(y.value, height.value, factor);
    var newHeight := StretchedHeight(height.value, factor);
    e.attrib := e.attrib["y" := show(newY)];
    e.attrib := e.attrib["height" := show(newHeight)];
    return Success(());
  }

  /** The stretched rect has the same vertical centre and `factor` times the height; it reads
      back as such whenever float() reads back the two numbers str() writes. Every other
      attribute is untouched. */
  lemma StretchedRectCentred(attrib: map<string, string>, factor: real, show: InvertSvg.Show, read: InvertSvg.Reader,
                             y: real, h: real)
    requires AttrNumber(attrib, "y", read) == Some(y) && AttrNumber(attrib, "height", read) == Some(h)
    ensures StretchedRect(attrib, factor, show, read).Success?
    ensures StretchedHeight(h, factor) == h * factor
    ensures StretchedTop(y, h, factor) + StretchedHeight(h, factor) / 2.0 == y + h / 2.0
    ensures var m := StretchedRect(attrib, factor, show, read).value;
      && m["y"] == show(StretchedTop(y, h, factor)) && m["height"] == show(StretchedHeight(h, factor))
      && forall k :: k in attrib && k !in {"y", "height"} ==> k in m && m[k] == attrib[k]
    ensures var m := StretchedRect(attrib, factor, show, read).value;
      var top, nh := StretchedTop(y, h, factor), StretchedHeight(h, factor);
      read(show(top)) == Some(top) && read(show(nh)) == Some(nh) ==>
        && AttrNumber(m, "height", read) == Some(h * factor)
        && AttrNumber(m, "y", read).Some?
        && AttrNumber(m, "y", read).value + h * factor / 2.0 == y + h / 2.0
  {
    var top, nh := StretchedTop(y, h, factor), StretchedHeight(h, factor);
    var m := attrib["y" := show(top)]["height" := show(nh)];
    assert StretchedRect(attrib, factor, show, read) == Success(m);
    assert m["y"] == show(top) && m["height"] == show(nh);
    CentreKept(y, h, factor);
  }

  /** Moving the top edge up by half the added height keeps the centre. */
  lemma CentreKept(y: real, h: real, factor: real)
    ensures StretchedTop(y, h, factor) + StretchedHeight(h, factor) / 2.0 == y + h / 2.0
  {
    var cy := y + h / 2.0;
    assert StretchedTop(y, h, factor) == cy - (h * factor) / 2.0;
  }

  function Xs(points: seq<Point>): (r: seq<real>)
    ensures |r| == |points| && forall i :: 0 <= i < |points| ==> r[i] == points[i].x
  {
    seq(|points|, i requires 0 <= i < |points| => points[i].x)
  }

  function Ys(points: seq<Point>): (r: seq<real>)
    ensures |r| == |points| && forall i :: 0 <= i < |points| ==> r[i] == points[i].y
  {
    seq(|points|, i requires 0 <= i < |points| => points[i].y)
  }

  /** One coordinate moved out to the grown box: to `lo - expand` when it lies within 1e-6 of the
      least value `lo`, else to `hi + expand`. */
  function Snap(v: real, lo: real, hi: real, expand: real): real
  {
    if Abs(v - lo) < 0.000001 then lo - expand else hi + expand
  }

  /** Each point moved to a corner of the box `[loX, hiX] x [loY, hiY]` grown by `expand`. */
  function SnappedAll(points: seq<Point>, loX: real, hiX: real, loY: real, hiY: real, expand: real): (r: seq<Point>)
    ensures |r| == |points|
    ensures forall i :: 0 <= i < |points| ==>
      r[i] == Point(Snap(points[i].x, loX, hiX, expand), Snap(points[i].y, loY, hiY, expand))
  {
    seq(|points|, i requires 0 <= i < |points| =>
      Point(Snap(points[i].x, loX, hiX, expand), Snap(points[i].y, loY, hiY, expand)))
  }

  /** expand_points (and expand_polygon_points, its copy): every point moved to a corner of the
      bounding box grown by `expand`; `min()` of no points raises ValueError. */
  function ExpandedPoints(points: seq<Point>, expand: real): Result<seq<Point>>
  {
    if points == [] then Failure(ValueError)
    else Success(SnappedAll(points, Min(Xs(points)), Max(Xs(points)), Min(Ys(points)), Max(Ys(points)), expand))
  }

  /** expand_points: the bounding box of the points, then the loop that moves each point. */
  method ExpandPoints(points: seq<Point>, expand: real) returns (r: Result<seq<Point>>)
    ensures r == ExpandedPoints(points, expand)
  {
    if points == [] {
      return Failure(ValueError);
    }
    var xs, ys := Xs(points), Ys(points);
    var expanded := SnapPoints(points, Min(xs), Max(xs), Min(ys), Max(ys), expand);
    return Success(expanded);
  }

  /** The loop of expand_points, given the least and greatest x and y of the points. */
  method SnapPoints(points: seq<Point>, lowX: real, highX: real, lowY: real, highY: real, expand: real)
    returns (expanded: seq<Point>)
    ensures expanded == SnappedAll(points, lowX, highX, lowY, highY, expand)
  {
    var minX, maxX, minY, maxY := lowX - expand, highX + expand, lowY - expand, highY + expand;
    expanded := [];
    for i := 0 to |points|
      invariant expanded == SnappedAll(points[..i], lowX, highX, lowY, highY, expand)
    {
      var p := points[i];
      var newX := if Abs(p.x - lowX) < 0.000001 then minX else maxX;
      var newY := if Abs(p.y - lowY) < 0.000001 then minY else maxY;
      expanded := expanded + [Point(newX, newY)];
      assert points[..i + 1] == points[..i] + [p];
    }
    assert points[..|points|] == points;
  }

  /** The moved coordinates span the grown interval: each is one of its two ends, the least
      value goes to the lower end, and a value at least 1e-6 above the least goes to the upper
      end. */
  predicate SpansGrown(out: seq<real>, from: seq<real>, expand: real)
    requires from != [] && |out| == |from|
  {
    && (forall i :: 0 <= i < |out| ==> out[i] == Min(from) - expand || out[i] == Max(from) + expand)
    && (forall i :: 0 <= i < |out| && from[i] == Min(from) ==> out[i] == Min(from) - expand)
    && (forall i :: 0 <= i < |out| && from[i] >= Min(from) + 0.000001 ==> out[i] == Max(from) + expand)
  }

  /** Every expanded point is a corner of the grown bounding box, the box's lower corner is taken
      by the points on the least x and y, and the far side by every point well away from them. */
  lemma ExpandedPointsCorners(points: seq<Point>, expand: real)
    requires points != []
    ensures var out := ExpandedPoints(points, expand).value;
      && |out| == |points|
      && SpansGrown(Xs(out), Xs(points), expand)
      && SpansGrown(Ys(out), Ys(points), expand)
  {
    var out := ExpandedPoints(points, expand).value;
    SnappedSpans(Xs(out), Xs(points), expand);
    SnappedSpans(Ys(out), Ys(points), expand);
  }

  /** One axis of the above: values snapped to the ends of their grown range span it. */
  lemma SnappedSpans(out: seq<real>, from: seq<real>, expand: real)
    requires from != [] && |out| == |from|
    requires forall i :: 0 <= i < |out| ==> out[i] == Snap(from[i], Min(from), Max(from), expand)
    ensures SpansGrown(out, from, expand)
  {
  }

  /** Sum of a list of numbers. */
  function SumR(s: seq<real>): real
  {
    if s == [] then 0.0 else SumR(s[..|s| - 1]) + s[|s| - 1]
  }

  /** The signed distance of each value from `c`. */
  function Offsets(ys: seq<real>, c: real): seq<real>
  {
    seq(|ys|, i requires 0 <= i < |ys| => ys[i] - c)
  }

  /** The distances from `c` add up to the sum less `c` once per value. */
  lemma {:induction false} OffsetsSum(ys: seq<real>, c: real)
    ensures SumR(Offsets(ys, c)) == SumR(ys) - |ys| as real * c
    decreases |ys|
  {
    if ys != [] {
      var n := |ys| - 1;
      assert Offsets(ys, c)[..n] == Offsets(ys[..n], c);
      OffsetsSum(ys[..n], c);
      assert (n as real + 1.0) * c == n as real * c + c;
    }
  }

  /** Every value of `b` is `f` times the value of `a` at the same place. */
  predicate IsMultiple(b: seq<real>, a: seq<real>, f: real)
  {
    |a| == |b| && forall i :: 0 <= i < |a| ==> b[i] == f * a[i]
  }

  /** Multiplying every value by `f` multiplies the sum by `f`. */
  lemma {:induction false} SumMultiple(b: seq<real>, a: seq<real>, f: real)
    requires IsMultiple(b, a, f)
    ensures SumR(b) == f * SumR(a)
    decreases |a|
  {
    if a != [] {
      var n := |a| - 1;
      var s, t := SumR(a[..n]), SumR(b[..n]);
      assert t == f * s by {
        assert IsMultiple(b[..n], a[..n], f);
        SumMultiple(b[..n], a[..n], f);
      }
      MultipleStep(f, s, a[n], SumR(a), t, b[n], SumR(b));
    }
  }

  lemma MultipleStep(f: real, s: real, x: real, sx: real, t: real, y: real, ty: real)
    requires sx == s + x && ty == t + y
    requires t == f * s && y == f * x
    ensures ty == f * sx
  {
  }

  /** stretch_y_points: every y moved away from the mean y by `factor` times its distance, x
      kept; the mean of no points raises ZeroDivisionError. */
  function StretchedYPoints(points: seq<Point>, factor: real): (r: Result<seq<Point>>)
    ensures r.Failure? <==> points == []
    ensures r.Failure? ==> r.error == ZeroDivisionError
    ensures r.Success? ==> |r.value| == |points| && Xs(r.value) == Xs(points)
  {
    if points == [] then Failure(ZeroDivisionError)
    else
      var cy := SumR(Ys(points)) / |points| as real;
      Success(seq(|points|, i requires 0 <= i < |points| => Point(points[i].x, cy + (points[i].y - cy) * factor)))
  }

  /** Stretching keeps the mean y, whatever the factor. */
  lemma StretchKeepsMean(points: seq<Point>, factor: real)
    requires points != []
    ensures SumR(Ys(StretchedYPoints(points, factor).value)) == SumR(Ys(points))
  {
    var ys := Ys(points);
    var n := |points| as real;
    var cy := SumR(ys) / n;
    var outYs := Ys(StretchedYPoints(points, factor).value);
    StretchedOffsets(points, factor);
    SumMultiple(Offsets(outYs, cy), Offsets(ys, cy), factor);
    assert n * cy == SumR(ys);
    OffsetsSum(ys, cy);
    OffsetsSum(outYs, cy);
  }

  /** Each new y is `factor` times as far from the mean y as the old one, on the same side. */
  lemma StretchedOffsets(points: seq<Point>, factor: real)
    requires points != []
    ensures var cy := SumR(Ys(points)) / |points| as real;
      IsMultiple(Offsets(Ys(StretchedYPoints(points, factor).value), cy), Offsets(Ys(points), cy), factor)
  {
    var cy := SumR(Ys(points)) / |points| as real;
    var out := Ys(StretchedYPoints(points, factor).value);
    forall i | 0 <= i < |points|
      ensures Offsets(out, cy)[i] == factor * Offsets(Ys(points), cy)[i]
    {
      StretchedYAt(points, factor, cy, i);
    }
  }

  lemma StretchedYAt(points: seq<Point>, factor: real, cy: real, i: nat)
    requires i < |points| && cy == SumR(Ys(points)) / |points| as real
    ensures Offsets(Ys(StretchedYPoints(points, factor).value), cy)[i] == factor * Offsets(Ys(points), cy)[i]
  {
    var y := Ys(points)[i];
    var ny := Ys(StretchedYPoints(points, factor).value)[i];
    assert ny == cy + (y - cy) * factor;
    assert ny - cy == factor * (y - cy);
  }

  /** The value of an attribute, None when it is absent (`attrib.get(key)`). */
  function Attr(e: Element, key: string): Option<string>
  {
    if key in e.attrs then Some(e.attrs[key]) else None
  }

  /** `elem.attrib.get('d', '').strip()` */
  function PathD(e: Element): string
  {
    Strip(Get(e.attrs, "d", ""))
  }

  /** A path dropped by extract_shapes: its normal form is listed for removal, or it is a thin
      rectangle 0.4064 high within 0.01. */
  predicate RemovedPath(d: string, removeNorm: seq<string>)
  {
    NormalizeD(d) in removeNorm || IsThinRectanglePath(d, 0.4064, 0.01)
  }

  predicate IsShape(e: Element)
  {
    Named(e, "path") || Named(e, "polygon") || Named(e, "polyline") || Named(e, "rect")
  }

  /** An element extract_shapes skips, along with everything below it. */
  predicate Skipped(e: Element, dropRect: Option<string> -> bool, dropPath: string -> bool)
  {
    (Named(e, "rect") && dropRect(Attr(e, "height"))) || (Named(e, "path") && dropPath(PathD(e)))
  }

  /** What a walk appends: shapes to the new root, and the four lists it reports. */
  datatype Tally = Tally(shapes: seq<Element>, removedRects: seq<Option<string>>, keptRects: seq<Option<string>>,
                         removedPaths: seq<string>, keptPaths: seq<string>)
  {
    function Then(t: Tally): Tally
    {
      Tally(shapes + t.shapes, removedRects + t.removedRects, keptRects + t.keptRects,
            removedPaths + t.removedPaths, keptPaths + t.keptPaths)
    }
  }

  const NoTally := Tally([], [], [], [], [])

  /** Recording in two steps is recording the two together (kept apart from the frame reasoning
      of the methods that use it). */
  lemma ThenAssoc(a: Tally, b: Tally, c: Tally)
    ensures a.Then(b).Then(c) == a.Then(b.Then(c))
  {
  }

  /** The visit of one element: a skipped rect or path is only recorded; anything else records a
      kept rect or path, copies itself bare if it is a shape, then has its children visited. */
  function CutElement(e: Element, dropRect: Option<string> -> bool, dropPath: string -> bool): Tally
    decreases e
  {
    if Named(e, "rect") && dropRect(Attr(e, "height")) then Tally([], [Attr(e, "height")], [], [], [])
    else if Named(e, "path") && dropPath(PathD(e)) then Tally([], [], [], [PathD(e)], [])
    else Kept(e).Then(CutForest(e.children, dropRect, dropPath))
  }

  /** What a visited element that is not skipped records of itself. */
  function Kept(e: Element): Tally
  {
    Tally(if IsShape(e) then [Bare(e)] else [], [],
          if Named(e, "rect") then [Attr(e, "height")] else [], [],
          if Named(e, "path") then [PathD(e)] else [])
  }

  /** The visits of a list of siblings, in order. */
  function CutForest(es: seq<Element>, dropRect: Option<string> -> bool, dropPath: string -> bool): Tally
    decreases es
  {
    if es == [] then NoTally else CutElement(es[0], dropRect, dropPath).Then(CutForest(es[1..], dropRect, dropPath))
  }

  /** The four lists extract_shapes appends to besides the new root. */
  class ShapeLog {
    var removedRects: seq<Option<string>>
    var keptRects: seq<Option<string>>
    var removedPaths: seq<string>
    var keptPaths: seq<string>

    constructor ()
      ensures removedRects == [] && keptRects == [] && removedPaths == [] && keptPaths == []
    {
      removedRects, keptRects, removedPaths, keptPaths := [], [], [], [];
    }
  }

  /** The shapes appended so far and the four lists, as one record. */
  function Recorded(out: NewRoot, log: ShapeLog): Tally
    reads out, log
  {
    Tally(out.children, log.removedRects, log.keptRects, log.removedPaths, log.keptPaths)
  }

  /** extract_shapes(parent) */
  method ExtractShapes(out: NewRoot, log: ShapeLog, parent: Element, dropRect: Option<string> -> bool, dropPath: string -> bool)
    modifies out, log
    ensures out.tag == old(out.tag) && out.attrs == old(out.attrs)
    ensures Recorded(out, log) == old(Recorded(out, log)).Then(CutForest(parent.children, dropRect, dropPath))
    decreases parent, 1
  {
    var i := 0;
    while i < |parent.children|
      invariant 0 <= i <= |parent.children|
      invariant out.tag == old(out.tag) && out.attrs == old(out.attrs)
      invariant Recorded(out, log).Then(CutForest(parent.children[i..], dropRect, dropPath))
        == old(Recorded(out, log)).Then(CutForest(parent.children, dropRect, dropPath))
    {
      ghost var before := Recorded(out, log);
      VisitElement(out, log, parent.children[i], dropRect, dropPath);
      ForestStep(before, parent.children, i, dropRect, dropPath);
      i := i + 1;
    }
    ForestDone(Recorded(out, log), parent.children, dropRect, dropPath);
  }

  /** Visiting the `i`-th sibling, then the rest, is visiting the siblings from the `i`-th on. */
  lemma ForestStep(t: Tally, es: seq<Element>, i: nat, dropRect: Option<string> -> bool, dropPath: string -> bool)
    requires i < |es|
    ensures t.Then(CutElement(es[i], dropRect, dropPath)).Then(CutForest(es[i + 1..], dropRect, dropPath))
      == t.Then(CutForest(es[i..], dropRect, dropPath))
  {
    assert es[i..][1..] == es[i + 1..];
    ThenAssoc(t, CutElement(es[i], dropRect, dropPath), CutForest(es[i + 1..], dropRect, dropPath));
  }

  /** Once every sibling is visited nothing is left to record. */
  lemma ForestDone(t: Tally, es: seq<Element>, dropRect: Option<string> -> bool, dropPath: string -> bool)
    ensures t.Then(CutForest(es[|es|..], dropRect, dropPath)) == t
  {
    assert es[|es|..] == [];
  }

  /** The body of extract_shapes' loop for one element. */
  method VisitElement(out: NewRoot, log: ShapeLog, elem: Element, dropRect: Option<string> -> bool, dropPath: string -> bool)
    modifies out, log
    ensures out.tag == old(out.tag) && out.attrs == old(out.attrs)
    ensures Recorded(out, log) == old(Recorded(out, log)).Then(CutElement(elem, dropRect, dropPath))
    decreases elem, 2
  {
    ghost var start := Recorded(out, log);
    CutElementCases(elem, dropRect, dropPath);
    var skipped := VisitOwn(out, log, elem, dropRect, dropPath);
    if skipped {
      return;
    }
    if |elem.children| > 0 {
      ExtractShapes(out, log, elem, dropRect, dropPath);
    }
    ThenAssoc(start, Kept(elem), CutForest(elem.children, dropRect, dropPath));
  }

  /** The part of the loop body about the element itself: a rect whose height `dropRect` rejects,
      or a path whose `d` `dropPath` rejects, is recorded as removed and the element skipped;
      anything else is recorded as kept and copied bare if it is a shape. */
  method VisitOwn(out: NewRoot, log: ShapeLog, elem: Element, dropRect: Option<string> -> bool, dropPath: string -> bool)
    returns (skipped: bool)
    modifies out, log
    ensures out.tag == old(out.tag) && out.attrs == old(out.attrs)
    ensures skipped == Skipped(elem, dropRect, dropPath)
    ensures skipped ==> Recorded(out, log) == old(Recorded(out, log)).Then(CutElement(elem, dropRect, dropPath))
    ensures !skipped ==> Recorded(out, log) == old(Recorded(out, log)).Then(Kept(elem))
  {
    ghost var start := Recorded(out, log);
    CutElementCases(elem, dropRect, dropPath);
    if Named(elem, "rect") {
      var heightVal := Attr(elem, "height");
      if dropRect(heightVal) {
        log.removedRects := log.removedRects + [heightVal];
        assert Recorded(out, log) == start.Then(Tally([], [heightVal], [], [], []));
        return true;
      } else {
        log.keptRects := log.keptRects + [heightVal];
      }
    }
    if Named(elem, "path") {
      var dVal := PathD(elem);
      var removed := dropPath(dVal);
      if removed {
        log.removedPaths := log.removedPaths + [dVal];
        assert !Named(elem, "rect");
        assert out.children == start.shapes && log.removedRects == start.removedRects;
        assert log.keptRects == start.keptRects && log.keptPaths == start.keptPaths;
        return true;
      } else {
        log.keptPaths := log.keptPaths + [dVal];
      }
    }
    if IsShape(elem) {
      out.Append(Bare(elem));
    }
    ThenKept(start, elem, Recorded(out, log));
    return false;
  }

  /** The record after a kept element, field by field. */
  lemma ThenKept(start: Tally, e: Element, now: Tally)
    requires now.shapes == start.shapes + (if IsShape(e) then [Bare(e)] else [])
    requires now.removedRects == start.removedRects && now.removedPaths == start.removedPaths
    requires now.keptRects == start.keptRects + (if Named(e, "rect") then [Attr(e, "height")] else [])
    requires now.keptPaths == start.keptPaths + (if Named(e, "path") then [PathD(e)] else [])
    ensures now == start.Then(Kept(e))
  {
  }

  /** The three ways a visit can go. */
  lemma CutElementCases(e: Element, dropRect: Option<string> -> bool, dropPath: string -> bool)
    ensures Named(e, "rect") && dropRect(Attr(e, "height")) ==> CutElement(e, dropRect, dropPath) == Tally([], [Attr(e, "height")], [], [], [])
    ensures Named(e, "path") && dropPath(PathD(e)) ==> CutElement(e, dropRect, dropPath) == Tally([], [], [], [PathD(e)], [])
    ensures !Skipped(e, dropRect, dropPath) ==> CutElement(e, dropRect, dropPath) == Kept(e).Then(CutForest(e.children, dropRect, dropPath))
  {
    if Named(e, "path") {
      assert !Named(e, "rect");
    }
  }

  /** The test of a path's `d`: listed for removal once normalised, or else a thin rectangle. */
  method PathRemoved(dVal: string, removeNorm: seq<string>) returns (removed: bool)
    ensures removed == RemovedPath(dVal, removeNorm)
  {
    var dNorm := NormalizeD(dVal);
    if dNorm in removeNorm {
      return true;
    }
    removed := ThinRectangleCheck(dVal, 0.4064, 0.01);
  }

  /** The path test with the listed paths of this program. */
  function RemovedPathOf(d: string): bool
  {
    RemovedPath(d, RemovePathDNorm())
  }

  /** split_svg_objects on the parsed input: the new root with the input root's tag and
      attributes, its `defs` and `style` children, then the shapes kept; and the four lists it
      reports. */
  method SplitSvgObjects(root: Element) returns (result: Element, report: Tally)
    ensures result == Element(root.tag, root.attrs, DefsAndStyles(root.children) + CutForest(root.children, IsHeight406, RemovedPathOf).shapes)
    ensures report == CutForest(root.children, IsHeight406, RemovedPathOf).(shapes := [])
  {
    result, report := SplitBy(root, IsHeight406, RemovedPathOf);
  }

  /** The body of split_svg_objects, with the rect test and the path test as parameters. */
  method SplitBy(root: Element, dropRect: Option<string> -> bool, dropPath: string -> bool) returns (result: Element, report: Tally)
    ensures result == Element(root.tag, root.attrs, DefsAndStyles(root.children) + CutForest(root.children, dropRect, dropPath).shapes)
    ensures report == CutForest(root.children, dropRect, dropPath).(shapes := [])
  {
    var out := new NewRoot(root.tag, root.attrs);
    CopyDefsAndStyles(out, root.children);
    var log := new ShapeLog();
    ghost var t := CutForest(root.children, dropRect, dropPath);
    ghost var before := Recorded(out, log);
    assert before == Tally(DefsAndStyles(root.children), [], [], [], []);
    ExtractShapes(out, log, root, dropRect, dropPath);
    assert Recorded(out, log) == before.Then(t);
    assert out.children == DefsAndStyles(root.children) + t.shapes;
    result := out.Snapshot();
    report := Tally([], log.removedRects, log.keptRects, log.removedPaths, log.keptPaths);
  }
  /** Every shape the walk collects is a bare copy of a shape element that neither test rejects. */
  lemma {:induction false} CutShapesClean(es: seq<Element>, dropRect: Option<string> -> bool, dropPath: string -> bool)
    ensures forall x :: x in CutForest(es, dropRect, dropPath).shapes ==>
      IsShape(x) && x.children == [] && !Skipped(x, dropRect, dropPath)
    decreases es
  {
    if es != [] {
      CutElementClean(es[0], dropRect, dropPath);
      CutShapesClean(es[1..], dropRect, dropPath);
    }
  }

  lemma {:induction false} CutElementClean(e: Element, dropRect: Option<string> -> bool, dropPath: string -> bool)
    ensures forall x :: x in CutElement(e, dropRect, dropPath).shapes ==>
      IsShape(x) && x.children == [] && !Skipped(x, dropRect, dropPath)
    decreases e
  {
    CutElementCases(e, dropRect, dropPath);
    if !Skipped(e, dropRect, dropPath) {
      CutShapesClean(e.children, dropRect, dropPath);
      assert Attr(Bare(e), "height") == Attr(e, "height") && PathD(Bare(e)) == PathD(e);
    }
  }

  /** `x` is one of the siblings, or lies below one of them that the walk descends into, that
      is one neither test rejects. */
  predicate Reached(x: Element, es: seq<Element>, dropRect: Option<string> -> bool, dropPath: string -> bool)
    decreases es
  {
    exists k :: 0 <= k < |es| &&
      (es[k] == x || (!Skipped(es[k], dropRect, dropPath) && Reached(x, es[k].children, dropRect, dropPath)))
  }

  /** What the visit of one sibling records, the visit of all the siblings records too. */
  lemma {:induction false} ElementInForest(es: seq<Element>, k: nat, dropRect: Option<string> -> bool, dropPath: string -> bool)
    requires k < |es|
    ensures var t, u := CutElement(es[k], dropRect, dropPath), CutForest(es, dropRect, dropPath);
      && (forall x :: x in t.shapes ==> x in u.shapes)
      && (forall h :: h in t.removedRects ==> h in u.removedRects)
      && (forall d :: d in t.removedPaths ==> d in u.removedPaths)
    decreases k
  {
    if k > 0 {
      assert es[1..][k - 1] == es[k];
      ElementInForest(es[1..], k - 1, dropRect, dropPath);
    }
  }

  /** A visited element that is not skipped records whatever the visit of its children records. */
  lemma ChildrenInElement(e: Element, dropRect: Option<string> -> bool, dropPath: string -> bool)
    requires !Skipped(e, dropRect, dropPath)
    ensures var t, u := CutForest(e.children, dropRect, dropPath), CutElement(e, dropRect, dropPath);
      && (forall x :: x in t.shapes ==> x in u.shapes)
      && (forall h :: h in t.removedRects ==> h in u.removedRects)
      && (forall d :: d in t.removedPaths ==> d in u.removedPaths)
  {
    CutElementCases(e, dropRect, dropPath);
  }

  /** A skipped rect or path copies nothing, of itself or of anything below it. */
  lemma SkippedCopiesNothing(e: Element, dropRect: Option<string> -> bool, dropPath: string -> bool)
    requires Skipped(e, dropRect, dropPath)
    ensures CutElement(e, dropRect, dropPath).shapes == []
  {
    CutElementCases(e, dropRect, dropPath);
  }

  /** A shape that neither test rejects, among the siblings or below any of them that is not
      skipped, has its bare copy collected. */
  lemma {:induction false} ShapeCollected(x: Element, es: seq<Element>, dropRect: Option<string> -> bool, dropPath: string -> bool)
    requires Reached(x, es, dropRect, dropPath) && IsShape(x) && !Skipped(x, dropRect, dropPath)
    ensures Bare(x) in CutForest(es, dropRect, dropPath).shapes
    decreases es
  {
    var k :| 0 <= k < |es| &&
      (es[k] == x || (!Skipped(es[k], dropRect, dropPath) && Reached(x, es[k].children, dropRect, dropPath)));
    if es[k] == x {
      CutElementCases(x, dropRect, dropPath);
      assert Kept(x).shapes == [Bare(x)];
    } else {
      ShapeCollected(x, es[k].children, dropRect, dropPath);
      ChildrenInElement(es[k], dropRect, dropPath);
    }
    ElementInForest(es, k, dropRect, dropPath);
  }

  /** A rect whose height the test rejects, among the siblings or below any of them that is not
      skipped, is reported removed, and nothing of it or below it is copied. */
  lemma {:induction false} RectReported(x: Element, es: seq<Element>, dropRect: Option<string> -> bool, dropPath: string -> bool)
    requires Reached(x, es, dropRect, dropPath) && Named(x, "rect") && dropRect(Attr(x, "height"))
    ensures Attr(x, "height") in CutForest(es, dropRect, dropPath).removedRects
    ensures CutElement(x, dropRect, dropPath) == Tally([], [Attr(x, "height")], [], [], [])
    decreases es
  {
    var k :| 0 <= k < |es| &&
      (es[k] == x || (!Skipped(es[k], dropRect, dropPath) && Reached(x, es[k].children, dropRect, dropPath)));
    CutElementCases(x, dropRect, dropPath);
    if es[k] != x {
      RectReported(x, es[k].children, dropRect, dropPath);
      ChildrenInElement(es[k], dropRect, dropPath);
    }
    ElementInForest(es, k, dropRect, dropPath);
  }

  /** A path whose `d` the test rejects, among the siblings or below any of them that is not
      skipped, is reported removed, and nothing of it or below it is copied. */
  lemma {:induction false} PathReported(x: Element, es: seq<Element>, dropRect: Option<string> -> bool, dropPath: string -> bool)
    requires Reached(x, es, dropRect, dropPath) && Named(x, "path") && dropPath(PathD(x))
    ensures PathD(x) in CutForest(es, dropRect, dropPath).removedPaths
    ensures CutElement(x, dropRect, dropPath) == Tally([], [], [], [PathD(x)], [])
    decreases es
  {
    var k :| 0 <= k < |es| &&
      (es[k] == x || (!Skipped(es[k], dropRect, dropPath) && Reached(x, es[k].children, dropRect, dropPath)));
    CutElementCases(x, dropRect, dropPath);
    if es[k] != x {
      PathReported(x, es[k].children, dropRect, dropPath);
      ChildrenInElement(es[k], dropRect, dropPath);
    }
    ElementInForest(es, k, dropRect, dropPath);
  }
}
