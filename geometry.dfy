/** The pure path helpers of extract_enclosed.py: coordinate extraction from a path's `d` text,
    bounding box, dimensions, the closed test, the thinness test and the canvas-boundary test.
    invert_svg_clean.py and filter_thin_paths.py repeat the same helpers word for word;
    remove_thin_lines.py, remove_zero_thickness.py and analyze_paths.py compute the dimensions
    without the bounding box (SpanDimensions), which is proved to agree. */
module Geometry {
  import opened Wrappers
  import opened Lex

  /** The regex `-?\d+\.?\d*` matched at the start of `s`, with the value float() gives it. */
  function CoordMatch(s: string): (r: Option<Lexeme>)
    ensures r.Some? ==> 0 < r.value.len <= |s|
    ensures r.Some? <==> DigitRun(s) > 0 || (|s| > 1 && s[0] == '-' && IsDigit(s[1]))
  {
    if NegativeStart(s) then
      var m := Mantissa(s[1..]).value;
      Some(Lexeme(m.len + 1, -m.value))
    else if DigitRun(s) > 0 then
      Mantissa(s)
    else
      None
  }

  /** A '-' followed by a digit. */
  predicate NegativeStart(s: string)
  {
    |s| > 1 && s[0] == '-' && DigitRun(s[1..]) > 0
  }

  /** parse_path_commands: every match of `-?\d+\.?\d*` in `d`, left to right, as a number.
      Characters where no match starts are skipped one at a time. */
  function PathCoords(d: string): seq<real>
    decreases |d|
  {
    if d == [] then []
    else match CoordMatch(d)
      case Some(m) => [m.value] + PathCoords(d[m.len..])
      case None => PathCoords(d[1..])
  }

  /** A character that can neither start nor continue a coordinate. */
  predicate IsSeparator(c: char)
  {
    !IsDigit(c) && c != '.' && c != '-'
  }

  lemma {:induction false} DigitRunConcat(a: string, c: char, b: string)
    requires !IsDigit(c)
    ensures DigitRun(a + [c] + b) == DigitRun(a)
    decreases |a|
  {
    if a == [] {
      assert (a + [c] + b)[0] == c;
    } else if IsDigit(a[0]) {
      assert (a + [c] + b)[1..] == a[1..] + [c] + b;
      DigitRunConcat(a[1..], c, b);
    }
  }

  /** A match never reaches past a separator. */
  lemma MantissaConcat(a: string, c: char, b: string)
    requires IsSeparator(c)
    ensures Mantissa(a + [c] + b) == Mantissa(a)
  {
    DigitRunConcat(a, c, b);
    var n := DigitRun(a);
    if n > 0 {
      WholeMantissaConcat(a, c, b, n);
    } else if |a| > 1 && a[0] == '.' {
      var s := a + [c] + b;
      assert s[1..] == a[1..] + [c] + b;
      DigitRunConcat(a[1..], c, b);
      var m := DigitRun(a[1..]);
      assert s[1..1 + m] == a[1..1 + m];
    } else if |a| == 1 && a[0] == '.' {
      assert (a + [c] + b)[1] == c;
    }
  }

  lemma WholeMantissaConcat(a: string, c: char, b: string, n: nat)
    requires IsSeparator(c) && n > 0
    requires DigitRun(a) == n && DigitRun(a + [c] + b) == n
    ensures Mantissa(a + [c] + b) == Mantissa(a)
  {
    if n < |a| && a[n] == '.' {
      PointMantissaConcat(a, c, b, n);
    } else {
      var s := a + [c] + b;
      assert s[..n] == a[..n];
      if n < |a| {
        assert s[n] == a[n];
      } else {
        assert s[n] == c;
      }
    }
  }

  /** The case of a digit run followed by a point. */
  lemma PointMantissaConcat(a: string, c: char, b: string, n: nat)
    requires IsSeparator(c) && 0 < n < |a| && a[n] == '.'
    requires DigitRun(a) == n && DigitRun(a + [c] + b) == n
    ensures Mantissa(a + [c] + b) == Mantissa(a)
  {
    var s := a + [c] + b;
    assert s[..n] == a[..n];
    assert s[n] == '.';
    assert s[n + 1..] == a[n + 1..] + [c] + b;
    DigitRunConcat(a[n + 1..], c, b);
    var m := DigitRun(a[n + 1..]);
    assert s[n + 1..n + 1 + m] == a[n + 1..n + 1 + m];
    PointMantissa(a, n, m, a[..n], a[n + 1..n + 1 + m]);
    PointMantissa(s, n, m, a[..n], a[n + 1..n + 1 + m]);
  }

  lemma CoordMatchConcat(a: string, c: char, b: string)
    requires IsSeparator(c)
    ensures CoordMatch(a + [c] + b) == CoordMatch(a)
  {
    DigitRunConcat(a, c, b);
    MantissaConcat(a, c, b);
    NegativeConcat(a, c, b);
    SameMatch(a + [c] + b, a);
  }

  /** Two texts that agree on the parts of the regex match agree on the match. */
  lemma SameMatch(s: string, a: string)
    requires NegativeStart(s) == NegativeStart(a) && DigitRun(s) == DigitRun(a) && Mantissa(s) == Mantissa(a)
    requires NegativeStart(a) ==> Mantissa(s[1..]) == Mantissa(a[1..])
    ensures CoordMatch(s) == CoordMatch(a)
  {
  }

  /** A number starting with '-' is recognised before a separator as it is without what follows. */
  lemma NegativeConcat(a: string, c: char, b: string)
    requires IsSeparator(c)
    ensures NegativeStart(a + [c] + b) == NegativeStart(a)
    ensures NegativeStart(a) ==> Mantissa((a + [c] + b)[1..]) == Mantissa(a[1..])
  {
    var s := a + [c] + b;
    if |a| >= 1 && a[0] == '-' {
      assert s[1..] == a[1..] + [c] + b;
      DigitRunConcat(a[1..], c, b);
      MantissaConcat(a[1..], c, b);
      if |a| == 1 {
        assert s[1] == c;
      }
    }
  }

  /** The coordinates of two texts joined by a separator are those of the first followed by
      those of the second: command letters, spaces and commas only separate numbers. */
  lemma {:induction false} PathCoordsConcat(a: string, c: char, b: string)
    requires IsSeparator(c)
    ensures PathCoords(a + [c] + b) == PathCoords(a) + PathCoords(b)
    decreases |a|
  {
    var s := a + [c] + b;
    CoordMatchConcat(a, c, b);
    if a == [] {
      assert s[1..] == b;
    } else {
      match CoordMatch(a)
      case Some(m) =>
        assert s[m.len..] == a[m.len..] + [c] + b;
        PathCoordsConcat(a[m.len..], c, b);
      case None =>
        assert s[1..] == a[1..] + [c] + b;
        PathCoordsConcat(a[1..], c, b);
    }
  }

  /** A numeral scans as exactly one coordinate, its own value. */
  lemma NumeralCoords(n: Numeral)
    requires n.Valid()
    ensures PathCoords(n.Text()) == [n.Value()]
  {
    var t := n.Text();
    var u := n.Unsigned();
    UnsignedNumeralMatch(n);
    DigitRunOfDigits(n.whole, if n.frac == [] then "" else "." + n.frac);
    if n.negative {
      assert t == "-" + u;
      assert t[1..] == u;
    } else {
      assert t == u;
    }
    var len := |t|;
    assert CoordMatch(t) == Some(Lexeme(len, n.Value()));
    assert t[len..] == [];
  }

  /** One token of a path's `d` text: a command letter or a numeral. */
  datatype PathToken = Command(letter: char) | Number(n: Numeral)

  predicate ValidToken(t: PathToken)
  {
    match t
    case Command(l) => IsAsciiLetter(l)
    case Number(n) => n.Valid()
  }

  /** A token followed by the separator written after it (a space or a comma, say). */
  datatype Piece = Piece(token: PathToken, sep: char)

  function TokenText(t: PathToken): string
  {
    match t
    case Command(l) => [l]
    case Number(n) => n.Text()
  }

  function PiecesText(ps: seq<Piece>): string
  {
    if ps == [] then "" else TokenText(ps[0].token) + [ps[0].sep] + PiecesText(ps[1..])
  }

  /** The values of the numerals among the tokens, in order. */
  function NumeralValues(ps: seq<Piece>): seq<real>
  {
    if ps == [] then []
    else (match ps[0].token case Number(n) => [n.Value()] case Command(_) => []) + NumeralValues(ps[1..])
  }

  /** Coordinate extraction is exact: the coordinates of a path written as commands and numerals
      with separators are the numerals' values in order, and command letters contribute nothing. */
  lemma {:induction false} PathCoordsOfPieces(ps: seq<Piece>)
    requires forall i :: 0 <= i < |ps| ==> ValidToken(ps[i].token) && IsSeparator(ps[i].sep)
    ensures PathCoords(PiecesText(ps)) == NumeralValues(ps)
    decreases |ps|
  {
    if ps != [] {
      var p := ps[0];
      PathCoordsConcat(TokenText(p.token), p.sep, PiecesText(ps[1..]));
      PathCoordsOfPieces(ps[1..]);
      match p.token
      case Number(n) => NumeralCoords(n);
      case Command(l) =>
        assert CoordMatch([l]) == None;
        assert [l][1..] == [];
    }
  }

  /** s[0::2] */
  function Evens(s: seq<real>): (r: seq<real>)
    ensures |s| == 2 * |r| || |s| == 2 * |r| - 1
    ensures forall i :: 0 <= i < |r| ==> r[i] == s[2 * i]
  {
    if s == [] then [] else if |s| == 1 then [s[0]] else [s[0]] + Evens(s[2..])
  }

  /** s[1::2] */
  function Odds(s: seq<real>): (r: seq<real>)
    ensures |s| == 2 * |r| || |s| == 2 * |r| + 1
    ensures forall i :: 0 <= i < |r| ==> r[i] == s[2 * i + 1]
  {
    if |s| < 2 then [] else [s[1]] + Odds(s[2..])
  }

  /** Python's min() on a non-empty list. */
  function Min(s: seq<real>): (m: real)
    requires s != []
    ensures m in s
    ensures forall i :: 0 <= i < |s| ==> m <= s[i]
  {
    if |s| == 1 then s[0]
    else
      var r := Min(s[1..]);
      if s[0] <= r then s[0] else r
  }

  /** Python's max() on a non-empty list. */
  function Max(s: seq<real>): (m: real)
    requires s != []
    ensures m in s
    ensures forall i :: 0 <= i < |s| ==> s[i] <= m
  {
    if |s| == 1 then s[0]
    else
      var r := Max(s[1..]);
      if s[0] >= r then s[0] else r
  }

  datatype BBox = BBox(minX: real, minY: real, maxX: real, maxY: real)
  {
    /** `max_x - min_x` */
    function Width(): real { maxX - minX }
    /** `max_y - min_y` */
    function Height(): real { maxY - minY }
  }

  /** `lo` and `hi` are the least and the greatest element of `s`. */
  predicate Bounds(s: seq<real>, lo: real, hi: real)
  {
    lo in s && hi in s && forall i :: 0 <= i < |s| ==> lo <= s[i] <= hi
  }

  /** get_path_bbox on the list parse_path_commands returns: None for fewer than two numbers;
      otherwise the extremes of the even-indexed numbers (x) and of the odd-indexed ones (y). */
  function BBoxOf(c: seq<real>): (r: Option<BBox>)
    ensures r.None? <==> |c| < 2
    ensures r.Some? ==> Bounds(Evens(c), r.value.minX, r.value.maxX)
    ensures r.Some? ==> Bounds(Odds(c), r.value.minY, r.value.maxY)
    ensures r.Some? ==> r.value.minX <= r.value.maxX && r.value.minY <= r.value.maxY
  {
    if |c| < 2 then None
    else
      var xs := Evens(c);
      var ys := Odds(c);
      if xs == [] || ys == [] then None
      else Some(BBox(Min(xs), Min(ys), Max(xs), Max(ys)))
  }

  /** get_path_bbox */
  function PathBBox(d: string): Option<BBox>
  {
    BBoxOf(PathCoords(d))
  }

  /** The largest difference between two elements of `s` is `w`. */
  predicate Spread(s: seq<real>, w: real)
  {
    (forall i, j :: 0 <= i < |s| && 0 <= j < |s| ==> s[i] - s[j] <= w)
    && exists i, j :: 0 <= i < |s| && 0 <= j < |s| && s[i] - s[j] == w
  }

  lemma BoundsSpread(s: seq<real>, lo: real, hi: real, w: real)
    requires Bounds(s, lo, hi) && w == hi - lo
    ensures Spread(s, w)
  {
    var i :| 0 <= i < |s| && s[i] == hi;
    var j :| 0 <= j < |s| && s[j] == lo;
    assert s[i] - s[j] == w;
  }

  /** get_path_dimensions on a coordinate list: (0, 0) when there is no bounding box,
      otherwise its width and height. */
  function DimensionsOf(c: seq<real>): (r: (real, real))
    ensures r.0 >= 0.0 && r.1 >= 0.0
    ensures |c| < 2 ==> r == (0.0, 0.0)
  {
    match BBoxOf(c)
    case None => (0.0, 0.0)
    case Some(b) => (b.Width(), b.Height())
  }

  /** The width is the largest difference between two x coordinates and the height the
      largest difference between two y coordinates. */
  lemma DimensionsAreSpreads(c: seq<real>)
    requires |c| >= 2
    ensures Spread(Evens(c), DimensionsOf(c).0) && Spread(Odds(c), DimensionsOf(c).1)
  {
    var b := BBoxOf(c).value;
    assert DimensionsOf(c) == (b.Width(), b.Height());
    BoundsSpread(Evens(c), b.minX, b.maxX, b.Width());
    BoundsSpread(Odds(c), b.minY, b.maxY, b.Height());
  }

  /** get_path_dimensions */
  function PathDimensions(d: string): (real, real)
  {
    DimensionsOf(PathCoords(d))
  }

  /** get_path_dimensions of remove_thin_lines.py, remove_zero_thickness.py and
      analyze_paths.py on a coordinate list: the same spans, computed without a bounding box. */
  function SpansOf(c: seq<real>): (real, real)
  {
    if |c| < 2 then (0.0, 0.0)
    else
      var xs := Evens(c);
      var ys := Odds(c);
      if xs == [] || ys == [] then (0.0, 0.0)
      else (Range(xs), Range(ys))
  }

  /** `max(s) - min(s)` */
  function Range(s: seq<real>): real
    requires s != []
  {
    Max(s) - Min(s)
  }

  /** get_path_dimensions of remove_thin_lines.py, remove_zero_thickness.py, analyze_paths.py */
  function SpanDimensions(d: string): (real, real)
  {
    SpansOf(PathCoords(d))
  }

  /** Both ways of measuring a path give the same width and height. */
  lemma SpanDimensionsAgree(d: string)
    ensures SpanDimensions(d) == PathDimensions(d)
  {
    SpansAgree(PathCoords(d));
  }

  lemma SpansAgree(c: seq<real>)
    ensures SpansOf(c) == DimensionsOf(c)
  {
    if |c| >= 2 {
      var xs, ys := Evens(c), Odds(c);
      assert xs != [] && ys != [];
      var b := BBox(Min(xs), Min(ys), Max(xs), Max(ys));
      assert BBoxOf(c) == Some(b);
      assert SpansOf(c) == (Range(xs), Range(ys));
      assert Range(xs) == b.Width() && Range(ys) == b.Height();
    }
  }

  /** is_thin_path of remove_thin_lines.py and remove_zero_thickness.py, on the spans. */
  predicate IsThinSpan(d: string, threshold: real)
  {
    var dims := SpanDimensions(d);
    dims.0 < threshold || dims.1 < threshold
  }

  /** The span test and the bounding-box test classify every path alike. */
  lemma ThinSpanAgrees(d: string, threshold: real)
    ensures IsThinSpan(d, threshold) <==> IsThinPath(d, threshold)
  {
    SpanDimensionsAgree(d);
  }

  /** Every two elements of `s` are closer together than `t`. */
  predicate Within(s: seq<real>, t: real)
  {
    forall i, j :: 0 <= i < |s| && 0 <= j < |s| ==> s[i] - s[j] < t
  }

  /** A spread below the threshold means every pair of elements is closer than it. */
  lemma SpreadBelow(s: seq<real>, w: real, t: real)
    requires Spread(s, w)
    ensures w < t <==> Within(s, t)
  {
    var i, j :| 0 <= i < |s| && 0 <= j < |s| && s[i] - s[j] == w;
  }

  /** is_closed_path: the text, stripped, ends with 'Z' once upper-cased. */
  predicate IsClosedPath(d: string)
  {
    var t := Strip(d);
    |t| > 0 && (t[|t| - 1] == 'Z' || t[|t| - 1] == 'z')
  }

  /** Only whitespace. */
  predicate Blank(w: string)
  {
    forall i :: 0 <= i < |w| ==> IsSpace(w[i])
  }

  /** The text ends with a close command. */
  predicate EndsClosed(t: string)
  {
    |t| > 0 && (t[|t| - 1] == 'Z' || t[|t| - 1] == 'z')
  }

  /** The closed test looks at the last character that is not whitespace: the path is closed
      exactly when there is one and it is 'Z' or 'z'. Leading whitespace plays no part. */
  lemma ClosedPathMeaning(d: string)
    ensures IsClosedPath(d) <==> EndsClosed(RStrip(d))
  {
    StripIsRStrip(d);
  }

  /** Whitespace added at the end does not change the verdict. */
  lemma ClosedIgnoresTrailing(d: string, w: string)
    requires Blank(w)
    ensures IsClosedPath(d + w) <==> IsClosedPath(d)
  {
    ClosedPathMeaning(d);
    ClosedPathMeaning(d + w);
    RStripBlankSuffix(d, w);
  }

  /** Any text followed by a close command is closed. */
  lemma ClosedByZ(d: string, c: char)
    requires c == 'Z' || c == 'z'
    ensures IsClosedPath(d + [c])
  {
    ClosedPathMeaning(d + [c]);
    assert RStrip(d + [c]) == d + [c];
  }

  /** Stripping keeps the last character that is not whitespace, and leaves nothing exactly when
      there is none. */
  lemma StripIsRStrip(d: string)
    ensures var t, u := Strip(d), RStrip(d);
      |t| > 0 <==> |u| > 0
    ensures var t, u := Strip(d), RStrip(d);
      |t| > 0 ==> t[|t| - 1] == u[|u| - 1]
  {
    var p := LStripPrefix(d);
    RStripBlankPrefix(p, LStrip(d));
  }

  /** What LStrip drops is whitespace. */
  lemma {:induction false} LStripPrefix(d: string) returns (p: string)
    ensures Blank(p) && d == p + LStrip(d)
    decreases |d|
  {
    if d != [] && IsSpace(d[0]) {
      var q := LStripPrefix(d[1..]);
      p := [d[0]] + q;
      BlankCons(d[0], q);
      ConsSplit(d, q, LStrip(d[1..]));
    } else {
      p := [];
      assert d == [] + d;
    }
  }

  lemma BlankCons(c: char, w: string)
    requires IsSpace(c) && Blank(w)
    ensures Blank([c] + w)
  {
    var s := [c] + w;
    assert forall i :: 1 <= i < |s| ==> s[i] == w[i - 1];
  }

  lemma ConsSplit(d: string, q: string, r: string)
    requires d != [] && d[1..] == q + r
    ensures d == ([d[0]] + q) + r
  {
    assert d == [d[0]] + d[1..];
  }

  /** Whitespace in front does not change where RStrip ends. */
  lemma {:induction false} RStripBlankPrefix(p: string, q: string)
    requires Blank(p)
    ensures RStrip(q) != [] ==> RStrip(p + q) == p + RStrip(q)
    ensures RStrip(q) == [] ==> RStrip(p + q) == []
    decreases |q|
  {
    if q == [] {
      assert p + q == p;
      RStripBlank(p);
    } else if IsSpace(q[|q| - 1]) {
      assert (p + q)[..|p + q| - 1] == p + q[..|q| - 1];
      RStripBlankPrefix(p, q[..|q| - 1]);
    }
  }

  /** Whitespace strips to nothing. */
  lemma {:induction false} RStripBlank(w: string)
    requires Blank(w)
    ensures RStrip(w) == []
    decreases |w|
  {
    if w != [] {
      RStripBlank(w[..|w| - 1]);
    }
  }

  /** Whitespace at the end is stripped away. */
  lemma {:induction false} RStripBlankSuffix(d: string, w: string)
    requires Blank(w)
    ensures RStrip(d + w) == RStrip(d)
    decreases |w|
  {
    if w == [] {
      assert d + w == d;
    } else {
      assert (d + w)[..|d + w| - 1] == d + w[..|w| - 1];
      RStripBlankSuffix(d, w[..|w| - 1]);
    }
  }

  /** is_thin_path: thin along either axis (disjunctive). */
  predicate IsThinPath(d: string, threshold: real)
  {
    var dims := PathDimensions(d);
    dims.0 < threshold || dims.1 < threshold
  }

  /** The thinness test in terms of the coordinates themselves: a path is thin exactly when it
      is degenerate (and the threshold is positive), or all its x coordinates, or all its y
      coordinates, lie closer together than the threshold. */
  lemma ThinIff(d: string, t: real)
    ensures IsThinPath(d, t) <==>
      var c := PathCoords(d);
      (|c| < 2 && t > 0.0) || (|c| >= 2 && (Within(Evens(c), t) || Within(Odds(c), t)))
  {
    var c := PathCoords(d);
    if |c| >= 2 {
      DimensionsAreSpreads(c);
      SpreadBelow(Evens(c), DimensionsOf(c).0, t);
      SpreadBelow(Odds(c), DimensionsOf(c).1, t);
    }
  }

  /** A degenerate path (fewer than two numbers) is thin for every positive threshold, so a
      path that is not thin always has a bounding box. */
  lemma NotThinHasBBox(d: string, t: real)
    requires t > 0.0 && !IsThinPath(d, t)
    ensures PathBBox(d).Some?
  {
  }

  /** bbox_touches_boundary: some edge of the box lies within `margin` of the canvas edge. */
  predicate TouchesBoundary(b: BBox, vbX: real, vbY: real, vbW: real, vbH: real, margin: real)
  {
    if b.minX <= vbX + margin then true
    else if b.minY <= vbY + margin then true
    else if b.maxX >= vbX + vbW - margin then true
    else if b.maxY >= vbY + vbH - margin then true
    else false
  }

  /** Touching is the negation of lying strictly inside the canvas shrunk by the margin, and a
      larger margin only adds touching boxes. */
  lemma TouchesIffNotInside(b: BBox, vbX: real, vbY: real, vbW: real, vbH: real, m: real, m': real)
    requires m <= m'
    ensures TouchesBoundary(b, vbX, vbY, vbW, vbH, m) <==>
      !(vbX + m < b.minX && vbY + m < b.minY && b.maxX < vbX + vbW - m && b.maxY < vbY + vbH - m)
    ensures TouchesBoundary(b, vbX, vbY, vbW, vbH, m) ==> TouchesBoundary(b, vbX, vbY, vbW, vbH, m')
  {
  }
}
