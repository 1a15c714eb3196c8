/** The text helpers of cut_svg.py: the four corner points of a path, the thin-rectangle test,
    the normal form of a path's `d` text, and the 0.406 height test of a rect. */
module CutSvgText {
  import opened Wrappers
  import opened Lex
  import opened Seqs

  /** `[-+]?[0-9]*\.?[0-9]+` matched at the start of `s`, with the value float() gives it. */
  function SignedMatch(s: string): (r: Option<Lexeme>)
    ensures r.Some? ==> 0 < r.value.len <= |s|
  {
    if |s| > 1 && (s[0] == '-' || s[0] == '+') && RegexDecimal(s[1..]).Some? then
      var m := RegexDecimal(s[1..]).value;
      Some(Lexeme(m.len + 1, if s[0] == '-' then -m.value else m.value))
    else
      RegexDecimal(s)
  }

  /** Every match of `[-+]?[0-9]*\.?[0-9]+` in `s`, left to right, as a number. */
  function Numbers(s: string): seq<real>
    decreases |s|
  {
    if s == [] then []
    else match SignedMatch(s)
      case Some(m) => [m.value] + Numbers(s[m.len..])
      case None => Numbers(s[1..])
  }

  datatype Point = Point(x: real, y: real)

  /** parse_path_points: the numbers of `d` once commas are spaces, paired up. */
  function ParsePathPoints(d: string): (r: Option<seq<Point>>)
    ensures r.Some? ==> |r.value| == 4
  {
    FirstFourPoints(Numbers(ReplaceChar(d, ',', ' ')))
  }

  /** None for fewer than eight numbers, else the first four (x, y) pairs. */
  function FirstFourPoints(nums: seq<real>): (r: Option<seq<Point>>)
    ensures r.None? <==> |nums| < 8
    ensures r.Some? ==>
      && |nums| >= 8 && |r.value| == 4
      && forall k :: 0 <= k < 4 ==> r.value[k] == Point(nums[2 * k], nums[2 * k + 1])
  {
    if |nums| < 8 then None
    else Some([Point(nums[0], nums[1]), Point(nums[2], nums[3]), Point(nums[4], nums[5]), Point(nums[6], nums[7])])
  }

  /** The square of the distance between two points. */
  function SquaredDistance(p: Point, q: Point): (r: real)
    ensures r >= 0.0
  {
    (p.x - q.x) * (p.x - q.x) + (p.y - q.y) * (p.y - q.y)
  }

  /** `abs(edge - height) < tol` for the edge whose square is `sq`, decided without the root. */
  predicate NearLength(sq: real, height: real, tol: real)
  {
    0.0 < tol && 0.0 < height + tol && sq < (height + tol) * (height + tol)
    && (height - tol < 0.0 || (height - tol) * (height - tol) < sq)
  }

  lemma SquareBelow(a: real, b: real)
    requires 0.0 <= a < b
    ensures a * a < b * b
  {
    var d := b - a;
    assert b * b == a * a + 2.0 * a * d + d * d;
    assert a * d >= 0.0 && d * d > 0.0;
  }

  /** The test on squares is the test on lengths, for every non-negative length. */
  lemma NearLengthMeans(e: real, height: real, tol: real)
    requires e >= 0.0
    ensures NearLength(e * e, height, tol) <==> -tol < e - height < tol
  {
    if -tol < e - height < tol {
      SquareBelow(e, height + tol);
      if height - tol >= 0.0 {
        SquareBelow(height - tol, e);
      }
    }
    if NearLength(e * e, height, tol) {
      if e > height + tol {
        SquareBelow(height + tol, e);
      }
      if height - tol >= 0.0 && e < height - tol {
        SquareBelow(e, height - tol);
      }
    }
  }

  /** Some side of the closed quadrilateral `pts` (the last corner joins the first) is within
      `tol` of `height`. */
  predicate ThinRectangle(pts: seq<Point>, height: real, tol: real)
    requires |pts| == 4
  {
    exists i :: 0 <= i < 4 && NearLength(Edge(pts, i), height, tol)
  }

  /** The square of the length of side `i`, from corner `i` to the next. */
  function Edge(pts: seq<Point>, i: nat): real
    requires |pts| == 4 && i < 4
  {
    SquaredDistance(pts[i], pts[(i + 1) % 4])
  }

  /** is_thin_rectangle_path */
  predicate IsThinRectanglePath(d: string, height: real, tol: real)
  {
    match ParsePathPoints(d)
    case None => false
    case Some(pts) => ThinRectangle(pts, height, tol)
  }

  /** is_thin_rectangle_path with its loop over the four edges. */
  method ThinRectangleCheck(d: string, height: real, tol: real) returns (thin: bool)
    ensures thin == IsThinRectanglePath(d, height, tol)
  {
    var points := ParsePathPoints(d);
    if points.None? {
      return false;
    }
    thin := AnyEdgeNear(points.value, height, tol);
  }

  /** The edge loop of is_thin_rectangle_path: the first side within `tol` answers true. */
  method AnyEdgeNear(pts: seq<Point>, height: real, tol: real) returns (thin: bool)
    requires |pts| == 4
    ensures thin == ThinRectangle(pts, height, tol)
  {
    var edges := seq(4, i requires 0 <= i < 4 => Edge(pts, i));
    for i := 0 to 4
      invariant forall k :: 0 <= k < i ==> !NearLength(Edge(pts, k), height, tol)
    {
      if NearLength(edges[i], height, tol) {
        return true;
      }
    }
    return false;
  }

  function Abs(x: real): (r: real)
    ensures r >= 0.0
  {
    if x < 0.0 then -x else x
  }

  lemma AbsSquare(x: real)
    ensures Abs(x) * Abs(x) == x * x
  {
  }

  /** A quadrilateral whose opposite sides have equal lengths is thin when either length is. */
  lemma ThinRectangleOfSides(pts: seq<Point>, v: real, h: real, height: real, tol: real)
    requires |pts| == 4 && Edge(pts, 0) == v && Edge(pts, 2) == v && Edge(pts, 1) == h && Edge(pts, 3) == h
    ensures ThinRectangle(pts, height, tol) <==> NearLength(v, height, tol) || NearLength(h, height, tol)
  {
    if NearLength(v, height, tol) {
      assert NearLength(Edge(pts, 0), height, tol);
    } else if NearLength(h, height, tol) {
      assert NearLength(Edge(pts, 1), height, tol);
    }
  }

  /** A side of signed length `d` is near `height` exactly when its absolute length is. */
  lemma SideNear(d: real, height: real, tol: real)
    ensures NearLength(d * d, height, tol) <==> -tol < Abs(d) - height < tol
  {
    AbsSquare(d);
    NearLengthMeans(Abs(d), height, tol);
  }

  /** The squared side lengths of an axis-aligned rectangle listed corner after corner. */
  lemma AxisEdges(x: real, y: real, dx: real, dy: real)
    ensures var pts := [Point(x, y), Point(x, y + dy), Point(x + dx, y + dy), Point(x + dx, y)];
      Edge(pts, 0) == dy * dy && Edge(pts, 1) == dx * dx && Edge(pts, 2) == dy * dy && Edge(pts, 3) == dx * dx
  {
    var pts := [Point(x, y), Point(x, y + dy), Point(x + dx, y + dy), Point(x + dx, y)];
    assert Edge(pts, 0) == dy * dy by { assert (y - (y + dy)) * (y - (y + dy)) == dy * dy; }
    assert Edge(pts, 1) == dx * dx by { assert (x - (x + dx)) * (x - (x + dx)) == dx * dx; }
    assert Edge(pts, 2) == dy * dy by { assert (y + dy - y) * (y + dy - y) == dy * dy; }
    assert Edge(pts, 3) == dx * dx by { assert (x + dx - x) * (x + dx - x) == dx * dx; }
  }

  /** An axis-aligned rectangle with sides `dx` and `dy` (of either sign), listed corner after
      corner, is thin exactly when one of its two side lengths is within `tol` of `height`. */
  lemma AxisRectangleThin(x: real, y: real, dx: real, dy: real, height: real, tol: real)
    ensures ThinRectangle([Point(x, y), Point(x, y + dy), Point(x + dx, y + dy), Point(x + dx, y)], height, tol)
      <==> (-tol < Abs(dy) - height < tol || -tol < Abs(dx) - height < tol)
  {
    var pts := [Point(x, y), Point(x, y + dy), Point(x + dx, y + dy), Point(x + dx, y)];
    AxisEdges(x, y, dx, dy);
    ThinRectangleOfSides(pts, dy * dy, dx * dx, height, tol);
    SideNear(dy, height, tol);
    SideNear(dx, height, tol);
  }

  /** The path listed for removal is a rectangle 0.4064 high, so the thin-rectangle test alone
      already removes it. */
  lemma RemovalTargetIsThin()
    ensures ThinRectangle([Point(87.7824, 22.06726), Point(87.7824, 22.47366),
                           Point(60.7281, 22.47366), Point(60.7281, 22.06726)], 0.4064, 0.01)
  {
    AxisRectangleThin(87.7824, 22.06726, -27.0543, 0.4064, 0.4064, 0.01);
  }

  /** No whitespace character but ' ', and never two in a row. */
  predicate SingleSpaced(s: string)
  {
    forall i :: 0 <= i < |s| && IsSpace(s[i]) ==> s[i] == ' ' && (i + 1 < |s| ==> !IsSpace(s[i + 1]))
  }

  /** `re.sub(r'\s+', ' ', s)`: every run of whitespace becomes a single space. */
  function Collapse(s: string): (r: string)
    ensures |r| <= |s|
    ensures r == [] <==> s == []
    ensures r != [] ==> (IsSpace(r[0]) <==> IsSpace(s[0]))
    ensures SingleSpaced(r)
    decreases |s|
  {
    if s == [] then []
    else if IsSpace(s[0]) then [' '] + Collapse(LStrip(s[1..]))
    else [s[0]] + Collapse(s[1..])
  }

  function NotSpace(c: char): bool { !IsSpace(c) }

  /** Leading whitespace holds nothing but whitespace. */
  lemma {:induction false} LStripKeepsNonSpace(s: string)
    ensures Filter(LStrip(s), NotSpace) == Filter(s, NotSpace)
    decreases |s|
  {
    if s != [] && IsSpace(s[0]) {
      LStripKeepsNonSpace(s[1..]);
      assert s == [s[0]] + s[1..];
      FilterConcat([s[0]], s[1..], NotSpace);
      assert Filter([s[0]], NotSpace) == [] by { FilterSnoc([], s[0], NotSpace); }
    }
  }

  /** Collapsing whitespace keeps every other character, in order. */
  lemma {:induction false} CollapseKeepsNonSpace(s: string)
    ensures Filter(Collapse(s), NotSpace) == Filter(s, NotSpace)
    decreases |s|
  {
    if s != [] {
      var head := [if IsSpace(s[0]) then ' ' else s[0]];
      var rest := if IsSpace(s[0]) then LStrip(s[1..]) else s[1..];
      assert Collapse(s) == head + Collapse(rest);
      assert s == [s[0]] + s[1..];
      FilterConcat(head, Collapse(rest), NotSpace);
      FilterConcat([s[0]], s[1..], NotSpace);
      FilterSnoc([], head[0], NotSpace);
      FilterSnoc([], s[0], NotSpace);
      CollapseKeepsNonSpace(rest);
      if IsSpace(s[0]) {
        LStripKeepsNonSpace(s[1..]);
      }
    }
  }

  /** Text already single-spaced is left as it is, so collapsing twice is collapsing once. */
  lemma {:induction false} CollapseSingleSpaced(s: string)
    requires SingleSpaced(s)
    ensures Collapse(s) == s
    decreases |s|
  {
    if s != [] {
      assert SingleSpaced(s[1..]) by {
        forall i | 0 <= i < |s[1..]| && IsSpace(s[1..][i])
          ensures s[1..][i] == ' ' && (i + 1 < |s[1..]| ==> !IsSpace(s[1..][i + 1]))
        {
          assert s[1..][i] == s[i + 1];
        }
      }
      if IsSpace(s[0]) {
        assert s[1..] == [] || !IsSpace(s[1]);
        LStripNoLeadingSpace(s[1..]);
      }
      CollapseSingleSpaced(s[1..]);
    }
  }

  function DigitChar(d: nat): (c: char)
    requires d < 10
    ensures IsDigit(c) && DigitVal(c) == d
  {
    ('0' as int + d) as char
  }

  /** The decimal digits of `n`, most significant first, without leading zeros. */
  function NatText(n: nat): (r: string)
    ensures r != [] && forall i :: 0 <= i < |r| ==> IsDigit(r[i])
    decreases n
  {
    if n < 10 then [DigitChar(n)] else NatText(n / 10) + [DigitChar(n % 10)]
  }

  lemma {:induction false} NatTextValue(n: nat)
    ensures DigitsValue(NatText(n)) == n
    decreases n
  {
    var t := NatText(n);
    if n >= 10 {
      NatTextValue(n / 10);
      assert t[..|t| - 1] == NatText(n / 10);
    } else {
      assert t[..0] == [];
    }
  }

  lemma {:induction false} NatTextLength(n: nat, k: nat)
    requires 1 <= k && n < Pow10(k)
    ensures |NatText(n)| <= k
    decreases k
  {
    if n >= 10 {
      assert n / 10 < Pow10(k - 1);
      NatTextLength(n / 10, k - 1);
    }
  }

  function Zeros(k: nat): (r: string)
    ensures |r| == k && forall i :: 0 <= i < k ==> r[i] == '0'
  {
    seq(k, _ => '0')
  }

  lemma {:induction false} LeadingZerosValue(k: nat, t: string)
    ensures DigitsValue(Zeros(k) + t) == DigitsValue(t)
    decreases k + |t|
  {
    var z := Zeros(k) + t;
    if t != [] {
      assert z[..|z| - 1] == Zeros(k) + t[..|t| - 1];
      LeadingZerosValue(k, t[..|t| - 1]);
    } else if k > 0 {
      assert z[..|z| - 1] == Zeros(k - 1) + [];
      LeadingZerosValue(k - 1, []);
    }
  }

  /** Six digits after the point are the number they write, in millionths. */
  lemma FracValueSix(f: string)
    requires |f| == 6
    ensures FracValue(f) == DigitsValue(f) as real / 1000000.0
  {
    SixDigitsValue(f);
    SixFracValue(f);
  }

  lemma SixDigitsValue(f: string)
    requires |f| == 6
    ensures DigitsValue(f) == ((((DigitVal(f[0]) * 10 + DigitVal(f[1])) * 10 + DigitVal(f[2])) * 10
      + DigitVal(f[3])) * 10 + DigitVal(f[4])) * 10 + DigitVal(f[5])
  {
    assert f[..0] == [] && f[..6] == f;
    DigitsValueStep(f, 0); DigitsValueStep(f, 1); DigitsValueStep(f, 2);
    DigitsValueStep(f, 3); DigitsValueStep(f, 4); DigitsValueStep(f, 5);
  }

  lemma SixFracValue(f: string)
    requires |f| == 6
    ensures FracValue(f) == (((((DigitVal(f[0]) * 10 + DigitVal(f[1])) * 10 + DigitVal(f[2])) * 10
      + DigitVal(f[3])) * 10 + DigitVal(f[4])) * 10 + DigitVal(f[5])) as real / 1000000.0
  {
    assert f[6..] == [] && f[0..] == f;
    FracValueStep(f, 0); FracValueStep(f, 1); FracValueStep(f, 2);
    FracValueStep(f, 3); FracValueStep(f, 4); FracValueStep(f, 5);
  }

  /** `f"{v:.6f}"` for a non-negative `v`: `v` rounded to six decimals, ties to even, written
      with exactly six fraction digits. */
  function Fixed6(v: real): (r: Numeral)
    requires v >= 0.0
    ensures r.Valid() && !r.negative && |r.frac| == 6
    ensures r.Text() != [] && forall i :: 0 <= i < |r.Text()| ==> IsDigit(r.Text()[i]) || r.Text()[i] == '.'
  {
    var n := RoundHalfEven(v * 1000000.0);
    var f := NatText(n % 1000000);
    NatTextLength(n % 1000000, 6);
    Numeral(false, NatText(n / 1000000), Zeros(6 - |f|) + f)
  }

  /** The six-decimal text is within half a millionth of the number. */
  lemma Fixed6Close(v: real)
    requires v >= 0.0
    ensures -0.0000005 <= Fixed6(v).Value() - v <= 0.0000005
  {
    var n := RoundHalfEven(v * 1000000.0);
    var q, m := n / 1000000, n % 1000000;
    var r := Fixed6(v);
    NatTextValue(q);
    NatTextValue(m);
    LeadingZerosValue(6 - |NatText(m)|, NatText(m));
    FracValueSix(r.frac);
    assert r.Value() == q as real + m as real / 1000000.0;
    assert q as real + m as real / 1000000.0 == n as real / 1000000.0;
  }

  /** `[0-9]+\.[0-9]+` matched at the start of `s`, with its value. */
  function DecimalAt(s: string): (r: Option<Lexeme>)
    ensures r.Some? ==> 0 < r.value.len <= |s| && r.value.value >= 0.0 && IsDigit(s[0])
  {
    var a := DigitRun(s);
    if 0 < a < |s| && s[a] == '.' && DigitRun(s[a + 1..]) > 0 then
      var b := DigitRun(s[a + 1..]);
      Some(Lexeme(a + 1 + b, DecimalValue(s[..a], s[a + 1..a + 1 + b])))
    else
      None
  }

  /** `re.sub(r"[0-9]+\.[0-9]+", repl, s)`: every such numeral, left to right, rewritten to six
      decimals. */
  function FixDecimals(s: string): (r: string)
    ensures r == [] <==> s == []
    ensures r != [] ==> (IsSpace(r[0]) <==> IsSpace(s[0]))
    decreases |s|
  {
    if s == [] then []
    else match DecimalAt(s)
      case Some(m) => Fixed6(m.value).Text() + FixDecimals(s[m.len..])
      case None => [s[0]] + FixDecimals(s[1..])
  }

  /** Rewriting the numerals brings in no comma. */
  lemma {:induction false} FixDecimalsNoComma(s: string)
    requires ',' !in s
    ensures ',' !in FixDecimals(s)
    decreases |s|
  {
    if s != [] {
      var len := if DecimalAt(s).Some? then DecimalAt(s).value.len else 1;
      FixDecimalsNoComma(s[len..]);
    }
  }

  lemma SingleSpacedSuffix(s: string, k: nat)
    requires SingleSpaced(s) && k <= |s|
    ensures SingleSpaced(s[k..])
  {
    forall i | 0 <= i < |s[k..]| && IsSpace(s[k..][i])
      ensures s[k..][i] == ' ' && (i + 1 < |s[k..]| ==> !IsSpace(s[k..][i + 1]))
    {
      assert s[k..][i] == s[k + i];
    }
  }

  lemma SingleSpacedJoin(a: string, b: string)
    requires SingleSpaced(a) && SingleSpaced(b)
    requires a == [] || b == [] || !IsSpace(a[|a| - 1]) || !IsSpace(b[0])
    ensures SingleSpaced(a + b)
  {
    var r := a + b;
    forall i | 0 <= i < |r| && IsSpace(r[i])
      ensures r[i] == ' ' && (i + 1 < |r| ==> !IsSpace(r[i + 1]))
    {
      if i >= |a| {
        assert r[i] == b[i - |a|];
      } else if i + 1 < |a| {
        assert r[i + 1] == a[i + 1];
      }
    }
  }

  /** Rewriting the numerals brings in no whitespace, so single spacing survives it. */
  lemma {:induction false} FixDecimalsSpacing(s: string)
    requires SingleSpaced(s)
    ensures SingleSpaced(FixDecimals(s))
    decreases |s|
  {
    if s != [] {
      var len := if DecimalAt(s).Some? then DecimalAt(s).value.len else 1;
      var head := if DecimalAt(s).Some? then Fixed6(DecimalAt(s).value.value).Text() else [s[0]];
      SingleSpacedSuffix(s, len);
      FixDecimalsSpacing(s[len..]);
      assert FixDecimals(s) == head + FixDecimals(s[len..]);
      assert SingleSpaced(head);
      if DecimalAt(s).None? && IsSpace(s[0]) && |s| > 1 {
        assert !IsSpace(s[1]);
      }
      SingleSpacedJoin(head, FixDecimals(s[len..]));
    }
  }

  /** Python's str.strip() keeps a contiguous part of its argument. */
  lemma StripInside(s: string)
    ensures var i := |s| - |LStrip(s)|;
      i + |Strip(s)| <= |s| && Strip(s) == s[i..i + |Strip(s)|]
  {
    LStripSuffix(s);
    var l := LStrip(s);
    var i := |s| - |l|;
    assert Strip(s) == l[..|Strip(s)|];
  }

  lemma {:induction false} LStripSuffix(s: string)
    ensures LStrip(s) == s[|s| - |LStrip(s)|..]
    decreases |s|
  {
    if s != [] && IsSpace(s[0]) {
      LStripSuffix(s[1..]);
    }
  }

  /** normalize_d: commas become spaces, whitespace runs a single space, every `[0-9]+\.[0-9]+`
      six decimals, and the ends are stripped. */
  function NormalizeD(d: string): string
  {
    Strip(FixDecimals(Collapse(ReplaceChar(d, ',', ' '))))
  }

  /** A normalised `d` holds no comma, no whitespace but single spaces between other characters,
      and none at either end. */
  lemma NormalizeDForm(d: string)
    ensures ',' !in NormalizeD(d)
    ensures SingleSpaced(NormalizeD(d))
    ensures NormalizeD(d) != [] ==> !IsSpace(NormalizeD(d)[0]) && !IsSpace(NormalizeD(d)[|NormalizeD(d)| - 1])
  {
    var c := Collapse(ReplaceChar(d, ',', ' '));
    CollapseNoComma(ReplaceChar(d, ',', ' '));
    FixDecimalsNoComma(c);
    FixDecimalsSpacing(c);
    StrippedForm(FixDecimals(c));
  }

  /** Stripping keeps a text free of commas and single-spaced. */
  lemma StrippedForm(t: string)
    requires ',' !in t && SingleSpaced(t)
    ensures ',' !in Strip(t) && SingleSpaced(Strip(t))
  {
    StripInside(t);
    SingleSpacedSuffix(t, |t| - |LStrip(t)|);
    assert Strip(t) == t[|t| - |LStrip(t)|..][..|Strip(t)|];
  }

  /** Collapsing whitespace brings in no comma. */
  lemma {:induction false} CollapseNoComma(s: string)
    requires ',' !in s
    ensures ',' !in Collapse(s)
    decreases |s|
  {
    if s != [] {
      if IsSpace(s[0]) {
        LStripSuffix(s[1..]);
        CollapseNoComma(LStrip(s[1..]));
      } else {
        CollapseNoComma(s[1..]);
      }
    }
  }

  /** The one path d listed for removal, exactly as written. */
  const RemovePathD: seq<string> :=
    ["M 87.78240000,22.06726000 L 87.78240000,22.47366000 L 60.72810000,22.47366000 L 60.72810000,22.06726000 Z"]

  /** The listed paths in normal form. */
  function RemovePathDNorm(): (r: seq<string>)
    ensures |r| == |RemovePathD| && forall i :: 0 <= i < |r| ==> r[i] == NormalizeD(RemovePathD[i])
  {
    seq(|RemovePathD|, i requires 0 <= i < |RemovePathD| => NormalizeD(RemovePathD[i]))
  }

  predicate IsNumberChar(c: char) { IsDigit(c) || c == '.' }

  /** Length of the run of digits and dots that starts `s`. */
  function NumberCharRun(s: string): (n: nat)
    ensures n <= |s|
    ensures forall i :: 0 <= i < n ==> IsNumberChar(s[i])
    ensures n < |s| ==> !IsNumberChar(s[n])
  {
    if s != [] && IsNumberChar(s[0]) then 1 + NumberCharRun(s[1..]) else 0
  }

  /** `re.search(r"([0-9.]+)", s)`: the first run of digits and dots, if any. */
  function FirstNumberRun(s: string): (r: Option<string>)
    ensures r.Some? ==> r.value != [] && forall i :: 0 <= i < |r.value| ==> IsNumberChar(r.value[i])
    ensures r.None? <==> forall i :: 0 <= i < |s| ==> !IsNumberChar(s[i])
    decreases |s|
  {
    if s == [] then None
    else if IsNumberChar(s[0]) then Some(s[..NumberCharRun(s)])
    else
      var r := FirstNumberRun(s[1..]);
      assert forall i :: 0 < i < |s| ==> s[i] == s[1..][i - 1];
      r
  }

  /** is_height_406px: false for a missing height, for one with no digit or dot, and for one
      whose first run of digits and dots float() rejects; otherwise the run read as a number is
      within 0.001 of 0.406. */
  predicate IsHeight406(height: Option<string>)
  {
    match height
    case None => false
    case Some(h) =>
      match FirstNumberRun(h)
      case None => false
      case Some(run) =>
        match ParseFloat(run)
        case None => false
        case Some(v) => -0.001 < v - 0.406 < 0.001
  }

  /** A height with no digit in it is never 0.406: its first run is dots only, which float()
      rejects. */
  lemma Height406NeedsDigit(h: string)
    requires forall i :: 0 <= i < |h| ==> !IsDigit(h[i])
    ensures !IsHeight406(Some(h))
  {
    var run := FirstNumberRun(h);
    if run.Some? {
      var t := run.value;
      FirstRunInside(h);
      LStripNoLeadingSpace(t);
      RStripNoTrailingSpace(t);
      assert Strip(t) == t;
      assert t[0] in h;
      if |t| > 1 {
        assert t[1] in h;
      }
      assert Mantissa(t).None?;
    }
  }

  lemma {:induction false} FirstRunInside(s: string)
    ensures FirstNumberRun(s).Some? ==> forall c :: c in FirstNumberRun(s).value ==> c in s
    decreases |s|
  {
    if s != [] && !IsNumberChar(s[0]) {
      FirstRunInside(s[1..]);
    }
  }

  lemma {:induction false} NumberCharRunOf(t: string, rest: string)
    requires forall i :: 0 <= i < |t| ==> IsNumberChar(t[i])
    requires rest == [] || !IsNumberChar(rest[0])
    ensures NumberCharRun(t + rest) == |t|
    decreases |t|
  {
    if t != [] {
      assert (t + rest)[1..] == t[1..] + rest;
      NumberCharRunOf(t[1..], rest);
    }
  }

  /** A height written as a non-negative numeral followed by a unit such as "px" is 0.406
      exactly when the numeral's value is within 0.001 of 0.406. */
  lemma Height406OfNumeral(n: Numeral, unit: string)
    requires n.Valid() && !n.negative
    requires unit == [] || !IsNumberChar(unit[0])
    ensures IsHeight406(Some(n.Text() + unit)) <==> -0.001 < n.Value() - 0.406 < 0.001
  {
    var t := n.Text();
    assert t[0] == n.whole[0];
    assert forall i :: 0 <= i < |t| ==> IsNumberChar(t[i]) by {
      assert t == n.whole + (if n.frac == [] then "" else "." + n.frac);
    }
    NumberCharRunOf(t, unit);
    assert (t + unit)[..|t|] == t;
    ParseFloatNumeral(n);
  }
}
