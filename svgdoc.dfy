/** What the scripts read out of an SVG document with regular expressions, and the mask
    entries they write back. A document is taken as the sequence of matches each regex
    yields (the attribute text of viewBox, width and height, the `d` values of the paths, the
    attribute triples of the circles), not as characters of XML. A mask is the ordered list
    of the shapes written inside a `<mask>` element, each with its fill colour and fill rule. */
module SvgDoc {
  import opened Wrappers
  import opened Lex

  datatype ViewBox = ViewBox(x: real, y: real, width: real, height: real)
  {
    /** `x + width` */
    function Right(): real { x + width }

    /** `y + height` */
    function Bottom(): real { y + height }
  }

  /** The regex matches of one input document: `viewBox="…"`, `width="…"` and `height="…"`
      (the first of each, if any), the `d` of every `<path …/>` and the attributes of every
      `<circle …/>`, in document order. */
  datatype Scan = Scan(viewBox: Option<string>, width: Option<string>, height: Option<string>,
                       paths: seq<string>, circles: seq<CircleMatch>)

  /** The width/height written to the output: the matched attribute text, or str() of a
      viewBox number when the attribute was absent. */
  datatype SizeText = Given(text: string) | Printed(value: real)

  /** The text of one `<circle ... cx="…" cy="…" r="…" .../>` match. */
  datatype CircleMatch = CircleMatch(cx: string, cy: string, r: string)

  /** A circle coordinate as written out: copied text, or a number the script computed. */
  datatype Coord = Lit(text: string) | Num(value: real)

  datatype Shape =
    | Rect(box: ViewBox)                      // the canvas rectangle
    | PathShape(d: string)
    | Circle(cx: Coord, cy: Coord, r: Coord)

  datatype Paint = Black | White

  /** NonZero is SVG's default rule, written by leaving the attribute out. */
  datatype FillRule = NonZero | EvenOdd

  datatype Entry = Entry(shape: Shape, paint: Paint, rule: FillRule)

  /** A document made of one mask and the canvas rectangle, filled with `background`, that
      the mask is applied to. */
  datatype MaskedCanvas = MaskedCanvas(width: SizeText, height: SizeText, box: ViewBox,
                                       mask: seq<Entry>, background: string)

  /** `read` (float() in the scripts) of parts[0], …, parts[k-1], in that order, as the
      scripts' tuple expressions evaluate them: the first missing part raises IndexError, the first unparsable one
      ValueError. */
  function FloatsPrefix(parts: seq<string>, k: nat, read: string -> Option<real>): (r: Result<seq<real>>)
    ensures r.Success? ==> k <= |parts| && |r.value| == k
  {
    if k == 0 then Success([])
    else match FloatsPrefix(parts, k - 1, read)
      case Failure(e) => Failure(e)
      case Success(vs) =>
        if k - 1 >= |parts| then Failure(IndexError)
        else match read(parts[k - 1])
          case None => Failure(ValueError)
          case Some(v) => Success(vs + [v])
  }

  /** The numbers are read exactly when there are `k` parts that all read; otherwise the error
      is IndexError when every part there is reads but there are fewer than `k`, and ValueError
      when one of the first `k` does not read. */
  lemma {:induction false} FloatsPrefixMeaning(parts: seq<string>, k: nat, read: string -> Option<real>)
    ensures var r := FloatsPrefix(parts, k, read);
      r.Success? <==> k <= |parts| && forall i :: 0 <= i < k ==> read(parts[i]).Some?
    ensures var r := FloatsPrefix(parts, k, read);
      r.Failure? ==> (r.error == IndexError <==> |parts| < k && forall i :: 0 <= i < |parts| ==> read(parts[i]).Some?)
    ensures var r := FloatsPrefix(parts, k, read);
      r.Failure? ==> r.error == IndexError || r.error == ValueError
  {
    if k > 0 {
      FloatsPrefixMeaning(parts, k - 1, read);
    }
  }

  /** What is read are the numbers of the first `k` parts, in order. */
  lemma {:induction false} FloatsPrefixValues(parts: seq<string>, k: nat, read: string -> Option<real>)
    ensures var r := FloatsPrefix(parts, k, read);
      r.Success? ==> forall i :: 0 <= i < k ==> read(parts[i]) == Some(r.value[i])
  {
    var r := FloatsPrefix(parts, k, read);
    if k > 0 && r.Success? {
      FloatsPrefixValues(parts, k - 1, read);
      var vs := FloatsPrefix(parts, k - 1, read).value;
      assert r.value == vs + [r.value[k - 1]];
      forall i | 0 <= i < k - 1
        ensures read(parts[i]) == Some(r.value[i])
      {
        assert r.value[i] == vs[i];
      }
    }
  }

  /** `vb_parts = text.split()` followed by `read` (float()) of the first four parts. */
  function ViewBoxFromText(text: string, read: string -> Option<real>): Result<ViewBox>
  {
    match FloatsPrefix(Split(text), 4, read)
    case Failure(e) => Failure(e)
    case Success(vs) => Success(ViewBox(vs[0], vs[1], vs[2], vs[3]))
  }

  /** Four numbers written with single spaces between them read back as that viewBox. */
  lemma ViewBoxRoundTrip(x: Numeral, y: Numeral, w: Numeral, h: Numeral)
    requires x.Valid() && y.Valid() && w.Valid() && h.Valid()
    ensures ViewBoxFromText(Join([x.Text(), y.Text(), w.Text(), h.Text()], " "), ParseFloat)
         == Success(ViewBox(x.Value(), y.Value(), w.Value(), h.Value()))
  {
    var ws := [x.Text(), y.Text(), w.Text(), h.Text()];
    NumeralIsWord(x);
    NumeralIsWord(y);
    NumeralIsWord(w);
    NumeralIsWord(h);
    SplitJoin(ws);
    ParseFloatNumeral(x);
    ParseFloatNumeral(y);
    ParseFloatNumeral(w);
    ParseFloatNumeral(h);
    FourFloats(ws, ParseFloat, x.Value(), y.Value(), w.Value(), h.Value());
  }

  /** One more part that reads adds its number at the end. */
  lemma FloatsPrefixSnoc(parts: seq<string>, k: nat, read: string -> Option<real>, vs: seq<real>, v: real)
    requires FloatsPrefix(parts, k, read) == Success(vs)
    requires k < |parts| && read(parts[k]) == Some(v)
    ensures FloatsPrefix(parts, k + 1, read) == Success(vs + [v])
  {
  }

  /** Four parts that each read as a number give those four numbers. */
  lemma FourFloats(parts: seq<string>, read: string -> Option<real>, a: real, b: real, c: real, d: real)
    requires |parts| == 4
    requires read(parts[0]) == Some(a) && read(parts[1]) == Some(b)
    requires read(parts[2]) == Some(c) && read(parts[3]) == Some(d)
    ensures FloatsPrefix(parts, 4, read) == Success([a, b, c, d])
  {
    FloatsPrefixSnoc(parts, 0, read, [], a);
    FloatsPrefixSnoc(parts, 1, read, [] + [a], b);
    FloatsPrefixSnoc(parts, 2, read, [] + [a] + [b], c);
    FloatsPrefixSnoc(parts, 3, read, [] + [a] + [b] + [c], d);
    assert [] + [a] + [b] + [c] + [d] == [a, b, c, d];
  }

  lemma NumeralIsWord(n: Numeral)
    requires n.Valid()
    ensures IsWord(n.Text())
  {
    var t := n.Text();
    forall i | 0 <= i < |t|
      ensures !IsSpace(t[i])
    {
      if n.negative && i == 0 {
      } else {
        var u := n.Unsigned();
        var k := if n.negative then 1 else 0;
        assert t[i] == u[i - k];
        if i - k < |n.whole| {
          assert u[i - k] == n.whole[i - k];
        } else if i - k > |n.whole| {
          assert u[i - k] == n.frac[i - k - |n.whole| - 1];
        }
      }
    }
  }

  /** The canvas of extract_enclosed.py and remove_enclosed.py: the viewBox attribute, or
      (0, 0, 100, 100) when there is none. */
  function ViewBoxOrDefault(viewBox: Option<string>, read: string -> Option<real>): Result<ViewBox>
  {
    match viewBox
    case None => Success(ViewBox(0.0, 0.0, 100.0, 100.0))
    case Some(t) => ViewBoxFromText(t, read)
  }

  /** One side of the canvas of invert_svg.py and invert_svg_clean.py when the viewBox is
      absent: the width/height attribute with "mm" and then "px" deleted, read by `read` (float());
      100 when the attribute is absent too. */
  function SideFromAttribute(attr: Option<string>, read: string -> Option<real>): (r: Result<real>)
    ensures attr.None? ==> r == Success(100.0)
    ensures r.Failure? ==> r.error == ValueError
  {
    match attr
    case None => Success(100.0)
    case Some(t) =>
      match read(RemoveAll(RemoveAll(t, "mm"), "px"))
      case None => Failure(ValueError)
      case Some(v) => Success(v)
  }

  /** The canvas of invert_svg.py and invert_svg_clean.py: the viewBox attribute, or the origin
      with sides taken from the width and height attributes. */
  function ViewBoxOrSides(viewBox: Option<string>, width: Option<string>, height: Option<string>,
                          read: string -> Option<real>): Result<ViewBox>
  {
    match viewBox
    case Some(t) => ViewBoxFromText(t, read)
    case None =>
      match SideFromAttribute(width, read)
      case Failure(e) => Failure(e)
      case Success(w) =>
        match SideFromAttribute(height, read)
        case Failure(e) => Failure(e)
        case Success(h) => Success(ViewBox(0.0, 0.0, w, h))
  }

  lemma {:induction false} RemoveAllAbsent(s: string, pat: string)
    requires pat != []
    requires forall i :: 0 <= i < |s| ==> s[i] != pat[0]
    ensures RemoveAll(s, pat) == s
    decreases |s|
  {
    if |s| >= |pat| {
      assert s[..|pat|][0] == s[0];
      RemoveAllAbsent(s[1..], pat);
    }
  }

  lemma {:induction false} RemoveAllSuffix(s: string, pat: string)
    requires pat != []
    requires forall i :: 0 <= i < |s| ==> s[i] != pat[0]
    ensures RemoveAll(s + pat, pat) == s
    decreases |s|
  {
    var t := s + pat;
    if s == [] {
      assert t[..|pat|] == pat;
      assert t[|pat|..] == [];
    } else {
      assert t[..|pat|][0] == s[0];
      assert t[1..] == s[1..] + pat;
      RemoveAllSuffix(s[1..], pat);
    }
  }

  lemma NumeralHasNoLetters(n: Numeral, c: char)
    requires n.Valid() && c != '-' && c != '.' && !IsDigit(c)
    ensures forall i :: 0 <= i < |n.Text()| ==> n.Text()[i] != c
  {
    var t := n.Text();
    forall i | 0 <= i < |t|
      ensures t[i] != c
    {
      if n.negative && i == 0 {
      } else {
        var u := n.Unsigned();
        var k := if n.negative then 1 else 0;
        assert t[i] == u[i - k];
        if i - k < |n.whole| {
          assert u[i - k] == n.whole[i - k];
        } else if i - k > |n.whole| {
          assert u[i - k] == n.frac[i - k - |n.whole| - 1];
        }
      }
    }
  }

  /** A width such as "12.5mm" or "12.5px" gives the side 12.5. */
  lemma SideFromUnitAttribute(n: Numeral, unit: string)
    requires n.Valid() && (unit == "mm" || unit == "px" || unit == "")
    ensures SideFromAttribute(Some(n.Text() + unit), ParseFloat) == Success(n.Value())
  {
    NumeralHasNoLetters(n, 'm');
    NumeralHasNoLetters(n, 'p');
    UnitRemoved(n.Text(), unit);
    ParseFloatNumeral(n);
  }

  /** Deleting "mm" and then "px" takes a unit off a text that has neither letter. */
  lemma UnitRemoved(t: string, unit: string)
    requires forall i :: 0 <= i < |t| ==> t[i] != 'm' && t[i] != 'p'
    requires unit == "mm" || unit == "px" || unit == ""
    ensures RemoveAll(RemoveAll(t + unit, "mm"), "px") == t
  {
    if unit == "mm" {
      RemoveAllSuffix(t, "mm");
      RemoveAllAbsent(t, "px");
    } else if unit == "px" {
      RemoveAllAbsent(t + unit, "mm");
      RemoveAllSuffix(t, "px");
    } else {
      assert t + unit == t;
      RemoveAllAbsent(t, "mm");
      RemoveAllAbsent(t, "px");
    }
  }

  /** `width = width_match.group(1) if width_match else str(vb_width)` */
  function OutputSize(attr: Option<string>, fallback: real): SizeText
  {
    match attr
    case Some(t) => Given(t)
    case None => Printed(fallback)
  }

  /** The mask line written for each path `d`, in order. */
  function PathEntries(ds: seq<string>, paint: Paint, rule: FillRule): (r: seq<Entry>)
    ensures |r| == |ds|
    ensures forall i :: 0 <= i < |ds| ==> r[i] == Entry(PathShape(ds[i]), paint, rule)
  {
    if ds == [] then [] else PathEntries(ds[..|ds| - 1], paint, rule) + [Entry(PathShape(ds[|ds| - 1]), paint, rule)]
  }

  lemma PathEntriesSnoc(ds: seq<string>, d: string, paint: Paint, rule: FillRule)
    ensures PathEntries(ds + [d], paint, rule) == PathEntries(ds, paint, rule) + [Entry(PathShape(d), paint, rule)]
  {
    assert (ds + [d])[..|ds|] == ds;
  }

  /** The black mask line written for a circle match, its attribute text copied. */
  function CircleEntry(c: CircleMatch): Entry
  {
    Entry(Circle(Lit(c.cx), Lit(c.cy), Lit(c.r)), Black, NonZero)
  }

  /** The black mask line written for each circle match, in order. */
  function CircleEntries(cs: seq<CircleMatch>): (r: seq<Entry>)
    ensures |r| == |cs|
    ensures forall i :: 0 <= i < |cs| ==>
      r[i] == Entry(Circle(Lit(cs[i].cx), Lit(cs[i].cy), Lit(cs[i].r)), Black, NonZero)
  {
    if cs == [] then []
    else CircleEntries(cs[..|cs| - 1]) + [CircleEntry(cs[|cs| - 1])]
  }

  lemma CircleEntriesSnoc(cs: seq<CircleMatch>, c: CircleMatch)
    ensures CircleEntries(cs + [c]) == CircleEntries(cs) + [CircleEntry(c)]
  {
    assert (cs + [c])[..|cs|] == cs;
  }

  /** The mask that inverts a drawing: the canvas in white, then every path and every circle in
      black, in document order. */
  function InversionMask(vb: ViewBox, ds: seq<string>, cs: seq<CircleMatch>): (r: seq<Entry>)
    ensures |r| == 1 + |ds| + |cs|
    ensures r[0] == Entry(Rect(vb), White, NonZero)
    ensures forall i :: 0 <= i < |ds| ==> r[1 + i] == Entry(PathShape(ds[i]), Black, NonZero)
    ensures forall j :: 0 <= j < |cs| ==>
      r[1 + |ds| + j] == Entry(Circle(Lit(cs[j].cx), Lit(cs[j].cy), Lit(cs[j].r)), Black, NonZero)
  {
    [Entry(Rect(vb), White, NonZero)] + PathEntries(ds, Black, NonZero) + CircleEntries(cs)
  }

  /** `for path_d in ds: svg += <path d="{path_d}" …/>` */
  method AppendPathEntries(out: seq<Entry>, ds: seq<string>, paint: Paint, rule: FillRule) returns (r: seq<Entry>)
    ensures r == out + PathEntries(ds, paint, rule)
  {
    r := out;
    var i := 0;
    while i < |ds|
      invariant 0 <= i <= |ds|
      invariant r == out + PathEntries(ds[..i], paint, rule)
    {
      assert ds[..i + 1][..i] == ds[..i];
      r := r + [Entry(PathShape(ds[i]), paint, rule)];
      i := i + 1;
    }
    assert ds[..|ds|] == ds;
  }

  /** `for cx, cy, r in circles: svg += <circle cx="{cx}" cy="{cy}" r="{r}" fill="black"/>` */
  method AppendCircleEntries(out: seq<Entry>, cs: seq<CircleMatch>) returns (r: seq<Entry>)
    ensures r == out + CircleEntries(cs)
  {
    r := out;
    var i := 0;
    while i < |cs|
      invariant 0 <= i <= |cs|
      invariant r == out + CircleEntries(cs[..i])
    {
      assert cs[..i + 1][..i] == cs[..i];
      r := r + [Entry(Circle(Lit(cs[i].cx), Lit(cs[i].cy), Lit(cs[i].r)), Black, NonZero)];
      i := i + 1;
    }
    assert cs[..|cs|] == cs;
  }
}
