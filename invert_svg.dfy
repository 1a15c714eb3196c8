/** invert_svg.py: the inversion of a drawing as a mask (the canvas in white, every shape in
    black) and, in invert_svg_simple, as one even-odd path made of the canvas outline followed
    by every path. */
module InvertSvg {
  import opened Wrappers
  import opened Lex
  import opened Seqs
  import opened Geometry
  import opened SvgDoc

  /** A number conversion; the scripts use Python's float(), which is Lex.ParseFloat. */
  type Reader = string -> Option<real>

  /** One `<g id="…"><circle … cx cy r …/></g>` match inside `<defs>`. */
  datatype GroupMatch = GroupMatch(id: string, cx: string, cy: string, r: string)

  /** A circle defined in `<defs>`, its numbers read by float(). */
  datatype DefCircle = DefCircle(cx: real, cy: real, r: real)

  /** One `<use … xlink:href="#ref" … x="…" … y="…" …/>` match. */
  datatype UseMatch = UseMatch(ref: string, x: string, y: string)

  /** `(float(cx), float(cy), float(r))`, read left to right. */
  function ParseDef(g: GroupMatch, read: Reader): (r: Result<DefCircle>)
    ensures r.Success? <==> read(g.cx).Some? && read(g.cy).Some? && read(g.r).Some?
    ensures r.Success? ==> r.value == DefCircle(read(g.cx).value, read(g.cy).value, read(g.r).value)
    ensures r.Failure? ==> r.error == ValueError
  {
    match read(g.cx)
    case None => Failure(ValueError)
    case Some(cx) =>
      match read(g.cy)
      case None => Failure(ValueError)
      case Some(cy) =>
        match read(g.r)
        case None => Failure(ValueError)
        case Some(r) => Success(DefCircle(cx, cy, r))
  }

  /** The dictionary `defs_circles` after the groups `gs` have been stored in order. */
  function DefsTable(gs: seq<GroupMatch>, read: Reader): (r: Result<map<string, DefCircle>>)
    ensures r.Failure? ==> r.error == ValueError
    decreases |gs|
  {
    if gs == [] then Success(map[])
    else
      match DefsTable(gs[..|gs| - 1], read)
      case Failure(e) => Failure(e)
      case Success(m) =>
        match ParseDef(gs[|gs| - 1], read)
        case Failure(e) => Failure(e)
        case Success(c) => Success(m[gs[|gs| - 1].id := c])
  }

  /** `i` is the last group that defines its id. */
  predicate LastWithId(gs: seq<GroupMatch>, i: int)
  {
    0 <= i < |gs| && forall j :: i < j < |gs| ==> gs[j].id != gs[i].id
  }

  /** The table is built exactly when every group's numbers read. */
  lemma {:induction false} DefsTableSucceeds(gs: seq<GroupMatch>, read: Reader)
    ensures DefsTable(gs, read).Success? <==> forall i :: 0 <= i < |gs| ==> ParseDef(gs[i], read).Success?
    decreases |gs|
  {
    if gs != [] {
      var init := gs[..|gs| - 1];
      DefsTableSucceeds(init, read);
      assert forall i :: 0 <= i < |init| ==> init[i] == gs[i];
    }
  }

  /** The keys of the table are the ids of the groups. */
  lemma {:induction false} DefsTableKeys(gs: seq<GroupMatch>, read: Reader, id: string)
    requires DefsTable(gs, read).Success?
    ensures id in DefsTable(gs, read).value <==> exists i :: 0 <= i < |gs| && gs[i].id == id
    decreases |gs|
  {
    if gs != [] {
      var n := |gs| - 1;
      var init := gs[..n];
      DefsTableKeys(init, read, id);
      if id != gs[n].id && id in DefsTable(init, read).value {
        var i :| 0 <= i < n && init[i].id == id;
        assert gs[i].id == id;
      }
      if id != gs[n].id && exists i :: 0 <= i < |gs| && gs[i].id == id {
        var i :| 0 <= i < |gs| && gs[i].id == id;
        assert init[i].id == id;
      }
    }
  }

  /** Each id maps to the circle of the last group that defines it. */
  lemma {:induction false} DefsTableLastWins(gs: seq<GroupMatch>, read: Reader, i: int)
    requires DefsTable(gs, read).Success? && LastWithId(gs, i)
    ensures gs[i].id in DefsTable(gs, read).value && ParseDef(gs[i], read).Success?
    ensures DefsTable(gs, read).value[gs[i].id] == ParseDef(gs[i], read).value
    decreases |gs|
  {
    DefsTableSucceeds(gs, read);
    var n := |gs| - 1;
    if i < n {
      var init := gs[..n];
      assert LastWithId(init, i);
      DefsTableLastWins(init, read, i);
    }
  }

  /** `defs_circles`: empty without a `<defs>` element, otherwise the table of its groups. */
  method DefsCircles(defs: Option<seq<GroupMatch>>, read: Reader) returns (r: Result<map<string, DefCircle>>)
    ensures defs.None? ==> r == Success(map[])
    ensures defs.Some? ==> r == DefsTable(defs.value, read)
  {
    var table: map<string, DefCircle> := map[];
    if defs.Some? {
      var gs := defs.value;
      var i := 0;
      while i < |gs|
        invariant 0 <= i <= |gs|
        invariant DefsTable(gs[..i], read) == Success(table)
      {
        assert gs[..i + 1][..i] == gs[..i];
        var c := ParseDef(gs[i], read);
        if c.Failure? {
          assert DefsTable(gs[..i + 1], read).Failure?;
          FailureExtends(gs, read, i + 1);
          return Failure(c.error);
        }
        table := table[gs[i].id := c.value];
        i := i + 1;
      }
      assert gs[..|gs|] == gs;
    }
    r := Success(table);
  }

  /** Once storing the first `k` groups fails, storing all of them fails with the same error. */
  lemma {:induction false} FailureExtends(gs: seq<GroupMatch>, read: Reader, k: nat)
    requires k <= |gs| && DefsTable(gs[..k], read).Failure?
    ensures DefsTable(gs, read) == DefsTable(gs[..k], read)
    decreases |gs| - k
  {
    if k < |gs| {
      assert gs[..k + 1][..k] == gs[..k];
      FailureExtends(gs, read, k + 1);
    } else {
      assert gs[..k] == gs;
    }
  }

  /** The circle passes `float(r) > 0`. */
  function RadiusPositive(read: Reader): CircleMatch -> bool
  {
    (c: CircleMatch) => read(c.r).Some? && read(c.r).value > 0.0
  }

  predicate RadiiParse(cs: seq<CircleMatch>, read: Reader)
  {
    forall i :: 0 <= i < |cs| ==> read(cs[i].r).Some?
  }

  /** The circle loop of the mask: every circle whose radius is positive, its text copied; a
      radius that does not read raises ValueError. */
  method AppendPositiveCircles(out: seq<Entry>, cs: seq<CircleMatch>, read: Reader) returns (r: Result<seq<Entry>>)
    ensures RadiiParse(cs, read) ==> r == Success(out + CircleEntries(Filter(cs, RadiusPositive(read))))
    ensures !RadiiParse(cs, read) ==> r == Failure(ValueError)
  {
    var acc := out;
    var i := 0;
    while i < |cs|
      invariant 0 <= i <= |cs|
      invariant RadiiParse(cs[..i], read)
      invariant acc == out + CircleEntries(Filter(cs[..i], RadiusPositive(read)))
    {
      var c := cs[i];
      var rad := read(c.r);
      if rad.None? {
        return Failure(ValueError);
      }
      CirclesStep(out, cs, i, read);
      if rad.value > 0.0 {
        acc := acc + [CircleEntry(c)];
      }
      i := i + 1;
    }
    assert cs[..|cs|] == cs;
    r := Success(acc);
  }

  /** One more circle whose radius reads: the radii still all read, and the circle's entry is
      added exactly when its radius is positive. */
  lemma CirclesStep(out: seq<Entry>, cs: seq<CircleMatch>, i: nat, read: Reader)
    requires i < |cs| && RadiiParse(cs[..i], read) && read(cs[i].r).Some?
    ensures RadiiParse(cs[..i + 1], read)
    ensures read(cs[i].r).value > 0.0 ==>
      out + CircleEntries(Filter(cs[..i + 1], RadiusPositive(read)))
        == out + CircleEntries(Filter(cs[..i], RadiusPositive(read))) + [CircleEntry(cs[i])]
    ensures read(cs[i].r).value <= 0.0 ==>
      CircleEntries(Filter(cs[..i + 1], RadiusPositive(read))) == CircleEntries(Filter(cs[..i], RadiusPositive(read)))
  {
    assert cs[..i + 1] == cs[..i] + [cs[i]];
    FilterSnoc(cs[..i], cs[i], RadiusPositive(read));
    if read(cs[i].r).value > 0.0 {
      CircleEntriesSnoc(Filter(cs[..i], RadiusPositive(read)), cs[i]);
    }
  }

  /** The use refers to a defined circle whose radius is positive. */
  function PlacedIn(defs: map<string, DefCircle>): UseMatch -> bool
  {
    (u: UseMatch) => u.ref in defs && defs[u.ref].r > 0.0
  }

  /** Both offsets of the use read as numbers. */
  predicate Translatable(u: UseMatch, read: Reader)
  {
    read(u.x).Some? && read(u.y).Some?
  }

  /** The circle written for a use of `c`: moved by the use's x and y offsets, radius kept. */
  function MovedCircle(u: UseMatch, c: DefCircle, read: Reader): Entry
    requires Translatable(u, read)
  {
    Entry(Circle(Num(c.cx + read(u.x).value), Num(c.cy + read(u.y).value), Num(c.r)), Black, NonZero)
  }

  /** The use refers to a defined circle and both its offsets read. */
  predicate DrawableUse(u: UseMatch, defs: map<string, DefCircle>, read: Reader)
  {
    u.ref in defs && Translatable(u, read)
  }

  /** Every use refers to a defined circle and both its offsets read. */
  predicate Drawable(us: seq<UseMatch>, defs: map<string, DefCircle>, read: Reader)
    decreases |us|
  {
    us == [] || (Drawable(us[..|us| - 1], defs, read) && DrawableUse(us[|us| - 1], defs, read))
  }

  lemma {:induction false} DrawableAt(us: seq<UseMatch>, defs: map<string, DefCircle>, read: Reader, k: nat)
    requires Drawable(us, defs, read) && k < |us|
    ensures DrawableUse(us[k], defs, read)
    decreases |us|
  {
    if k < |us| - 1 {
      assert us[..|us| - 1][k] == us[k];
      DrawableAt(us[..|us| - 1], defs, read, k);
    }
  }

  /** The circle written for each placed use, in order. */
  function TranslatedEntries(us: seq<UseMatch>, defs: map<string, DefCircle>, read: Reader): (r: seq<Entry>)
    requires Drawable(us, defs, read)
    ensures |r| == |us|
    decreases |us|
  {
    if us == [] then []
    else
      var u := us[|us| - 1];
      TranslatedEntries(us[..|us| - 1], defs, read) + [MovedCircle(u, defs[u.ref], read)]
  }

  /** The k-th circle written is the k-th use's circle moved by its offsets. */
  lemma {:induction false} TranslatedEntriesAt(us: seq<UseMatch>, defs: map<string, DefCircle>, read: Reader, k: nat)
    requires Drawable(us, defs, read) && k < |us|
    ensures DrawableUse(us[k], defs, read)
    ensures var c := defs[us[k].ref];
      TranslatedEntries(us, defs, read)[k]
        == Entry(Circle(Num(c.cx + read(us[k].x).value), Num(c.cy + read(us[k].y).value), Num(c.r)), Black, NonZero)
    decreases |us|
  {
    DrawableAt(us, defs, read, k);
    if k < |us| - 1 {
      var init := us[..|us| - 1];
      assert init[k] == us[k];
      TranslatedEntriesAt(init, defs, read, k);
    }
  }

  /** Appending a drawable use appends its circle. */
  lemma TranslatedSnoc(us: seq<UseMatch>, u: UseMatch, defs: map<string, DefCircle>, read: Reader)
    requires Drawable(us, defs, read) && u.ref in defs && Translatable(u, read)
    ensures Drawable(us + [u], defs, read)
    ensures TranslatedEntries(us + [u], defs, read) == TranslatedEntries(us, defs, read) + [MovedCircle(u, defs[u.ref], read)]
  {
    assert (us + [u])[..|us|] == us;
  }

  /** The use is drawn: it is placed and its circle is at least `minDiameter` across. */
  function Emitted(defs: map<string, DefCircle>, minDiameter: real): UseMatch -> bool
  {
    (u: UseMatch) => u.ref in defs && defs[u.ref].r > 0.0 && defs[u.ref].r * 2.0 >= minDiameter
  }

  /** The circles the use loop writes, one use after another: a placed use whose offsets do not
      read raises ValueError, a placed use at least `minDiameter` across gives its moved circle. */
  function UseCircles(uses: seq<UseMatch>, defs: map<string, DefCircle>, read: Reader, minDiameter: real)
    : Result<seq<Entry>>
    decreases |uses|
  {
    if uses == [] then Success([])
    else
      match UseCircles(uses[..|uses| - 1], defs, read, minDiameter)
      case Failure(e) => Failure(e)
      case Success(es) =>
        var u := uses[|uses| - 1];
        if !PlacedIn(defs)(u) then Success(es)
        else if !Translatable(u, read) then Failure(ValueError)
        else if defs[u.ref].r * 2.0 >= minDiameter then Success(es + [MovedCircle(u, defs[u.ref], read)])
        else Success(es)
  }

  /** Once the first `k` uses fail, all of them fail with the same error. */
  lemma {:induction false} UseFailureExtends(uses: seq<UseMatch>, defs: map<string, DefCircle>, read: Reader,
                                             minDiameter: real, k: nat)
    requires k <= |uses| && UseCircles(uses[..k], defs, read, minDiameter).Failure?
    ensures UseCircles(uses, defs, read, minDiameter) == UseCircles(uses[..k], defs, read, minDiameter)
    decreases |uses| - k
  {
    if k < |uses| {
      assert uses[..k + 1][..k] == uses[..k];
      UseFailureExtends(uses, defs, read, minDiameter, k + 1);
    } else {
      assert uses[..k] == uses;
    }
  }

  /** The use loop succeeds exactly when every placed use has readable offsets, and then it
      writes the moved circle of every use that is placed and large enough, in order. */
  lemma {:induction false} UseCirclesMeaning(uses: seq<UseMatch>, defs: map<string, DefCircle>, read: Reader,
                                             minDiameter: real)
    ensures UseCircles(uses, defs, read, minDiameter).Success? <==> Drawable(Filter(uses, PlacedIn(defs)), defs, read)
    ensures UseCircles(uses, defs, read, minDiameter).Success? ==>
      Drawable(Filter(uses, Emitted(defs, minDiameter)), defs, read) &&
      UseCircles(uses, defs, read, minDiameter).value
        == TranslatedEntries(Filter(uses, Emitted(defs, minDiameter)), defs, read)
    decreases |uses|
  {
    if uses != [] {
      var init, u := uses[..|uses| - 1], uses[|uses| - 1];
      UseCirclesMeaning(init, defs, read, minDiameter);
      assert uses == init + [u];
      FilterSnoc(init, u, PlacedIn(defs));
      FilterSnoc(init, u, Emitted(defs, minDiameter));
      var placed := Filter(init, PlacedIn(defs));
      var emitted := Filter(init, Emitted(defs, minDiameter));
      if !PlacedIn(defs)(u) {
        assert !Emitted(defs, minDiameter)(u);
        assert Filter(uses, PlacedIn(defs)) == placed;
        assert Filter(uses, Emitted(defs, minDiameter)) == emitted;
      } else {
        assert Filter(uses, PlacedIn(defs)) == placed + [u];
        assert (placed + [u])[..|placed|] == placed;
        assert Drawable(placed + [u], defs, read) <==> Drawable(placed, defs, read) && DrawableUse(u, defs, read);
        if Drawable(placed, defs, read) && Translatable(u, read) {
          TranslatedSnoc(placed, u, defs, read);
          if Emitted(defs, minDiameter)(u) {
            TranslatedSnoc(emitted, u, defs, read);
            assert Filter(uses, Emitted(defs, minDiameter)) == emitted + [u];
          } else {
            assert Filter(uses, Emitted(defs, minDiameter)) == emitted;
          }
        }
      }
    }
  }

  /** The use loop of the mask: a use is placed when it refers to a defined circle of positive
      radius; for a placed use x and then y are read (ValueError when either is not a number),
      and its circle is drawn when it is at least `minDiameter` across. */
  method AppendUseCircles(out: seq<Entry>, uses: seq<UseMatch>, defs: map<string, DefCircle>, read: Reader,
                          minDiameter: real)
    returns (r: Result<seq<Entry>>)
    ensures UseCircles(uses, defs, read, minDiameter).Failure? ==> r == Failure(ValueError)
    ensures UseCircles(uses, defs, read, minDiameter).Success? ==>
      r == Success(out + UseCircles(uses, defs, read, minDiameter).value)
  {
    var acc: seq<Entry> := [];
    var i := 0;
    while i < |uses|
      invariant 0 <= i <= |uses|
      invariant UseCircles(uses[..i], defs, read, minDiameter) == Success(acc)
    {
      var u := uses[i];
      assert uses[..i + 1][..i] == uses[..i];
      assert uses[..i + 1][i] == u;
      if u.ref in defs && defs[u.ref].r > 0.0 {
        if read(u.x).None? || read(u.y).None? {
          UseFailureExtends(uses, defs, read, minDiameter, i + 1);
          return Failure(ValueError);
        }
        if defs[u.ref].r * 2.0 >= minDiameter {
          acc := acc + [MovedCircle(u, defs[u.ref], read)];
        }
      }
      i := i + 1;
    }
    assert uses[..|uses|] == uses;
    r := Success(out + acc);
  }

  /** A placed use whose offsets do not read makes the list of placed uses not drawable. */
  lemma UntranslatableStays(uses: seq<UseMatch>, defs: map<string, DefCircle>, read: Reader, i: nat)
    requires i < |uses| && PlacedIn(defs)(uses[i]) && !Translatable(uses[i], read)
    ensures !Drawable(Filter(uses, PlacedIn(defs)), defs, read)
  {
    FilterMembers(uses, PlacedIn(defs));
    var placed := Filter(uses, PlacedIn(defs));
    var k :| 0 <= k < |placed| && placed[k] == uses[i];
    if Drawable(placed, defs, read) {
      DrawableAt(placed, defs, read, k);
    }
  }

  /** With no lower bound on the diameter, the drawn uses are exactly the placed ones. */
  lemma EmittedAtZero(uses: seq<UseMatch>, defs: map<string, DefCircle>)
    ensures Filter(uses, Emitted(defs, 0.0)) == Filter(uses, PlacedIn(defs))
  {
    FilterSame(uses, Emitted(defs, 0.0), PlacedIn(defs));
  }

  /** The `<use>` and `<defs>` matches of a document: every `<use … xlink:href="#id" … x … y …/>`
      in order, and the `<g id><circle …/></g>` groups of the first `<defs>` element, if any. */
  datatype UseScan = UseScan(uses: seq<UseMatch>, defs: Option<seq<GroupMatch>>)

  /** `defs_circles` as the script builds it. */
  function DefsOf(u: UseScan, read: Reader): Result<map<string, DefCircle>>
  {
    if u.defs.None? then Success(map[]) else DefsTable(u.defs.value, read)
  }

  /** What invert_svg writes, or the exception it raises: the canvas from the viewBox or the
      size attributes, then a mask holding the canvas in white, every path in black, every
      circle of positive radius in black, and every use of a defined circle of positive radius
      as a black circle moved by the use's offsets. */
  function Inverted(src: Scan, u: UseScan, background: string, read: Reader): Result<MaskedCanvas>
  {
    match ViewBoxOrSides(src.viewBox, src.width, src.height, read)
    case Failure(e) => Failure(e)
    case Success(vb) =>
      match DefsOf(u, read)
      case Failure(e) => Failure(e)
      case Success(defs) =>
        if !RadiiParse(src.circles, read) then Failure(ValueError)
        else if !Drawable(Filter(u.uses, PlacedIn(defs)), defs, read) then Failure(ValueError)
        else
          EmittedAtZero(u.uses, defs);
          Success(MaskedCanvas(OutputSize(src.width, vb.width), OutputSize(src.height, vb.height), vb,
            [Entry(Rect(vb), White, NonZero)] + PathEntries(src.paths, Black, NonZero)
            + CircleEntries(Filter(src.circles, RadiusPositive(read)))
            + TranslatedEntries(Filter(u.uses, PlacedIn(defs)), defs, read),
            background))
  }

  /** invert_svg on the matches of its input. */
  method InvertSvg(src: Scan, u: UseScan, background: string) returns (r: Result<MaskedCanvas>)
    ensures r == Inverted(src, u, background, ParseFloat)
  {
    var read: Reader := ParseFloat;
    var vbr := ViewBoxOrSides(src.viewBox, src.width, src.height, read);
    if vbr.Failure? {
      return Failure(vbr.error);
    }
    var vb := vbr.value;
    var defs := DefsCircles(u.defs, read);
    if defs.Failure? {
      return Failure(defs.error);
    }
    var mask := [Entry(Rect(vb), White, NonZero)];
    mask := AppendPathEntries(mask, src.paths, Black, NonZero);
    var withCircles := AppendPositiveCircles(mask, src.circles, read);
    if withCircles.Failure? {
      return Failure(withCircles.error);
    }
    var withUses := AppendUseCircles(withCircles.value, u.uses, defs.value, read, 0.0);
    UseCirclesMeaning(u.uses, defs.value, read, 0.0);
    EmittedAtZero(u.uses, defs.value);
    if withUses.Failure? {
      return Failure(withUses.error);
    }
    r := Success(MaskedCanvas(OutputSize(src.width, vb.width), OutputSize(src.height, vb.height), vb,
                              withUses.value, background));
  }

  /** The mask of invert_svg: the canvas first, then every path in black in order, then exactly
      the circles of positive radius, then for each placed use the defined circle moved by the
      use's x and y. */
  lemma InvertedMask(src: Scan, u: UseScan, background: string, read: Reader, doc: MaskedCanvas,
                     defs: map<string, DefCircle>)
    requires Inverted(src, u, background, read) == Success(doc)
    requires DefsOf(u, read) == Success(defs)
    ensures ViewBoxOrSides(src.viewBox, src.width, src.height, read).Success?
    ensures var vb := ViewBoxOrSides(src.viewBox, src.width, src.height, read).value;
      var placed := Filter(u.uses, PlacedIn(defs));
      Drawable(placed, defs, read) && doc.mask == [Entry(Rect(vb), White, NonZero)]
        + PathEntries(src.paths, Black, NonZero) + CircleEntries(Filter(src.circles, RadiusPositive(read)))
        + TranslatedEntries(placed, defs, read)
  {
  }

  /** The circles kept are those of positive radius, and every placed use is drawn as its
      defined circle moved by the use's offsets. */
  lemma MaskMembers(circles: seq<CircleMatch>, uses: seq<UseMatch>, defs: map<string, DefCircle>, read: Reader)
    requires Drawable(Filter(uses, PlacedIn(defs)), defs, read)
    ensures var kept := Filter(circles, RadiusPositive(read));
      forall j :: 0 <= j < |kept| ==> kept[j] in circles && RadiusPositive(read)(kept[j])
    ensures var placed := Filter(uses, PlacedIn(defs));
      forall k :: 0 <= k < |placed| ==>
        placed[k] in uses && PlacedIn(defs)(placed[k]) && DrawableUse(placed[k], defs, read)
        && TranslatedEntries(placed, defs, read)[k] == MovedCircle(placed[k], defs[placed[k].ref], read)
  {
    var placed := Filter(uses, PlacedIn(defs));
    FilterMembers(circles, RadiusPositive(read));
    FilterMembers(uses, PlacedIn(defs));
    forall k | 0 <= k < |placed|
      ensures DrawableUse(placed[k], defs, read)
      ensures TranslatedEntries(placed, defs, read)[k] == MovedCircle(placed[k], defs[placed[k].ref], read)
    {
      TranslatedEntriesAt(placed, defs, read, k);
    }
  }

  /** The text Python's str() writes for a float. */
  type Show = real -> string

  /** `t` is the text of a plain decimal numeral whose value is `v`. */
  ghost predicate WritesValue(t: string, v: real)
  {
    exists n: Numeral :: n.Valid() && n.Text() == t && n.Value() == v
  }

  /** Each of the four numbers the canvas outline writes scans back as that one number. */
  predicate CornersScan(vb: ViewBox, show: Show)
  {
    && PathCoords(show(vb.x)) == [vb.x] && PathCoords(show(vb.y)) == [vb.y]
    && PathCoords(show(vb.Right())) == [vb.Right()] && PathCoords(show(vb.Bottom())) == [vb.Bottom()]
  }

  /** When str() writes the four numbers of the outline as plain numerals, they scan back. */
  lemma CornersScanOfNumerals(vb: ViewBox, show: Show)
    requires WritesValue(show(vb.x), vb.x) && WritesValue(show(vb.y), vb.y)
    requires WritesValue(show(vb.Right()), vb.Right()) && WritesValue(show(vb.Bottom()), vb.Bottom())
    ensures CornersScan(vb, show)
  {
    WrittenCoords(show(vb.x), vb.x);
    WrittenCoords(show(vb.y), vb.y);
    WrittenCoords(show(vb.Right()), vb.Right());
    WrittenCoords(show(vb.Bottom()), vb.Bottom());
  }

  /** A command letter followed directly by a point, as `L{x},{y}`. */
  function Corner(cmd: char, x: string, y: string): string
  {
    [cmd] + x + "," + y
  }

  /** The outline of the canvas, clockwise: `M{x},{y} L{x+w},{y} L{x+w},{y+h} L{x},{y+h} Z`. */
  function OuterRect(vb: ViewBox, show: Show): string
  {
    Outline(Corner('M', show(vb.x), show(vb.y)), Corner('L', show(vb.Right()), show(vb.y)),
            Corner('L', show(vb.Right()), show(vb.Bottom())), Corner('L', show(vb.x), show(vb.Bottom())))
  }

  /** Four corner texts separated by spaces and closed by " Z". */
  function Outline(c1: string, c2: string, c3: string, c4: string): string
  {
    c1 + " " + (c2 + " " + (c3 + " " + (c4 + " Z")))
  }

  /** invert_svg_simple's combined path: the canvas outline, then every path, joined by spaces. */
  function CombinedPath(vb: ViewBox, paths: seq<string>, show: Show): string
  {
    Join([OuterRect(vb, show)] + paths, " ")
  }

  /** The numbers of the paths, one path after another. */
  function AllCoords(ds: seq<string>): (r: seq<real>)
  {
    if ds == [] then [] else PathCoords(ds[0]) + AllCoords(ds[1..])
  }

  /** Joining texts with spaces concatenates their numbers. */
  lemma {:induction false} JoinCoords(ds: seq<string>)
    ensures PathCoords(Join(ds, " ")) == AllCoords(ds)
    decreases |ds|
  {
    if |ds| == 1 {
      assert AllCoords(ds[1..]) == [];
    } else if |ds| > 1 {
      JoinCoords(ds[1..]);
      assert Join(ds, " ") == ds[0] + [' '] + Join(ds[1..], " ");
      PathCoordsConcat(ds[0], ' ', Join(ds[1..], " "));
    }
  }

  /** A letter starts no number. */
  lemma LetterCoords(l: char, rest: string)
    requires IsAsciiLetter(l)
    ensures PathCoords([l] + rest) == PathCoords(rest)
  {
    assert ([l] + rest)[1..] == rest;
  }

  lemma SpaceCoords(a: string, b: string)
    ensures PathCoords(a + " " + b) == PathCoords(a) + PathCoords(b)
  {
    assert a + " " + b == a + [' '] + b;
    PathCoordsConcat(a, ' ', b);
  }

  lemma CornerCoords(cmd: char, x: string, y: string, a: real, b: real)
    requires IsAsciiLetter(cmd) && PathCoords(x) == [a] && PathCoords(y) == [b]
    ensures PathCoords(Corner(cmd, x, y)) == [a, b]
  {
    CornerParts(cmd, x, y);
  }

  /** A written number is read back as that one number. */
  lemma WrittenCoords(t: string, v: real)
    requires WritesValue(t, v)
    ensures PathCoords(t) == [v]
  {
    var n: Numeral :| n.Valid() && n.Text() == t && n.Value() == v;
    NumeralCoords(n);
  }

  /** A corner's numbers are those of its two coordinate texts. */
  lemma CornerParts(cmd: char, x: string, y: string)
    requires IsAsciiLetter(cmd)
    ensures PathCoords(Corner(cmd, x, y)) == PathCoords(x) + PathCoords(y)
  {
    assert Corner(cmd, x, y) == [cmd] + (x + [','] + y);
    LetterCoords(cmd, x + [','] + y);
    PathCoordsConcat(x, ',', y);
  }

  /** The closing " Z" adds no number. */
  lemma CloseCoords(c: string)
    ensures PathCoords(c + " Z") == PathCoords(c)
  {
    assert c + " Z" == c + " " + "Z";
    SpaceCoords(c, "Z");
    LetterCoords('Z', "");
    assert "Z" == ['Z'] + "";
  }

  /** Four texts written with spaces between them and a closing " Z" give their numbers in order. */
  lemma ChainCoords(c1: string, c2: string, c3: string, c4: string)
    ensures PathCoords(Outline(c1, c2, c3, c4))
         == PathCoords(c1) + (PathCoords(c2) + (PathCoords(c3) + PathCoords(c4)))
  {
    var t4 := c4 + " Z";
    var t3 := c3 + " " + t4;
    var t2 := c2 + " " + t3;
    var p1, p2, p3, p4 := PathCoords(c1), PathCoords(c2), PathCoords(c3), PathCoords(c4);
    assert PathCoords(t4) == p4 by { CloseCoords(c4); }
    assert PathCoords(t3) == p3 + p4 by { SpaceCoords(c3, t4); }
    assert PathCoords(t2) == p2 + (p3 + p4) by { SpaceCoords(c2, t3); }
    assert PathCoords(c1 + " " + t2) == p1 + (p2 + (p3 + p4)) by { SpaceCoords(c1, t2); }
    assert Outline(c1, c2, c3, c4) == c1 + " " + t2;
  }

  /** Corners at (x1,y1), (x2,y1), (x2,y2), (x1,y2) give those eight numbers in order. */
  lemma OutlineCoords(c1: string, c2: string, c3: string, c4: string, x1: real, y1: real, x2: real, y2: real,
                      t: string)
    requires PathCoords(c1) == [x1, y1] && PathCoords(c2) == [x2, y1]
    requires PathCoords(c3) == [x2, y2] && PathCoords(c4) == [x1, y2]
    requires t == Outline(c1, c2, c3, c4)
    ensures PathCoords(t) == [x1, y1, x2, y1, x2, y2, x1, y2]
  {
    ChainCoords(c1, c2, c3, c4);
    FourPairs(x1, y1, x2, y1, x2, y2, x1, y2);
  }

  lemma FourPairs(a: real, b: real, c: real, d: real, e: real, f: real, g: real, h: real)
    ensures [a, b] + ([c, d] + ([e, f] + [g, h])) == [a, b, c, d, e, f, g, h]
  {
    assert [e, f] + [g, h] == [e, f, g, h];
    assert [c, d] + [e, f, g, h] == [c, d, e, f, g, h];
  }

  /** The canvas outline holds exactly its four corners, clockwise from the origin, whenever the
      four numbers it writes scan back. */
  lemma OuterRectCoords(vb: ViewBox, show: Show)
    requires CornersScan(vb, show)
    ensures PathCoords(OuterRect(vb, show)) ==
      [vb.x, vb.y, vb.Right(), vb.y, vb.Right(), vb.Bottom(), vb.x, vb.Bottom()]
  {
    var c1 := Corner('M', show(vb.x), show(vb.y));
    var c2 := Corner('L', show(vb.Right()), show(vb.y));
    var c3 := Corner('L', show(vb.Right()), show(vb.Bottom()));
    var c4 := Corner('L', show(vb.x), show(vb.Bottom()));
    CornerCoords('M', show(vb.x), show(vb.y), vb.x, vb.y);
    CornerCoords('L', show(vb.Right()), show(vb.y), vb.Right(), vb.y);
    CornerCoords('L', show(vb.Right()), show(vb.Bottom()), vb.Right(), vb.Bottom());
    CornerCoords('L', show(vb.x), show(vb.Bottom()), vb.x, vb.Bottom());
    OutlineCoords(c1, c2, c3, c4, vb.x, vb.y, vb.Right(), vb.Bottom(), OuterRect(vb, show));
  }

  /** The even-odd path of invert_svg_simple carries the numbers of the outline and then those
      of every path, in order; when the outline's four numbers scan back, those are the canvas
      corners. */
  lemma CombinedPathCoords(vb: ViewBox, paths: seq<string>, show: Show)
    ensures PathCoords(CombinedPath(vb, paths, show)) == PathCoords(OuterRect(vb, show)) + AllCoords(paths)
    ensures CornersScan(vb, show) ==>
      PathCoords(CombinedPath(vb, paths, show))
      == [vb.x, vb.y, vb.Right(), vb.y, vb.Right(), vb.Bottom(), vb.x, vb.Bottom()] + AllCoords(paths)
  {
    JoinCoords([OuterRect(vb, show)] + paths);
    assert ([OuterRect(vb, show)] + paths)[1..] == paths;
    if CornersScan(vb, show) {
      OuterRectCoords(vb, show);
    }
  }

  /** The document invert_svg_simple writes: one path, filled with `fill` by the even-odd rule. */
  datatype EvenOddDoc = EvenOddDoc(width: SizeText, height: SizeText, box: ViewBox, d: string, fill: string)

  /** invert_svg_simple on the matches of its input; circles are matched but never used. */
  function InvertSvgSimple(src: Scan, fill: string, show: Show, read: Reader): (r: Result<EvenOddDoc>)
    ensures r.Failure? <==> ViewBoxOrSides(src.viewBox, src.width, src.height, read).Failure?
    ensures r.Failure? ==> r.error == ViewBoxOrSides(src.viewBox, src.width, src.height, read).error
    ensures r.Success? ==> ViewBoxOrSides(src.viewBox, src.width, src.height, read) == Success(r.value.box)
    ensures r.Success? ==>
      && r.value.fill == fill
      && r.value.width == (if src.width.Some? then Given(src.width.value) else Printed(r.value.box.width))
      && r.value.height == (if src.height.Some? then Given(src.height.value) else Printed(r.value.box.height))
      && r.value.d == CombinedPath(r.value.box, src.paths, show)
    ensures r.Success? && CornersScan(r.value.box, show) ==>
      PathCoords(r.value.d) == [r.value.box.x, r.value.box.y, r.value.box.Right(), r.value.box.y,
                                r.value.box.Right(), r.value.box.Bottom(), r.value.box.x, r.value.box.Bottom()]
                               + AllCoords(src.paths)
  {
    match ViewBoxOrSides(src.viewBox, src.width, src.height, read)
    case Failure(e) => Failure(e)
    case Success(vb) =>
      CombinedPathCoords(vb, src.paths, show);
      Success(EvenOddDoc(OutputSize(src.width, vb.width), OutputSize(src.height, vb.height), vb,
                         CombinedPath(vb, src.paths, show), fill))
  }
}
