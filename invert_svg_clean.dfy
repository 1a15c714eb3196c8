/** invert_svg_clean.py: the inversion of invert_svg with the thin paths and the small circles
    left out of the mask, so that they vanish from the result; it counts what it keeps and what
    it drops. */
module InvertSvgClean {
  import opened Wrappers
  import opened Seqs
  import opened Lex
  import opened Geometry
  import opened SvgDoc
  import opened InvertSvg

  /** The `min_dimension` the script runs with. */
  const DefaultMinDimension: real := 0.5

  function ThinAt(minDimension: real): string -> bool
  {
    (d: string) => IsThinPath(d, minDimension)
  }

  function KeptAt(minDimension: real): string -> bool
  {
    (d: string) => !IsThinPath(d, minDimension)
  }

  /** The result of the path loop: the mask so far and the two counters. */
  datatype Sorted = Sorted(mask: seq<Entry>, kept: nat, filtered: nat)

  /** The path loop of invert_svg_filtered, for a test `thin` and its negation `wide`: a thin
      path only raises `filtered_count`; any other path raises `kept_count` and is written in
      black. */
  method SiftPaths(out: seq<Entry>, paths: seq<string>, thin: string -> bool, wide: string -> bool)
    returns (r: Sorted)
    requires forall d :: wide(d) == !thin(d)
    ensures r.mask == out + PathEntries(Filter(paths, wide), Black, NonZero)
    ensures r.kept == Count(paths, wide)
    ensures r.filtered == Count(paths, thin)
    ensures r.kept + r.filtered == |paths|
  {
    var mask := out;
    var kept, filtered := 0, 0;
    var i := 0;
    while i < |paths|
      invariant 0 <= i <= |paths|
      invariant mask == out + PathEntries(Filter(paths[..i], wide), Black, NonZero)
      invariant kept == Count(paths[..i], wide)
      invariant filtered == Count(paths[..i], thin)
      invariant kept + filtered == i
    {
      var d := paths[i];
      SiftStep(out, paths, i, thin, wide);
      if thin(d) {
        filtered := filtered + 1;
      } else {
        kept := kept + 1;
        mask := mask + [Entry(PathShape(d), Black, NonZero)];
      }
      i := i + 1;
    }
    assert paths[..|paths|] == paths;
    r := Sorted(mask, kept, filtered);
  }

  /** One more path: a thin one adds to the filtered count only; any other adds one to the kept
      count and its black entry to the mask. */
  lemma SiftStep(out: seq<Entry>, paths: seq<string>, i: nat, thin: string -> bool, wide: string -> bool)
    requires i < |paths| && wide(paths[i]) == !thin(paths[i])
    ensures out + PathEntries(Filter(paths[..i + 1], wide), Black, NonZero)
         == out + PathEntries(Filter(paths[..i], wide), Black, NonZero)
            + (if thin(paths[i]) then [] else [Entry(PathShape(paths[i]), Black, NonZero)])
    ensures Count(paths[..i + 1], wide) == Count(paths[..i], wide) + (if thin(paths[i]) then 0 else 1)
    ensures Count(paths[..i + 1], thin) == Count(paths[..i], thin) + (if thin(paths[i]) then 1 else 0)
  {
    FilterPrefixStep(paths, i, wide);
    FilterPrefixStep(paths, i, thin);
    if !thin(paths[i]) {
      PathEntriesSnoc(Filter(paths[..i], wide), paths[i], Black, NonZero);
    }
  }

  /** What invert_svg_filtered writes. */
  datatype FilteredCanvas = FilteredCanvas(canvas: MaskedCanvas, kept: nat, filtered: nat)

  /** What invert_svg_filtered writes, or the exception it raises: the canvas from the viewBox or
      the size attributes, then a mask holding the canvas in white, every path that is not thin
      in black, and the moved circle of every use of a defined circle of positive radius that is
      at least `minDimension` across; direct circles are not drawn. */
  function Filtered(src: Scan, u: UseScan, background: string, minDimension: real, read: Reader)
    : Result<FilteredCanvas>
  {
    match ViewBoxOrSides(src.viewBox, src.width, src.height, read)
    case Failure(e) => Failure(e)
    case Success(vb) =>
      match DefsOf(u, read)
      case Failure(e) => Failure(e)
      case Success(defs) =>
        match UseCircles(u.uses, defs, read, minDimension)
        case Failure(_) => Failure(ValueError)
        case Success(circles) =>
          var wide := Filter(src.paths, KeptAt(minDimension));
          Success(FilteredCanvas(
            MaskedCanvas(OutputSize(src.width, vb.width), OutputSize(src.height, vb.height), vb,
              [Entry(Rect(vb), White, NonZero)] + PathEntries(wide, Black, NonZero) + circles, background),
            |wide|, Count(src.paths, ThinAt(minDimension))))
  }

  /** invert_svg_filtered on the matches of its input. */
  method InvertSvgFiltered(src: Scan, u: UseScan, background: string, minDimension: real)
    returns (r: Result<FilteredCanvas>)
    ensures r == Filtered(src, u, background, minDimension, ParseFloat)
  {
    var read: Reader := ParseFloat;
    var vbr := ViewBoxOrSides(src.viewBox, src.width, src.height, read);
    if vbr.Failure? {
      return Failure(vbr.error);
    }
    var vb := vbr.value;
    var defs := DefsCircles(u.defs, read);
    if defs.Failure? {
      return Failure(defs.error);
    }
    var sorted := SiftPaths([Entry(Rect(vb), White, NonZero)], src.paths, ThinAt(minDimension), KeptAt(minDimension));
    var withUses := AppendUseCircles(sorted.mask, u.uses, defs.value, read, minDimension);
    if withUses.Failure? {
      return Failure(withUses.error);
    }
    FilteredParts(src, u, background, minDimension, read, vb, defs.value);
    r := Success(FilteredCanvas(
      MaskedCanvas(OutputSize(src.width, vb.width), OutputSize(src.height, vb.height), vb,
                   withUses.value, background),
      sorted.kept, sorted.filtered));
  }

  /** Filtered once the canvas and the defined circles are known. */
  lemma FilteredParts(src: Scan, u: UseScan, background: string, minDimension: real, read: Reader,
                      vb: ViewBox, defs: map<string, DefCircle>)
    requires ViewBoxOrSides(src.viewBox, src.width, src.height, read) == Success(vb)
    requires DefsOf(u, read) == Success(defs)
    ensures UseCircles(u.uses, defs, read, minDimension).Failure? ==>
      Filtered(src, u, background, minDimension, read) == Failure(ValueError)
    ensures UseCircles(u.uses, defs, read, minDimension).Success? ==>
      Filtered(src, u, background, minDimension, read) == Success(FilteredCanvas(
        MaskedCanvas(OutputSize(src.width, vb.width), OutputSize(src.height, vb.height), vb,
          [Entry(Rect(vb), White, NonZero)] + PathEntries(Filter(src.paths, KeptAt(minDimension)), Black, NonZero)
          + UseCircles(u.uses, defs, read, minDimension).value, background),
        Count(src.paths, KeptAt(minDimension)), Count(src.paths, ThinAt(minDimension))))
  {
  }

  /** The filtered mask: the canvas, then exactly the paths that are not thin in input order,
      then the moved circles of exactly the uses drawn at this diameter; the counters add up to
      the number of paths. It fails only when the canvas or the defined circles do not read, or
      a use of a defined circle of positive radius has an offset that does not read, even when
      that circle is too small to be drawn. */
  lemma FilteredMask(src: Scan, u: UseScan, background: string, minDimension: real, read: Reader,
                     vb: ViewBox, defs: map<string, DefCircle>)
    requires ViewBoxOrSides(src.viewBox, src.width, src.height, read) == Success(vb)
    requires DefsOf(u, read) == Success(defs)
    ensures Filtered(src, u, background, minDimension, read).Success?
      <==> Drawable(Filter(u.uses, PlacedIn(defs)), defs, read)
    ensures Filtered(src, u, background, minDimension, read).Success? ==>
      var doc := Filtered(src, u, background, minDimension, read).value;
      var wide := Filter(src.paths, KeptAt(minDimension));
      var drawn := Filter(u.uses, Emitted(defs, minDimension));
      && Drawable(drawn, defs, read)
      && doc.canvas.mask == [Entry(Rect(vb), White, NonZero)] + PathEntries(wide, Black, NonZero)
                            + TranslatedEntries(drawn, defs, read)
      && doc.kept + doc.filtered == |src.paths|
  {
    UseCirclesMeaning(u.uses, defs, read, minDimension);
    CountSplit(src.paths, KeptAt(minDimension), ThinAt(minDimension));
  }

  /** A path enters the filtered mask exactly when it is not thin: every wide path is in it and
      every path in it is wide. */
  lemma WidePathsKept(paths: seq<string>, minDimension: real)
    ensures forall i :: 0 <= i < |paths| && !IsThinPath(paths[i], minDimension) ==>
      paths[i] in Filter(paths, KeptAt(minDimension))
    ensures forall j :: 0 <= j < |Filter(paths, KeptAt(minDimension))| ==>
      !IsThinPath(Filter(paths, KeptAt(minDimension))[j], minDimension)
  {
    FilterMembers(paths, KeptAt(minDimension));
  }

  /** A use is drawn exactly when it names a defined circle of positive radius whose diameter
      reaches `minDimension`. */
  lemma DrawnUses(uses: seq<UseMatch>, defs: map<string, DefCircle>, minDimension: real)
    ensures forall i :: 0 <= i < |uses| && uses[i].ref in defs && defs[uses[i].ref].r > 0.0
                          && defs[uses[i].ref].r * 2.0 >= minDimension ==>
      uses[i] in Filter(uses, Emitted(defs, minDimension))
    ensures forall j :: 0 <= j < |Filter(uses, Emitted(defs, minDimension))| ==>
      var v := Filter(uses, Emitted(defs, minDimension))[j];
      v in uses && v.ref in defs && defs[v.ref].r > 0.0 && defs[v.ref].r * 2.0 >= minDimension
  {
    FilterMembers(uses, Emitted(defs, minDimension));
  }
}
