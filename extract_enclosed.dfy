/** extract_enclosed.py: keep the closed, non-thin paths, split them by whether their bounding
    box touches the canvas edge, and write two masks: the inversion of the whole drawing, and
    the interiors of the boundary-touching shapes. */
module ExtractEnclosed {
  import opened Wrappers
  import opened Seqs
  import opened Geometry
  import opened SvgDoc
  import Lex

  /** The thinness threshold for valid paths and the margin of the boundary test. */
  const ValidThreshold: real := 0.3
  const BoundaryMargin: real := 0.5

  /** A valid path with the bounding box computed for it. */
  datatype Candidate = Candidate(d: string, box: BBox)

  /** The `d` of each candidate. */
  function Ds(cs: seq<Candidate>): (r: seq<string>)
    ensures |r| == |cs|
    ensures forall i :: 0 <= i < |cs| ==> r[i] == cs[i].d
  {
    if cs == [] then [] else Ds(cs[..|cs| - 1]) + [cs[|cs| - 1].d]
  }

  /** Closed, not thin at 0.3, and with a bounding box. */
  predicate IsValidPath(d: string)
  {
    IsClosedPath(d) && !IsThinPath(d, ValidThreshold) && PathBBox(d).Some?
  }

  /** The bounding-box test of the valid-path loop never rejects anything: a path that is not
      thin at a positive threshold always has a box. */
  lemma BBoxTestRedundant(d: string)
    ensures IsValidPath(d) <==> IsClosedPath(d) && !IsThinPath(d, ValidThreshold)
  {
    if IsClosedPath(d) && !IsThinPath(d, ValidThreshold) {
      NotThinHasBBox(d, ValidThreshold);
    }
  }

  /** The loop that builds `valid_paths`. */
  method ValidPaths(paths: seq<string>) returns (valid: seq<Candidate>)
    ensures Ds(valid) == Filter(paths, IsValidPath)
    ensures Boxed(valid)
  {
    valid := [];
    var i := 0;
    while i < |paths|
      invariant 0 <= i <= |paths|
      invariant Ds(valid) == Filter(paths[..i], IsValidPath)
      invariant Boxed(valid)
    {
      assert paths[..i + 1] == paths[..i] + [paths[i]];
      FilterSnoc(paths[..i], paths[i], IsValidPath);
      var c := ValidCandidate(paths[i]);
      if c.Some? {
        DsSnoc(valid, c.value);
        BoxedSnoc(valid, c.value);
        valid := valid + [c.value];
      }
      i := i + 1;
    }
    assert paths[..|paths|] == paths;
  }

  /** The body of the valid-path loop for one path: a candidate exactly when the path is valid,
      carrying its bounding box. */
  method ValidCandidate(d: string) returns (c: Option<Candidate>)
    ensures c.Some? <==> IsValidPath(d)
    ensures c.Some? ==> c.value.d == d && PathBBox(d) == Some(c.value.box)
  {
    if IsClosedPath(d) && !IsThinPath(d, ValidThreshold) {
      var box := PathBBox(d);
      if box.Some? {
        return Some(Candidate(d, box.value));
      }
    }
    return None;
  }

  /** Every candidate carries the bounding box of its path. */
  predicate Boxed(cs: seq<Candidate>)
  {
    forall i :: 0 <= i < |cs| ==> PathBBox(cs[i].d) == Some(cs[i].box)
  }

  lemma BoxedSnoc(cs: seq<Candidate>, c: Candidate)
    requires Boxed(cs) && PathBBox(c.d) == Some(c.box)
    ensures Boxed(cs + [c])
  {
  }

  lemma DsSnoc(cs: seq<Candidate>, c: Candidate)
    ensures Ds(cs + [c]) == Ds(cs) + [c.d]
  {
    assert (cs + [c])[..|cs|] == cs;
  }

  function TouchesAt(vb: ViewBox): Candidate -> bool
  {
    (c: Candidate) => TouchesBoundary(c.box, vb.x, vb.y, vb.width, vb.height, BoundaryMargin)
  }

  function InsideAt(vb: ViewBox): Candidate -> bool
  {
    (c: Candidate) => !TouchesBoundary(c.box, vb.x, vb.y, vb.width, vb.height, BoundaryMargin)
  }

  /** The loop that splits the valid paths into `boundary_paths` and `inner_paths`. */
  method Partition(valid: seq<Candidate>, vb: ViewBox) returns (boundary: seq<Candidate>, inner: seq<Candidate>)
    ensures boundary == Filter(valid, TouchesAt(vb))
    ensures inner == Filter(valid, InsideAt(vb))
  {
    boundary, inner := [], [];
    var i := 0;
    while i < |valid|
      invariant 0 <= i <= |valid|
      invariant boundary == Filter(valid[..i], TouchesAt(vb))
      invariant inner == Filter(valid[..i], InsideAt(vb))
    {
      var c := valid[i];
      assert valid[..i + 1][..i] == valid[..i];
      if TouchesBoundary(c.box, vb.x, vb.y, vb.width, vb.height, BoundaryMargin) {
        boundary := boundary + [c];
      } else {
        inner := inner + [c];
      }
      i := i + 1;
    }
    assert valid[..|valid|] == valid;
  }

  /** The boundary and inner lists partition the valid paths: together they hold every valid
      path as often as it occurs, no path is in both, and each keeps the input order. */
  lemma PartitionIsPartition(valid: seq<Candidate>, vb: ViewBox)
    ensures multiset(Filter(valid, TouchesAt(vb))) + multiset(Filter(valid, InsideAt(vb))) == multiset(valid)
    ensures forall i :: 0 <= i < |Filter(valid, TouchesAt(vb))| ==>
      Filter(valid, TouchesAt(vb))[i] !in Filter(valid, InsideAt(vb))
    ensures IsSubseq(Filter(valid, TouchesAt(vb)), valid) && IsSubseq(Filter(valid, InsideAt(vb)), valid)
  {
    FilterPartition(valid, TouchesAt(vb), InsideAt(vb));
    FilterIsSubseq(valid, TouchesAt(vb));
    FilterIsSubseq(valid, InsideAt(vb));
  }

  /** A valid path whose box touches the canvas edge. */
  predicate IsBoundaryPath(vb: ViewBox, d: string)
  {
    IsValidPath(d) && TouchesBoundary(PathBBox(d).value, vb.x, vb.y, vb.width, vb.height, BoundaryMargin)
  }

  function BoundaryAt(vb: ViewBox): string -> bool
  {
    (d: string) => IsBoundaryPath(vb, d)
  }

  /** Filtering the candidates by their boxes is filtering the paths by the boundary test. */
  lemma {:induction false} BoundaryDs(paths: seq<string>, valid: seq<Candidate>, vb: ViewBox)
    requires Ds(valid) == Filter(paths, IsValidPath)
    requires Boxed(valid)
    ensures Ds(Filter(valid, TouchesAt(vb))) == Filter(paths, BoundaryAt(vb))
    decreases |paths|
  {
    if paths != [] {
      var init, d := paths[..|paths| - 1], paths[|paths| - 1];
      assert paths == init + [d];
      FilterSnoc(init, d, IsValidPath);
      FilterSnoc(init, d, BoundaryAt(vb));
      if IsValidPath(d) {
        var vinit, c := LastCandidate(init, d, valid);
        BoundaryDs(init, vinit, vb);
        FilterSnoc(vinit, c, TouchesAt(vb));
        if TouchesAt(vb)(c) {
          DsSnoc(Filter(vinit, TouchesAt(vb)), c);
        }
      } else {
        BoundaryDs(init, valid, vb);
      }
    }
  }

  /** When the last path is valid, the candidates end with one for it, carrying its box. */
  lemma LastCandidate(init: seq<string>, d: string, valid: seq<Candidate>) returns (vinit: seq<Candidate>, c: Candidate)
    requires Ds(valid) == Filter(init, IsValidPath) + [d]
    requires Boxed(valid)
    ensures valid == vinit + [c]
    ensures Ds(vinit) == Filter(init, IsValidPath) && Boxed(vinit)
    ensures c.d == d && PathBBox(d) == Some(c.box)
  {
    vinit, c := valid[..|valid| - 1], valid[|valid| - 1];
    assert valid == vinit + [c];
    DsSnoc(vinit, c);
    assert Ds(vinit) == Ds(valid)[..|valid| - 1];
  }

  /** The second mask: the canvas in black, then every boundary path in white. */
  function BoundaryMask(vb: ViewBox, boundary: seq<string>): seq<Entry>
  {
    [Entry(Rect(vb), Black, NonZero)] + PathEntries(boundary, White, NonZero)
  }

  /** The document extract_enclosed.py writes: the two masks in `<defs>`, and a group masked by
      "boundary-interior-mask" holding the canvas rectangle filled with `background` and
      masked by "invert-mask". */
  datatype EnclosedDoc = EnclosedDoc(width: SizeText, height: SizeText, box: ViewBox,
                                     invertMask: seq<Entry>, boundaryMask: seq<Entry>,
                                     background: string)

  /** extract_enclosed_from_inverted on the matches of its input. */
  method ExtractEnclosedFromInverted(src: Scan, background: string) returns (r: Result<EnclosedDoc>)
    ensures ViewBoxOrDefault(src.viewBox, Lex.ParseFloat).Failure? ==> r == Failure(ViewBoxOrDefault(src.viewBox, Lex.ParseFloat).error)
    ensures ViewBoxOrDefault(src.viewBox, Lex.ParseFloat).Success? ==>
      var vb := ViewBoxOrDefault(src.viewBox, Lex.ParseFloat).value;
      r == Success(EnclosedDoc(OutputSize(src.width, vb.width), OutputSize(src.height, vb.height), vb,
                               InversionMask(vb, src.paths, src.circles),
                               BoundaryMask(vb, Filter(src.paths, BoundaryAt(vb))), background))
  {
    var vbr := ViewBoxOrDefault(src.viewBox, Lex.ParseFloat);
    if vbr.Failure? {
      return Failure(vbr.error);
    }
    var vb := vbr.value;
    var valid := ValidPaths(src.paths);
    var boundary, inner := Partition(valid, vb);
    var invertMask := [Entry(Rect(vb), White, NonZero)];
    invertMask := AppendPathEntries(invertMask, src.paths, Black, NonZero);
    invertMask := AppendCircleEntries(invertMask, src.circles);
    var boundaryMask := [Entry(Rect(vb), Black, NonZero)];
    boundaryMask := AppendPathEntries(boundaryMask, Ds(boundary), White, NonZero);
    BoundaryDs(src.paths, valid, vb);
    r := Success(EnclosedDoc(OutputSize(src.width, vb.width), OutputSize(src.height, vb.height), vb,
                             invertMask, boundaryMask, background));
  }

  /** The worked cases of the boundary test on the canvas (0, 0, 100, 100): a box at the left
      edge touches it, a box well inside does not. */
  lemma BoundaryExamples()
    ensures TouchesBoundary(BBox(0.0, 10.0, 5.0, 20.0), 0.0, 0.0, 100.0, 100.0, BoundaryMargin)
    ensures !TouchesBoundary(BBox(10.0, 10.0, 20.0, 20.0), 0.0, 0.0, 100.0, 100.0, BoundaryMargin)
  {
  }
}
