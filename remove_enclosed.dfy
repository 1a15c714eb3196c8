/** remove_enclosed.py: the inversion mask of the inverted document, extended by the boundary
    paths read from the boundary-interior mask of the enclosed-regions document, so that
    those regions are masked out as well. */
module RemoveEnclosed {
  import opened Wrappers
  import opened SvgDoc
  import Lex

  /** The `d` values that `re.search(r'd="([^"]+)"', tag)` finds, one per `<path … fill="white"
      …/>` tag of the boundary-interior mask (None for a tag without a `d`). */
  type WhiteTags = seq<Option<string>>

  /** The `d` values that are present, in order. */
  function Present(tags: WhiteTags): (r: seq<string>)
    ensures |r| <= |tags|
    ensures forall j :: 0 <= j < |r| ==> Some(r[j]) in tags
    ensures forall i :: 0 <= i < |tags| && tags[i].Some? ==> tags[i].value in r
  {
    if tags == [] then []
    else
      var init := Present(tags[..|tags| - 1]);
      assert forall i :: 0 <= i < |tags| - 1 ==> tags[..|tags| - 1][i] == tags[i];
      match tags[|tags| - 1]
      case None => init
      case Some(d) => init + [d]
  }

  /** The loop that fills `boundary_paths`; empty when the enclosed document has no
      boundary-interior mask. */
  method BoundaryPaths(mask: Option<WhiteTags>) returns (boundary: seq<string>)
    ensures mask.None? ==> boundary == []
    ensures mask.Some? ==> boundary == Present(mask.value)
  {
    boundary := [];
    if mask.Some? {
      var tags := mask.value;
      var i := 0;
      while i < |tags|
        invariant 0 <= i <= |tags|
        invariant boundary == Present(tags[..i])
      {
        assert tags[..i + 1][..i] == tags[..i];
        if tags[i].Some? {
          boundary := boundary + [tags[i].value];
        }
        i := i + 1;
      }
      assert tags[..|tags|] == tags;
    }
  }

  /** The output mask: the inversion mask of the inverted document, then every boundary path
      in black with the even-odd rule. */
  function SubtractionMask(vb: ViewBox, src: Scan, boundary: seq<string>): (r: seq<Entry>)
    ensures |r| == 1 + |src.paths| + |src.circles| + |boundary|
    ensures r[..1 + |src.paths| + |src.circles|] == InversionMask(vb, src.paths, src.circles)
    ensures forall k :: 0 <= k < |boundary| ==>
      r[1 + |src.paths| + |src.circles| + k] == Entry(PathShape(boundary[k]), Black, EvenOdd)
  {
    InversionMask(vb, src.paths, src.circles) + PathEntries(boundary, Black, EvenOdd)
  }

  /** Without boundary paths the output mask is the plain inversion mask. */
  lemma NoBoundaryIsInversion(vb: ViewBox, src: Scan)
    ensures SubtractionMask(vb, src, []) == InversionMask(vb, src.paths, src.circles)
  {
    assert PathEntries([], Black, EvenOdd) == [];
  }

  /** The document written: the mask "inverted-mask" applied to the canvas rectangle filled
      with `background`. */
  datatype RemovedDoc = RemovedDoc(width: SizeText, height: SizeText, box: ViewBox,
                                   mask: seq<Entry>, background: string)

  /** remove_enclosed_from_inverted on the matches of the inverted document and the white path
      tags of the enclosed document's boundary-interior mask. */
  method RemoveEnclosedFromInverted(inverted: Scan, boundaryMask: Option<WhiteTags>, background: string)
    returns (r: Result<RemovedDoc>)
    ensures ViewBoxOrDefault(inverted.viewBox, Lex.ParseFloat).Failure? ==> r == Failure(ViewBoxOrDefault(inverted.viewBox, Lex.ParseFloat).error)
    ensures ViewBoxOrDefault(inverted.viewBox, Lex.ParseFloat).Success? ==>
      var vb := ViewBoxOrDefault(inverted.viewBox, Lex.ParseFloat).value;
      var boundary := if boundaryMask.None? then [] else Present(boundaryMask.value);
      r == Success(RemovedDoc(OutputSize(inverted.width, vb.width), OutputSize(inverted.height, vb.height), vb,
                              SubtractionMask(vb, inverted, boundary), background))
  {
    var vbr := ViewBoxOrDefault(inverted.viewBox, Lex.ParseFloat);
    if vbr.Failure? {
      return Failure(vbr.error);
    }
    var vb := vbr.value;
    var boundary := BoundaryPaths(boundaryMask);
    var mask := [Entry(Rect(vb), White, NonZero)];
    mask := AppendPathEntries(mask, inverted.paths, Black, NonZero);
    mask := AppendCircleEntries(mask, inverted.circles);
    mask := AppendPathEntries(mask, boundary, Black, EvenOdd);
    r := Success(RemovedDoc(OutputSize(inverted.width, vb.width), OutputSize(inverted.height, vb.height), vb,
                            mask, background));
  }
}
