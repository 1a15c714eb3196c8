/** remove_zero_thickness.py: give every thin black path of a document a black stroke, so that the
    gaps it leaves close up; all other text is kept as it is. */
module RemoveZeroThickness {
  import opened Seqs
  import opened Geometry
  import opened RemoveThinLines

  /** The document cut at the matches of `<path d="([^"]+)" fill="black"/>`: text that is no
      match, and matches with their `d`. */
  datatype Piece = Other(text: string) | BlackPath(d: string)

  /** The exact text of a match. */
  function MatchText(d: string): string
  {
    "<path d=\"" + d + "\" fill=\"black\"/>"
  }

  /** The text the pieces were cut from. */
  function Joined(ps: seq<Piece>): string
  {
    if ps == [] then ""
    else Joined(ps[..|ps| - 1]) + (match ps[|ps| - 1] case Other(t) => t case BlackPath(d) => MatchText(d))
  }

  /** The replacement for a thin match: the same `d`, filled and stroked in black. */
  function StrokedText(d: string, strokeWidth: string): string
  {
    "<path d=\"" + d + "\" fill=\"black\" stroke=\"black\" stroke-width=\"" + strokeWidth + "\"/>"
  }

  /** replace_thin_path applied to one piece; text that is not a match is untouched. */
  function Replaced(p: Piece, thin: string -> bool, strokeWidth: string): string
  {
    match p
    case Other(t) => t
    case BlackPath(d) => if thin(d) then StrokedText(d, strokeWidth) else MatchText(d)
  }

  /** `re.sub` with replace_thin_path: every piece replaced in turn. */
  function Substituted(ps: seq<Piece>, thin: string -> bool, strokeWidth: string): string
  {
    if ps == [] then ""
    else Substituted(ps[..|ps| - 1], thin, strokeWidth) + Replaced(ps[|ps| - 1], thin, strokeWidth)
  }

  /** The piece is a match whose path is thin. */
  function ThinMatch(thin: string -> bool): Piece -> bool
  {
    (p: Piece) => p.BlackPath? && thin(p.d)
  }

  /** The substitution with its `thin_count` counter, one piece after another. */
  method SubstituteCounting(ps: seq<Piece>, thin: string -> bool, strokeWidth: string)
    returns (out: string, thinCount: nat)
    ensures out == Substituted(ps, thin, strokeWidth)
    ensures thinCount == Count(ps, ThinMatch(thin))
  {
    out, thinCount := "", 0;
    var i := 0;
    while i < |ps|
      invariant 0 <= i <= |ps|
      invariant out == Substituted(ps[..i], thin, strokeWidth)
      invariant thinCount == Count(ps[..i], ThinMatch(thin))
    {
      var p := ps[i];
      assert ps[..i + 1] == ps[..i] + [p];
      assert ps[..i + 1][..i] == ps[..i];
      FilterSnoc(ps[..i], p, ThinMatch(thin));
      match p {
        case Other(t) =>
          out := out + t;
        case BlackPath(d) =>
          if thin(d) {
            thinCount := thinCount + 1;
            out := out + StrokedText(d, strokeWidth);
          } else {
            out := out + MatchText(d);
          }
      }
      i := i + 1;
    }
    assert ps[..|ps|] == ps;
  }

  /** add_stroke_to_thin_paths on the pieces of its input: the new text and `thin_count`. */
  method AddStrokeToThinPaths(ps: seq<Piece>, threshold: real, strokeWidth: string)
    returns (out: string, thinCount: nat)
    ensures out == Substituted(ps, ThinSpanAt(threshold), strokeWidth)
    ensures thinCount == Count(ps, ThinMatch(ThinSpanAt(threshold)))
  {
    out, thinCount := SubstituteCounting(ps, ThinSpanAt(threshold), strokeWidth);
  }

  /** When no match is thin, the substitution gives back exactly the text it was given. */
  lemma {:induction false} NoThinUnchanged(ps: seq<Piece>, thin: string -> bool, strokeWidth: string)
    requires Count(ps, ThinMatch(thin)) == 0
    ensures Substituted(ps, thin, strokeWidth) == Joined(ps)
    decreases |ps|
  {
    if ps != [] {
      var init := ps[..|ps| - 1];
      FilterSnoc(init, ps[|ps| - 1], ThinMatch(thin));
      assert ps == init + [ps[|ps| - 1]];
      NoThinUnchanged(init, thin, strokeWidth);
    }
  }

  /** At a threshold of zero or less nothing is thin (widths and heights are never negative),
      so the text comes back unchanged and nothing is counted. */
  lemma ZeroThresholdUnchanged(ps: seq<Piece>, threshold: real, strokeWidth: string)
    requires threshold <= 0.0
    ensures Count(ps, ThinMatch(ThinSpanAt(threshold))) == 0
    ensures Substituted(ps, ThinSpanAt(threshold), strokeWidth) == Joined(ps)
  {
    forall p: Piece
      ensures !ThinMatch(ThinSpanAt(threshold))(p)
    {
      if p.BlackPath? {
        SpanDimensionsAgree(p.d);
      }
    }
    NonePass(ps, ThinMatch(ThinSpanAt(threshold)));
    NoThinUnchanged(ps, ThinSpanAt(threshold), strokeWidth);
  }

  /** Each thin match becomes its stroked form and every other piece keeps its text, so the
      output is the input with exactly the thin matches rewritten. */
  lemma {:induction false} SubstitutedPieces(ps: seq<Piece>, thin: string -> bool, strokeWidth: string)
    ensures Substituted(ps, thin, strokeWidth)
      == Joined(Rewritten(ps, thin, strokeWidth))
    decreases |ps|
  {
    if ps != [] {
      var init := ps[..|ps| - 1];
      SubstitutedPieces(init, thin, strokeWidth);
      var rw := Rewritten(ps, thin, strokeWidth);
      assert rw[..|rw| - 1] == Rewritten(init, thin, strokeWidth);
    }
  }

  /** The pieces after the substitution, with a thin match turned into plain text. */
  function Rewritten(ps: seq<Piece>, thin: string -> bool, strokeWidth: string): (r: seq<Piece>)
    ensures |r| == |ps|
    ensures forall i :: 0 <= i < |ps| ==>
      r[i] == if ThinMatch(thin)(ps[i]) then Other(StrokedText(ps[i].d, strokeWidth)) else ps[i]
  {
    if ps == [] then []
    else
      var p := ps[|ps| - 1];
      Rewritten(ps[..|ps| - 1], thin, strokeWidth)
        + [if ThinMatch(thin)(p) then Other(StrokedText(p.d, strokeWidth)) else p]
  }
}
