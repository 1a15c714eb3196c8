/** filter_thin_paths.py: rewrite the first mask of an inverted document so that it keeps its
    first rect and only the paths that are not thin; everything outside that mask's content is
    written back unchanged. */
module FilterThinPaths {
  import opened Wrappers
  import opened Seqs
  import opened Lex
  import opened Geometry
  import opened InvertSvgClean

  /** The first match of `(<mask[^>]*>)(.*?)(</mask>)`: the text before it, its three groups and
      the text after it; with the first `<rect …/>` of the content, if any, and the `d` of every
      `<path … d="…" …/>` in the content, in order. */
  datatype MaskSplit = MaskSplit(before: string, start: string, content: string, end: string, after: string,
                                 rect: Option<string>, paths: seq<string>)

  /** How str() writes a count. */
  type Digits = nat -> string

  /** The head of the new mask content up to the rect: a newline, a comment line, and the
      indentation of the rect's line. */
  const Intro := "\n        <!-- 전체 영역을 흰색으로 (보이게) -->\n        "

  /** What follows the rect: the end of its line, a line of indentation only, and a comment line. */
  const Gap := "\n        \n        <!-- 원본 도형들을 검은색으로 (안 보이게 = 마스크에서 제외) -->\n"

  /** The comment line carrying the number of thin paths removed and the number kept. */
  function CountsLine(filtered: string, kept: string): string
  {
    "        <!-- 얇은 요소 제거됨: " + filtered + "개, 유지됨: " + kept + "개 -->\n"
  }

  /** The first `<rect …/>` of the mask content, or the empty text when it has none. */
  function RectText(m: MaskSplit): string
  {
    if m.rect.Some? then m.rect.value else ""
  }

  /** The line written for a kept path. */
  function PathLine(d: string): string
  {
    "        <path d=\"" + d + "\" fill=\"black\"/>"
  }

  /** The line of every path, in order. */
  function PathLines(ds: seq<string>): (r: seq<string>)
    ensures |r| == |ds|
  {
    if ds == [] then [] else PathLines(ds[..|ds| - 1]) + [PathLine(ds[|ds| - 1])]
  }

  /** The line at each place is the line of the path at that place. */
  lemma {:induction false} PathLinesAt(ds: seq<string>, i: nat)
    requires i < |ds|
    ensures PathLines(ds)[i] == PathLine(ds[i])
    decreases |ds|
  {
    if i < |ds| - 1 {
      PathLinesAt(ds[..|ds| - 1], i);
    }
  }

  lemma PathLinesSnoc(ds: seq<string>, d: string)
    ensures PathLines(ds + [d]) == PathLines(ds) + [PathLine(d)]
  {
    assert (ds + [d])[..|ds|] == ds;
  }

  /** The path loop, for a test `thin` and its negation `wide`: a thin path only raises
      `filtered_count`; any other path raises `kept_count` and gets its line. */
  method KeepPathLines(paths: seq<string>, thin: string -> bool, wide: string -> bool)
    returns (lines: seq<string>, kept: nat, filtered: nat)
    requires forall d :: wide(d) == !thin(d)
    ensures lines == PathLines(Filter(paths, wide))
    ensures kept == Count(paths, wide) && filtered == Count(paths, thin)
    ensures kept + filtered == |paths|
  {
    lines := [];
    kept, filtered := 0, 0;
    var i := 0;
    while i < |paths|
      invariant 0 <= i <= |paths|
      invariant lines == PathLines(Filter(paths[..i], wide))
      invariant kept == Count(paths[..i], wide)
      invariant filtered == Count(paths[..i], thin)
      invariant kept + filtered == i
    {
      var d := paths[i];
      KeepStep(paths, i, thin, wide);
      if thin(d) {
        filtered := filtered + 1;
      } else {
        kept := kept + 1;
        lines := lines + [PathLine(d)];
      }
      i := i + 1;
    }
    assert paths[..|paths|] == paths;
  }

  /** One path of the loop: a thin one adds to the filtered count only, any other adds its line
      and one to the kept count. */
  lemma KeepStep(paths: seq<string>, i: nat, thin: string -> bool, wide: string -> bool)
    requires i < |paths| && wide(paths[i]) == !thin(paths[i])
    ensures PathLines(Filter(paths[..i + 1], wide))
         == PathLines(Filter(paths[..i], wide)) + (if thin(paths[i]) then [] else [PathLine(paths[i])])
    ensures Count(paths[..i + 1], wide) == Count(paths[..i], wide) + (if thin(paths[i]) then 0 else 1)
    ensures Count(paths[..i + 1], thin) == Count(paths[..i], thin) + (if thin(paths[i]) then 1 else 0)
  {
    FilterPrefixStep(paths, i, wide);
    FilterPrefixStep(paths, i, thin);
    var before := PathLines(Filter(paths[..i], wide));
    if thin(paths[i]) {
      var kept := Filter(paths[..i], wide);
      assert Filter(paths[..i + 1], wide) == kept + [] == kept;
      assert before + [] == before;
    } else {
      PathLinesSnoc(Filter(paths[..i], wide), paths[i]);
    }
  }

  /** The new mask content: the head with the rect and both counts, then the kept paths'
      lines joined by newlines, then a newline and the indentation of the closing tag. */
  function NewContent(m: MaskSplit, minDimension: real, digits: Digits): string
  {
    Intro + RectText(m) + Gap
      + CountsLine(digits(Count(m.paths, ThinAt(minDimension))), digits(Count(m.paths, KeptAt(minDimension))))
      + Body(PathLines(Filter(m.paths, KeptAt(minDimension))))
  }

  /** The kept paths' lines joined by newlines, then a newline and the indentation of the
      closing tag. */
  function Body(lines: seq<string>): string
  {
    Join(lines, "\n") + "\n    "
  }

  /** The text filter_thin_paths writes: nothing when the document has no mask, otherwise the
      document with that mask's content replaced by the new content. */
  function Rewritten(mask: Option<MaskSplit>, minDimension: real, digits: Digits): Option<string>
  {
    match mask
    case None => None
    case Some(m) => Some(Splice(m, NewContent(m, minDimension, digits)))
  }

  /** The document with the mask's content replaced by `body`. */
  function Splice(m: MaskSplit, body: string): string
  {
    m.before + m.start + body + m.end + m.after
  }

  /** filter_thin_paths on the first mask of its input. */
  method FilterThin(mask: Option<MaskSplit>, minDimension: real, digits: Digits) returns (r: Option<string>)
    ensures r == Rewritten(mask, minDimension, digits)
  {
    if mask.None? {
      return None;
    }
    var m := mask.value;
    var rect := if m.rect.Some? then m.rect.value else "";
    var lines, kept, filtered := KeepPathLines(m.paths, ThinAt(minDimension), KeptAt(minDimension));
    var content := Intro + rect + Gap + CountsLine(digits(filtered), digits(kept)) + Body(lines);
    r := Some(m.before + m.start + content + m.end + m.after);
  }

  /** Everything outside the first mask's content survives, whatever the new content: the
      output starts with the text before the mask and its opening tag, ends with its closing tag
      and the text after it, and putting the old content back between them gives the input
      again. */
  lemma OutsidePreserved(m: MaskSplit, body: string)
    ensures var out := Splice(m, body);
      var head, tail := |m.before| + |m.start|, |m.end| + |m.after|;
      && head + tail <= |out|
      && out[..head] == m.before + m.start
      && out[|out| - tail..] == m.end + m.after
      && out[..head] + m.content + out[|out| - tail..] == m.before + m.start + m.content + m.end + m.after
  {
    Around(m.before, m.start, body, m.end, m.after, m.content, Splice(m, body));
  }

  /** Cutting the middle part out of a text joined from five parts and putting another in its
      place. */
  lemma Around(a: string, b: string, c: string, d: string, e: string, x: string, t: string)
    requires t == a + b + c + d + e
    ensures |a| + |b| + |d| + |e| <= |t|
    ensures t[..|a| + |b|] == a + b
    ensures t[|t| - (|d| + |e|)..] == d + e
    ensures t[..|a| + |b|] + x + t[|t| - (|d| + |e|)..] == a + b + x + d + e
  {
    assert t == (a + b) + c + (d + e);
  }

  /** The new content is laid out in four parts: the fixed opening, the first rect of the mask
      (nothing when it has none), the fixed gap and the line of the two counts, and last the
      kept paths' lines. So the rect comes before every kept path line. */
  lemma NewContentLayout(m: MaskSplit, minDimension: real, digits: Digits)
    ensures var c := NewContent(m, minDimension, digits);
      var counts := CountsLine(digits(Count(m.paths, ThinAt(minDimension))), digits(Count(m.paths, KeptAt(minDimension))));
      var body := Body(PathLines(Filter(m.paths, KeptAt(minDimension))));
      var at := |Intro|;
      var rect := RectText(m);
      && at + |rect| + |Gap| + |counts| + |body| == |c|
      && c[..at] == Intro
      && c[at..at + |rect|] == rect
      && c[at + |rect|..at + |rect| + |Gap|] == Gap
      && c[at + |rect| + |Gap|..|c| - |body|] == counts
      && c[|c| - |body|..] == body
    ensures m.rect.Some? ==> NewContent(m, minDimension, digits)[|Intro|..|Intro| + |m.rect.value|] == m.rect.value
  {
    var counts := CountsLine(digits(Count(m.paths, ThinAt(minDimension))), digits(Count(m.paths, KeptAt(minDimension))));
    var body := Body(PathLines(Filter(m.paths, KeptAt(minDimension))));
    FiveParts(Intro, RectText(m), Gap, counts, body, NewContent(m, minDimension, digits));
  }

  /** The slices of a text joined from five parts are the parts. */
  lemma FiveParts(a: string, b: string, g: string, c: string, d: string, t: string)
    requires t == a + b + g + c + d
    ensures |t| == |a| + |b| + |g| + |c| + |d|
    ensures t[..|a|] == a
    ensures t[|a|..|a| + |b|] == b
    ensures t[|a| + |b|..|a| + |b| + |g|] == g
    ensures t[|a| + |b| + |g|..|t| - |d|] == c
    ensures t[|t| - |d|..] == d
  {
    assert t == a + (b + (g + (c + d)));
  }

  /** The new content counts every path once as filtered or kept, and lists exactly the paths
      that are not thin, in order. */
  lemma NewContentParts(m: MaskSplit, minDimension: real)
    ensures Count(m.paths, ThinAt(minDimension)) + Count(m.paths, KeptAt(minDimension)) == |m.paths|
    ensures forall j :: 0 <= j < |Filter(m.paths, KeptAt(minDimension))| ==>
      !IsThinPath(Filter(m.paths, KeptAt(minDimension))[j], minDimension)
    ensures forall i :: 0 <= i < |m.paths| && !IsThinPath(m.paths[i], minDimension) ==>
      PathLine(m.paths[i]) in PathLines(Filter(m.paths, KeptAt(minDimension)))
  {
    CountSplit(m.paths, KeptAt(minDimension), ThinAt(minDimension));
    WidePathsKept(m.paths, minDimension);
    var kept := Filter(m.paths, KeptAt(minDimension));
    forall i | 0 <= i < |m.paths| && !IsThinPath(m.paths[i], minDimension)
      ensures PathLine(m.paths[i]) in PathLines(kept)
    {
      var j :| 0 <= j < |kept| && kept[j] == m.paths[i];
      PathLinesAt(kept, j);
    }
  }
}
