/** remove_thin_lines.py: find the thin paths of the original drawing and write them in black
    into the mask of the inverted document, just before the first line that closes a mask. */
module RemoveThinLines {
  import opened Wrappers
  import opened Seqs
  import opened Geometry
  import opened FilterThinPaths

  /** The text searched for: the indented closing tag of the mask. */
  const MaskEnd: string := "    </mask>"

  /** `pat` occurs in `s` at `i`. */
  predicate OccursAt(s: string, pat: string, i: int)
  {
    0 <= i && i + |pat| <= |s| && s[i..i + |pat|] == pat
  }

  /** Python's `s.find(pat, from)`: the first position at or after `from` where `pat` occurs,
      or -1 when there is none. */
  function FindFrom(s: string, pat: string, from: nat): (r: int)
    requires from <= |s|
    ensures r == -1 || (from <= r && OccursAt(s, pat, r))
    ensures r == -1 ==> forall i :: from <= i <= |s| ==> !OccursAt(s, pat, i)
    ensures r != -1 ==> forall i :: from <= i < r ==> !OccursAt(s, pat, i)
    decreases |s| - from
  {
    if OccursAt(s, pat, from) then from
    else if from == |s| then -1
    else FindFrom(s, pat, from + 1)
  }

  function Find(s: string, pat: string): (r: int)
  {
    FindFrom(s, pat, 0)
  }

  function ThinSpanAt(minDimension: real): string -> bool
  {
    (d: string) => IsThinSpan(d, minDimension)
  }

  /** The loop that collects `thin_paths`. */
  method ThinPaths(paths: seq<string>, minDimension: real) returns (thin: seq<string>)
    ensures thin == Filter(paths, ThinSpanAt(minDimension))
  {
    thin := [];
    var i := 0;
    while i < |paths|
      invariant 0 <= i <= |paths|
      invariant thin == Filter(paths[..i], ThinSpanAt(minDimension))
    {
      assert paths[..i + 1] == paths[..i] + [paths[i]];
      FilterSnoc(paths[..i], paths[i], ThinSpanAt(minDimension));
      if IsThinSpan(paths[i], minDimension) {
        thin := thin + [paths[i]];
      }
      i := i + 1;
    }
    assert paths[..|paths|] == paths;
  }

  /** One line per path, each ended by a newline. */
  function Block(ds: seq<string>): (r: string)
  {
    if ds == [] then "" else Block(ds[..|ds| - 1]) + PathLine(ds[|ds| - 1]) + "\n"
  }

  /** The comment line that opens the inserted block, after a newline. */
  const Heading := "\n        <!-- 얇은 요소들 (반전 결과에서 제거됨) -->\n"

  /** The loop that builds `thin_paths_str`: the fixed heading comment, then a line per thin
      path. */
  method InsertionText(thin: seq<string>) returns (text: string)
    ensures text == Heading + Block(thin)
  {
    text := Heading;
    var i := 0;
    while i < |thin|
      invariant 0 <= i <= |thin|
      invariant text == Heading + Block(thin[..i])
    {
      BlockStep(Heading, thin, i);
      text := text + PathLine(thin[i]) + "\n";
      i := i + 1;
    }
    assert thin[..|thin|] == thin;
  }

  /** One more path of the loop above: its line and a newline go at the end. */
  lemma BlockStep(heading: string, ds: seq<string>, i: nat)
    requires i < |ds|
    ensures heading + Block(ds[..i + 1]) == heading + Block(ds[..i]) + PathLine(ds[i]) + "\n"
  {
    assert ds[..i + 1][..i] == ds[..i];
    assert Block(ds[..i + 1]) == Block(ds[..i]) + PathLine(ds[i]) + "\n";
  }

  /** `ins` put into `text` just before the first mask end; nothing when there is none. */
  function InsertBeforeMaskEnd(text: string, ins: string): Option<string>
  {
    var pos := Find(text, MaskEnd);
    if pos == -1 then None else Some(text[..pos] + ins + text[pos..])
  }

  /** What remove_thin_from_inverted writes: nothing when the inverted text has no mask end,
      otherwise the inverted text with the thin paths of the original inserted just before the
      first mask end. */
  function WithThinPaths(inverted: string, originalPaths: seq<string>, minDimension: real): Option<string>
  {
    InsertBeforeMaskEnd(inverted, Heading + Block(Filter(originalPaths, ThinSpanAt(minDimension))))
  }

  /** remove_thin_from_inverted on the two texts, the original reduced to its path matches. */
  method RemoveThinFromInverted(inverted: string, originalPaths: seq<string>, minDimension: real)
    returns (r: Option<string>)
    ensures r == WithThinPaths(inverted, originalPaths, minDimension)
  {
    var thin := ThinPaths(originalPaths, minDimension);
    var pos := Find(inverted, MaskEnd);
    if pos == -1 {
      return None;
    }
    var text := InsertionText(thin);
    r := Some(inverted[..pos] + text + inverted[pos..]);
    assert inverted[..pos] + text + inverted[pos..]
      == inverted[..pos] + Heading + Block(Filter(originalPaths, ThinSpanAt(minDimension))) + inverted[pos..];
  }

  /** Nothing is written exactly when the text never contains the mask end. */
  lemma NoMaskEndNoOutput(text: string, ins: string)
    ensures InsertBeforeMaskEnd(text, ins).None? <==> forall i :: 0 <= i <= |text| ==> !OccursAt(text, MaskEnd, i)
  {
  }

  /** The output is the text split at its first mask end with the insertion between the halves:
      taking the insertion out gives the text back, the mask end follows the insertion directly,
      and no mask end occurs earlier in the text. */
  lemma InsertionRecoverable(text: string, ins: string)
    requires InsertBeforeMaskEnd(text, ins).Some?
    ensures var out := InsertBeforeMaskEnd(text, ins).value;
      var pos := Find(text, MaskEnd);
      && 0 <= pos && pos + |ins| <= |out|
      && out[..pos] + out[pos + |ins|..] == text
      && out[pos..pos + |ins|] == ins
      && OccursAt(out, MaskEnd, pos + |ins|)
      && forall i :: 0 <= i < pos ==> !OccursAt(text, MaskEnd, i)
  {
    var pos := Find(text, MaskEnd);
    Splice(text, pos, ins);
    var out := text[..pos] + ins + text[pos..];
    assert out[pos + |ins|..][..|MaskEnd|] == text[pos..][..|MaskEnd|];
    assert out[pos + |ins|..pos + |ins| + |MaskEnd|] == out[pos + |ins|..][..|MaskEnd|];
  }

  /** What remove_thin_from_inverted writes: nothing exactly when the inverted text has no mask
      end; otherwise, at the first mask end, the fixed heading comment, then one line per thin
      path, then the mask end, and taking that block out gives the inverted text back. */
  lemma ThinBlockInserted(inverted: string, originalPaths: seq<string>, minDimension: real)
    ensures WithThinPaths(inverted, originalPaths, minDimension).None?
      <==> forall i :: 0 <= i <= |inverted| ==> !OccursAt(inverted, MaskEnd, i)
    ensures WithThinPaths(inverted, originalPaths, minDimension).Some? ==>
      var out := WithThinPaths(inverted, originalPaths, minDimension).value;
      var pos := Find(inverted, MaskEnd);
      var block := Block(Filter(originalPaths, ThinSpanAt(minDimension)));
      && 0 <= pos && pos + |Heading| + |block| <= |out|
      && out[pos..pos + |Heading|] == Heading
      && out[pos + |Heading|..pos + |Heading| + |block|] == block
      && OccursAt(out, MaskEnd, pos + |Heading| + |block|)
      && out[..pos] + out[pos + |Heading| + |block|..] == inverted
  {
    BlockInserted(inverted, Heading, Block(Filter(originalPaths, ThinSpanAt(minDimension))));
  }

  /** The insertion of a heading `h` followed by a block `b` before the first mask end. */
  lemma BlockInserted(text: string, h: string, b: string)
    ensures InsertBeforeMaskEnd(text, h + b).None? <==> forall i :: 0 <= i <= |text| ==> !OccursAt(text, MaskEnd, i)
    ensures InsertBeforeMaskEnd(text, h + b).Some? ==>
      var out := InsertBeforeMaskEnd(text, h + b).value;
      var pos := Find(text, MaskEnd);
      && 0 <= pos && pos + |h| + |b| <= |out|
      && out[pos..pos + |h|] == h
      && out[pos + |h|..pos + |h| + |b|] == b
      && OccursAt(out, MaskEnd, pos + |h| + |b|)
      && out[..pos] + out[pos + |h| + |b|..] == text
  {
    NoMaskEndNoOutput(text, h + b);
    if InsertBeforeMaskEnd(text, h + b).Some? {
      InsertionRecoverable(text, h + b);
      HeadThenBlock(InsertBeforeMaskEnd(text, h + b).value, Find(text, MaskEnd), h, b);
    }
  }

  /** The slice holding `h + b` splits into `h` and then `b`. */
  lemma HeadThenBlock(out: string, pos: nat, h: string, b: string)
    requires pos + |h| + |b| <= |out| && out[pos..pos + |h + b|] == h + b
    ensures out[pos..pos + |h|] == h
    ensures out[pos + |h|..pos + |h| + |b|] == b
  {
    assert out[pos..pos + |h|] == (h + b)[..|h|];
    assert out[pos + |h|..pos + |h| + |b|] == (h + b)[|h|..];
  }

  /** Inserting `ins` at `pos` and cutting it out again. */
  lemma Splice(s: string, pos: nat, ins: string)
    requires pos <= |s|
    ensures var out := s[..pos] + ins + s[pos..];
      && |out| == |s| + |ins|
      && out[..pos] + out[pos + |ins|..] == s
      && out[pos..pos + |ins|] == ins
      && out[pos + |ins|..] == s[pos..]
  {
    var out := s[..pos] + ins + s[pos..];
    assert out[..pos] == s[..pos];
    assert out[pos + |ins|..] == s[pos..];
    assert s[..pos] + s[pos..] == s;
  }

  /** The thin paths are exactly those of the original that are thin, in order, and the span test
      used here agrees with the bounding-box test of the other scripts. */
  lemma ThinPathsExact(paths: seq<string>, minDimension: real)
    ensures forall j :: 0 <= j < |Filter(paths, ThinSpanAt(minDimension))| ==>
      IsThinPath(Filter(paths, ThinSpanAt(minDimension))[j], minDimension)
    ensures forall i :: 0 <= i < |paths| && IsThinPath(paths[i], minDimension) ==>
      paths[i] in Filter(paths, ThinSpanAt(minDimension))
    ensures IsSubseq(Filter(paths, ThinSpanAt(minDimension)), paths)
  {
    FilterMembers(paths, ThinSpanAt(minDimension));
    FilterIsSubseq(paths, ThinSpanAt(minDimension));
    forall d | true
      ensures IsThinSpan(d, minDimension) <==> IsThinPath(d, minDimension)
    {
      ThinSpanAgrees(d, minDimension);
    }
  }
}
