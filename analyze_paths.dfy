/** analyze_paths.py: measure every path of a drawing, sort the measurements by the smaller side,
    and count how many fall into each size range. */
module AnalyzePaths {
  import opened Seqs
  import opened Geometry

  /** `(min_dim, width, height, path_d[:50])` */
  datatype Size = Size(minDim: real, width: real, height: real, head: string)

  /** Python's `min(a, b)`. */
  function MinOf(a: real, b: real): (r: real)
    ensures r <= a && r <= b && (r == a || r == b)
  {
    if b < a then b else a
  }

  /** Python's `s[:n]`. */
  function Prefix(s: string, n: nat): (r: string)
    ensures |r| <= n && |r| <= |s| && r == s[..|r|]
    ensures |s| <= n ==> r == s
  {
    if |s| <= n then s else s[..n]
  }

  /** The measurement of one path. */
  function Measure(d: string): (r: Size)
    ensures r.minDim >= 0.0
    ensures r.width == SpanDimensions(d).0 && r.height == SpanDimensions(d).1
    ensures r.minDim == r.width || r.minDim == r.height
    ensures r.minDim <= r.width && r.minDim <= r.height
  {
    SpanDimensionsAgree(d);
    var dims := SpanDimensions(d);
    Size(MinOf(dims.0, dims.1), dims.0, dims.1, Prefix(d, 50))
  }

  /** The measurement of every path, in order. */
  function Measures(paths: seq<string>): seq<Size>
  {
    seq(|paths|, i requires 0 <= i < |paths| => Measure(paths[i]))
  }

  /** The loop that fills `sizes`, one measurement per path in order. */
  method MeasureAll(paths: seq<string>) returns (sizes: array<Size>)
    ensures fresh(sizes)
    ensures sizes[..] == Measures(paths)
  {
    sizes := new Size[|paths|](i requires 0 <= i < |paths| => Measure(paths[i]));
  }

  predicate SortedByMin(s: seq<Size>)
  {
    forall m, n :: 0 <= m < n < |s| ==> s[m].minDim <= s[n].minDim
  }

  /** `sizes.sort(key=lambda x: x[0])`, as an insertion sort in place. */
  method SortByMin(a: array<Size>)
    modifies a
    ensures SortedByMin(a[..])
    ensures multiset(a[..]) == multiset(old(a[..]))
  {
    var i := 0;
    while i < a.Length
      invariant 0 <= i <= a.Length
      invariant SortedByMin(a[..i])
      invariant multiset(a[..]) == multiset(old(a[..]))
    {
      InsertLast(a, i);
      i := i + 1;
    }
    assert a[..a.Length] == a[..];
  }

  /** Moves `a[i]` down into the sorted prefix `a[..i]`, leaving `a[..i + 1]` sorted. */
  method InsertLast(a: array<Size>, i: nat)
    requires i < a.Length && SortedByMin(a[..i])
    modifies a
    ensures SortedByMin(a[..i + 1])
    ensures multiset(a[..]) == multiset(old(a[..]))
  {
    var j := i;
    while j > 0 && a[j - 1].minDim > a[j].minDim
      invariant 0 <= j <= i
      invariant forall m, n :: 0 <= m < n <= i && m != j && n != j ==> a[m].minDim <= a[n].minDim
      invariant forall n :: j < n <= i ==> a[j].minDim <= a[n].minDim
      invariant multiset(a[..]) == multiset(old(a[..]))
    {
      SwapDown(a, i, j);
      j := j - 1;
    }
  }

  /** One step of the insertion: `a[j]` changes places with the larger `a[j - 1]`. */
  method SwapDown(a: array<Size>, i: nat, j: nat)
    requires 0 < j <= i < a.Length && a[j - 1].minDim > a[j].minDim
    requires forall m, n :: 0 <= m < n <= i && m != j && n != j ==> a[m].minDim <= a[n].minDim
    requires forall n :: j < n <= i ==> a[j].minDim <= a[n].minDim
    modifies a
    ensures forall m, n :: 0 <= m < n <= i && m != j - 1 && n != j - 1 ==> a[m].minDim <= a[n].minDim
    ensures forall n :: j - 1 < n <= i ==> a[j - 1].minDim <= a[n].minDim
    ensures multiset(a[..]) == multiset(old(a[..]))
  {
    a[j - 1], a[j] := a[j], a[j - 1];
  }

  /** The ends of the size ranges. */
  const Ranges: seq<real> := [0.0, 0.01, 0.05, 0.1, 0.2, 0.3, 0.5, 1.0, 1.5, 2.0]

  /** The measurement falls in `[lo, hi)`. */
  function InRange(lo: real, hi: real): Size -> bool
  {
    (s: Size) => lo <= s.minDim < hi
  }

  /** The measurement is at least `lo`. */
  function AtLeast(lo: real): Size -> bool
  {
    (s: Size) => s.minDim >= lo
  }

  /** `sum(1 for s in sizes if ranges[i] <= s[0] < ranges[i+1])` for every consecutive pair. */
  function Histogram(sizes: seq<Size>, ends: seq<real>): (r: seq<nat>)
    ensures |ends| >= 1 ==> |r| == |ends| - 1
    ensures forall i :: 0 <= i < |ends| - 1 ==> r[i] == Count(sizes, InRange(ends[i], ends[i + 1]))
    decreases |ends|
  {
    if |ends| < 2 then []
    else [Count(sizes, InRange(ends[0], ends[1]))] + Histogram(sizes, ends[1..])
  }

  function Sum(ns: seq<nat>): nat
  {
    if ns == [] then 0 else ns[0] + Sum(ns[1..])
  }

  /** Counting by two predicates that never hold together, and whose disjunction is `r`. */
  lemma {:induction false} CountUnion<T>(s: seq<T>, p: T -> bool, q: T -> bool, r: T -> bool)
    requires forall x :: r(x) == (p(x) || q(x)) && !(p(x) && q(x))
    ensures Count(s, r) == Count(s, p) + Count(s, q)
    decreases |s|
  {
    if s != [] {
      var init, x := s[..|s| - 1], s[|s| - 1];
      CountUnion(init, p, q, r);
      assert s == init + [x];
    }
  }

  predicate Ascending(ends: seq<real>)
  {
    forall i :: 0 <= i < |ends| - 1 ==> ends[i] <= ends[i + 1]
  }

  lemma {:induction false} AscendingOrdered(ends: seq<real>, i: nat, j: nat)
    requires Ascending(ends) && i <= j < |ends|
    ensures ends[i] <= ends[j]
    decreases j - i
  {
    if i < j {
      AscendingOrdered(ends, i + 1, j);
    }
  }

  /** The ranges between ascending ends are disjoint and together make up `[first, last)`. */
  lemma {:induction false} HistogramCovers(sizes: seq<Size>, ends: seq<real>)
    requires |ends| >= 1 && Ascending(ends)
    ensures Sum(Histogram(sizes, ends)) == Count(sizes, InRange(ends[0], ends[|ends| - 1]))
    decreases |ends|
  {
    if |ends| == 1 {
      NonePass(sizes, InRange(ends[0], ends[0]));
    } else {
      var rest := ends[1..];
      var last := ends[|ends| - 1];
      assert rest[|rest| - 1] == last;
      assert Ascending(rest);
      HistogramCovers(sizes, rest);
      assert ends[1] <= last by { AscendingOrdered(ends, 1, |ends| - 1); }
      CountUnion(sizes, InRange(ends[0], ends[1]), InRange(ends[1], last), InRange(ends[0], last));
    }
  }

  lemma RangesAscending()
    ensures Ascending(Ranges) && Ranges[0] == 0.0 && Ranges[|Ranges| - 1] == 2.0
  {
  }

  /** Every entry is counted exactly once: the nine range counts and the count of those of at
      least 2.0 add up to the number of entries, since no measurement is negative. */
  lemma BucketsCoverAll(sizes: seq<Size>)
    requires forall k :: 0 <= k < |sizes| ==> sizes[k].minDim >= 0.0
    ensures Sum(Histogram(sizes, Ranges)) + Count(sizes, AtLeast(2.0)) == |sizes|
  {
    RangesAscending();
    HistogramCovers(sizes, Ranges);
    CountUnion(sizes, InRange(0.0, 2.0), AtLeast(2.0), AtLeast(0.0));
    AllPass(sizes, AtLeast(0.0));
  }

  /** No measurement lies in two of the ranges, nor in a range and at or above 2.0. */
  lemma BucketsDisjoint(x: Size, i: nat, j: nat)
    requires i < j < |Ranges| - 1
    ensures !(InRange(Ranges[i], Ranges[i + 1])(x) && InRange(Ranges[j], Ranges[j + 1])(x))
    ensures !(InRange(Ranges[i], Ranges[i + 1])(x) && AtLeast(2.0)(x))
  {
    assert Ranges[i + 1] <= Ranges[j];
  }

  /** The analysis: every path measured, then sorted by its smaller side; the result holds the
      same measurements, in non-decreasing order of the smaller side, and its size ranges
      count every path once. */
  method AnalyzePaths(paths: seq<string>) returns (sizes: array<Size>, histogram: seq<nat>, large: nat)
    ensures multiset(sizes[..]) == multiset(Measures(paths))
    ensures SortedByMin(sizes[..])
    ensures histogram == Histogram(sizes[..], Ranges) && large == Count(sizes[..], AtLeast(2.0))
    ensures Sum(histogram) + large == |paths|
  {
    sizes := MeasureAll(paths);
    SortByMin(sizes);
    histogram := Histogram(sizes[..], Ranges);
    large := Count(sizes[..], AtLeast(2.0));
    MeasuredNonNegative(sizes[..], paths);
    BucketsCoverAll(sizes[..]);
  }

  /** Any rearrangement of the measurements of the paths has no negative smaller side. */
  lemma MeasuredNonNegative(s: seq<Size>, paths: seq<string>)
    requires multiset(s) == multiset(Measures(paths))
    ensures |s| == |paths|
    ensures forall k :: 0 <= k < |s| ==> s[k].minDim >= 0.0
  {
    assert |s| == |Measures(paths)| by {
      assert |multiset(s)| == |multiset(Measures(paths))|;
    }
    forall k | 0 <= k < |s|
      ensures s[k].minDim >= 0.0
    {
      assert s[k] in multiset(Measures(paths));
      var i :| 0 <= i < |paths| && Measures(paths)[i] == s[k];
    }
  }
}
