/** Order-preserving filtering, counting and sub-sequences, shared by every list-building loop. */
module Seqs {

  /** The elements of `s` that satisfy `p`, in order (a Python list comprehension with `if`). */
  function Filter<T>(s: seq<T>, p: T -> bool): (r: seq<T>)
    ensures |r| <= |s|
    decreases |s|
  {
    if s == [] then []
    else Filter(s[..|s| - 1], p) + (if p(s[|s| - 1]) then [s[|s| - 1]] else [])
  }

  /** What survives the filter is exactly the elements that satisfy `p`. */
  lemma {:induction false} FilterMembers<T>(s: seq<T>, p: T -> bool)
    ensures forall i :: 0 <= i < |Filter(s, p)| ==> Filter(s, p)[i] in s && p(Filter(s, p)[i])
    ensures forall i :: 0 <= i < |s| && p(s[i]) ==> s[i] in Filter(s, p)
    decreases |s|
  {
    if s != [] {
      var n := |s| - 1;
      FilterMembers(s[..n], p);
      assert s == s[..n] + [s[n]];
      forall i | 0 <= i < |s| && p(s[i])
        ensures s[i] in Filter(s, p)
      {
        if i < n {
          assert s[i] == s[..n][i];
        }
      }
    }
  }

  /** Appending one element extends the filtered list by that element when it passes. */
  lemma FilterSnoc<T>(s: seq<T>, x: T, p: T -> bool)
    ensures Filter(s + [x], p) == Filter(s, p) + (if p(x) then [x] else [])
  {
    assert (s + [x])[..|s|] == s;
  }

  /** One more element of a prefix, for loops that walk `s` from the front. */
  lemma FilterPrefixStep<T>(s: seq<T>, i: nat, p: T -> bool)
    requires i < |s|
    ensures Filter(s[..i + 1], p) == Filter(s[..i], p) + (if p(s[i]) then [s[i]] else [])
  {
    assert s[..i + 1] == s[..i] + [s[i]];
    FilterSnoc(s[..i], s[i], p);
  }

  /** Number of elements of `s` that satisfy `p` (Python `sum(1 for x in s if p(x))`). */
  function Count<T>(s: seq<T>, p: T -> bool): nat
  {
    |Filter(s, p)|
  }

  /** `a` is obtained from `b` by deleting elements, keeping the order of the rest. */
  predicate IsSubseq<T(==)>(a: seq<T>, b: seq<T>)
    decreases |b|
  {
    if a == [] then true
    else if b == [] then false
    else if a[|a| - 1] == b[|b| - 1] then IsSubseq(a[..|a| - 1], b[..|b| - 1])
    else IsSubseq(a, b[..|b| - 1])
  }

  lemma {:induction false} FilterConcat<T>(a: seq<T>, b: seq<T>, p: T -> bool)
    ensures Filter(a + b, p) == Filter(a, p) + Filter(b, p)
    decreases |b|
  {
    if b == [] {
      assert a + b == a;
    } else {
      var n := |b| - 1;
      assert (a + b)[..|a + b| - 1] == a + b[..n];
      FilterConcat(a, b[..n], p);
    }
  }

  lemma {:induction false} FilterIsSubseq<T>(s: seq<T>, p: T -> bool)
    ensures IsSubseq(Filter(s, p), s)
    decreases |s|
  {
    if s != [] {
      var n := |s| - 1;
      FilterIsSubseq(s[..n], p);
      if p(s[n]) {
        assert Filter(s, p)[..|Filter(s, p)| - 1] == Filter(s[..n], p);
      } else {
        assert Filter(s, p) == Filter(s[..n], p);
        SubseqDropLast(Filter(s, p), s);
      }
    }
  }

  /** When `s[..|s|-1]` already contains `a`, so does `s`. */
  lemma {:induction false} SubseqDropLast<T>(a: seq<T>, s: seq<T>)
    requires s != [] && IsSubseq(a, s[..|s| - 1])
    ensures IsSubseq(a, s)
    decreases |s|, 0
  {
    var n := |s| - 1;
    if a != [] && a[|a| - 1] == s[n] {
      SubseqShorten(a, s[..n]);
    }
  }

  /** Removing the last element keeps the sub-sequence relation. */
  lemma {:induction false} SubseqShorten<T>(a: seq<T>, b: seq<T>)
    requires a != [] && IsSubseq(a, b)
    ensures IsSubseq(a[..|a| - 1], b)
    decreases |b|, 1
  {
    var m := |b| - 1;
    var a' := a[..|a| - 1];
    if a[|a| - 1] == b[m] {
      if a' != [] {
        SubseqDropLast(a', b);
      }
    } else {
      SubseqShorten(a, b[..m]);
      if a' != [] {
        SubseqDropLast(a', b);
      }
    }
  }

  /** Filtering by `p` and by its negation splits `s` into two parts that together hold
      every element exactly as often as `s` does, and share none. */
  lemma FilterPartition<T>(s: seq<T>, p: T -> bool, q: T -> bool)
    requires forall x :: q(x) == !p(x)
    ensures multiset(Filter(s, p)) + multiset(Filter(s, q)) == multiset(s)
    ensures forall i :: 0 <= i < |Filter(s, p)| ==> Filter(s, p)[i] !in Filter(s, q)
  {
    FilterSplitsMultiset(s, p, q);
    FilterMembers(s, p);
    FilterMembers(s, q);
  }

  lemma {:induction false} FilterSplitsMultiset<T>(s: seq<T>, p: T -> bool, q: T -> bool)
    requires forall x :: q(x) == !p(x)
    ensures multiset(Filter(s, p)) + multiset(Filter(s, q)) == multiset(s)
    decreases |s|
  {
    if s != [] {
      var n := |s| - 1;
      var init, x := s[..n], s[n];
      FilterSplitsMultiset(init, p, q);
      assert s == init + [x];
      assert multiset(s) == multiset(init) + multiset{x};
      if p(x) {
        assert Filter(s, p) == Filter(init, p) + [x];
        assert Filter(s, q) == Filter(init, q);
      } else {
        assert Filter(s, p) == Filter(init, p);
        assert Filter(s, q) == Filter(init, q) + [x];
      }
    }
  }

  /** Filtering by two predicates that agree everywhere gives the same list. */
  lemma {:induction false} FilterSame<T>(s: seq<T>, p: T -> bool, q: T -> bool)
    requires forall x :: p(x) == q(x)
    ensures Filter(s, p) == Filter(s, q)
    decreases |s|
  {
    if s != [] {
      FilterSame(s[..|s| - 1], p, q);
    }
  }

  /** Counting by `p` and by its negation accounts for every element once. */
  lemma CountSplit<T>(s: seq<T>, p: T -> bool, q: T -> bool)
    requires forall x :: q(x) == !p(x)
    ensures Count(s, p) + Count(s, q) == |s|
  {
    FilterSplitsMultiset(s, p, q);
    assert |multiset(Filter(s, p)) + multiset(Filter(s, q))| == |multiset(s)|;
  }

  /** Filtering by a predicate nothing satisfies keeps nothing. */
  lemma {:induction false} NonePass<T>(s: seq<T>, p: T -> bool)
    requires forall x :: !p(x)
    ensures Filter(s, p) == []
    decreases |s|
  {
    if s != [] {
      NonePass(s[..|s| - 1], p);
      assert s == s[..|s| - 1] + [s[|s| - 1]];
      FilterSnoc(s[..|s| - 1], s[|s| - 1], p);
    }
  }

  /** Filtering by a predicate every element satisfies keeps everything. */
  lemma {:induction false} AllPass<T>(s: seq<T>, p: T -> bool)
    requires forall k :: 0 <= k < |s| ==> p(s[k])
    ensures Filter(s, p) == s
    decreases |s|
  {
    if s != [] {
      AllPass(s[..|s| - 1], p);
      assert s == s[..|s| - 1] + [s[|s| - 1]];
    }
  }
}
