/**
 Order-preserving selection over sequences: the model of JavaScript's
 `Array.prototype.filter`, and of the list of positions it keeps.
 */
module Seqs {

  /** `s.filter(p)`: the elements of `s` satisfying `p`, in their order in `s`. */
  function Filter<T>(s: seq<T>, p: T -> bool): (r: seq<T>)
    ensures |r| <= |s|
    ensures forall j | 0 <= j < |r| :: r[j] in s && p(r[j])
    ensures forall j | 0 <= j < |s| && p(s[j]) :: s[j] in r
    decreases |s|
  {
    if |s| == 0 then []
    else
      assert s == s[..|s| - 1] + [s[|s| - 1]];
      Filter(s[..|s| - 1], p) + (if p(s[|s| - 1]) then [s[|s| - 1]] else [])
  }

  predicate Increasing(r: seq<nat>)
  {
    forall i, j | 0 <= i < j < |r| :: r[i] < r[j]
  }

  /** The positions of `s` whose element satisfies `p`, in increasing order. */
  function Indices<T>(s: seq<T>, p: T -> bool): (r: seq<nat>)
    ensures forall j | 0 <= j < |r| :: r[j] < |s| && p(s[r[j]])
    ensures forall k | 0 <= k < |s| && p(s[k]) :: k in r
    ensures Increasing(r)
    decreases |s|
  {
    if |s| == 0 then []
    else
      var r0 := Indices(s[..|s| - 1], p);
      if p(s[|s| - 1]) then r0 + [|s| - 1] else r0
  }

  /** The elements of `s` at the positions `idx`. */
  function Pick<T>(s: seq<T>, idx: seq<nat>): (r: seq<T>)
    requires forall j | 0 <= j < |idx| :: idx[j] < |s|
    ensures |r| == |idx|
    ensures forall j | 0 <= j < |idx| :: r[j] == s[idx[j]]
  {
    seq(|idx|, j requires 0 <= j < |idx| => s[idx[j]])
  }

  /** Filtering keeps the relative order: its result is `s` read at a strictly
      increasing list of positions, exactly those whose element satisfies `p`. */
  lemma {:induction false} FilterIsPick<T>(s: seq<T>, p: T -> bool)
    ensures Filter(s, p) == Pick(s, Indices(s, p))
    decreases |s|
  {
    if |s| > 0 {
      var s' := s[..|s| - 1];
      FilterIsPick(s', p);
      var r0 := Indices(s', p);
      assert Pick(s, r0) == Pick(s', r0);
      if p(s[|s| - 1]) {
        assert Pick(s, r0 + [|s| - 1]) == Pick(s, r0) + [s[|s| - 1]];
      }
    }
  }

  /** Filtering distributes over concatenation. */
  lemma {:induction false} FilterConcat<T>(a: seq<T>, b: seq<T>, p: T -> bool)
    ensures Filter(a + b, p) == Filter(a, p) + Filter(b, p)
    decreases |b|
  {
    if |b| == 0 {
      assert a + b == a;
    } else {
      var b' := b[..|b| - 1];
      assert (a + b)[..|a + b| - 1] == a + b';
      assert (a + b)[|a + b| - 1] == b[|b| - 1];
      FilterConcat(a, b', p);
    }
  }

  /** Two successive filters are one filter by the conjunction. */
  lemma {:induction false} FilterCompose<T>(s: seq<T>, p: T -> bool, q: T -> bool, both: T -> bool)
    requires forall x :: both(x) == (p(x) && q(x))
    ensures Filter(Filter(s, p), q) == Filter(s, both)
    decreases |s|
  {
    if |s| > 0 {
      var s' := s[..|s| - 1];
      var last := s[|s| - 1];
      FilterCompose(s', p, q, both);
      FilterConcat(Filter(s', p), if p(last) then [last] else [], q);
      if p(last) {
        assert Filter([last], q) == Filter([], q) + (if q(last) then [last] else []);
      }
    }
  }

  /** A filter whose predicate holds throughout keeps everything. */
  lemma {:induction false} FilterKeepsAll<T>(s: seq<T>, p: T -> bool)
    requires forall j | 0 <= j < |s| :: p(s[j])
    ensures Filter(s, p) == s
    decreases |s|
  {
    if |s| > 0 {
      FilterKeepsAll(s[..|s| - 1], p);
      assert s == s[..|s| - 1] + [s[|s| - 1]];
    }
  }

  /** Filters by two predicates that agree on the elements of `s` are equal. */
  lemma {:induction false} FilterAgree<T>(s: seq<T>, p: T -> bool, q: T -> bool)
    requires forall j | 0 <= j < |s| :: p(s[j]) == q(s[j])
    ensures Filter(s, p) == Filter(s, q)
    decreases |s|
  {
    if |s| > 0 {
      FilterAgree(s[..|s| - 1], p, q);
    }
  }

  /** A filter whose predicate fails throughout keeps nothing. */
  lemma {:induction false} FilterNone<T>(s: seq<T>, p: T -> bool)
    requires forall j | 0 <= j < |s| :: !p(s[j])
    ensures Filter(s, p) == []
    decreases |s|
  {
    if |s| > 0 {
      FilterNone(s[..|s| - 1], p);
    }
  }

  /** Sequences that agree on `p` position by position keep as many elements. */
  lemma {:induction false} FilterLengthAgree<T>(s: seq<T>, t: seq<T>, p: T -> bool)
    requires |s| == |t|
    requires forall j | 0 <= j < |s| :: p(s[j]) == p(t[j])
    ensures |Filter(s, p)| == |Filter(t, p)|
    decreases |s|
  {
    if |s| > 0 {
      FilterLengthAgree(s[..|s| - 1], t[..|t| - 1], p);
    }
  }

  /** `r` is `s` read at the strictly increasing positions `idx`. */
  predicate PicksAt<T(==)>(r: seq<T>, s: seq<T>, idx: seq<nat>)
  {
    && Increasing(idx)
    && (forall j | 0 <= j < |idx| :: idx[j] < |s|)
    && r == Pick(s, idx)
  }

  /** `r` keeps some of the elements of `s`, in their order in `s`. */
  ghost predicate Subsequence<T>(r: seq<T>, s: seq<T>)
  {
    exists idx :: PicksAt(r, s, idx)
  }

  lemma FilterSubsequence<T>(s: seq<T>, p: T -> bool)
    ensures Subsequence(Filter(s, p), s)
  {
    FilterIsPick(s, p);
    assert PicksAt(Filter(s, p), s, Indices(s, p));
  }

  lemma SubsequenceTrans<T>(a: seq<T>, b: seq<T>, c: seq<T>)
    requires Subsequence(a, b) && Subsequence(b, c)
    ensures Subsequence(a, c)
  {
    var i1 :| PicksAt(a, b, i1);
    var i2 :| PicksAt(b, c, i2);
    var idx := seq(|i1|, j requires 0 <= j < |i1| => i2[i1[j]]);
    assert PicksAt(a, c, idx);
  }

  /** In an increasing sequence, position order follows value order. */
  lemma IncreasingPositions(idx: seq<nat>, i: nat, j: nat)
    requires Increasing(idx) && i < |idx| && j < |idx| && idx[i] < idx[j]
    ensures i < j
  {
  }

  lemma FilterSingle<T>(x: T, p: T -> bool)
    ensures Filter([x], p) == if p(x) then [x] else []
  {
    assert [x][..0] == [];
  }
}
