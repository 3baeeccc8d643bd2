/** The two array idioms the task page builds its in-memory updates from:
    `filter` with a predicate, and `map` that swaps in a returned record
    wherever a predicate holds. Both are stated over any element type. */
module ListOps {

  /** `a` occurs in `b` in the same order: `idx` says where each element of
      `a` sits in `b`, and it is strictly increasing. */
  ghost predicate IsEmbedding<T>(idx: seq<nat>, a: seq<T>, b: seq<T>)
  {
    && |idx| == |a|
    && (forall k :: 0 <= k < |idx| ==> idx[k] < |b| && a[k] == b[idx[k]])
    && (forall k, l :: 0 <= k < l < |idx| ==> idx[k] < idx[l])
  }

  ghost predicate IsSubsequence<T>(a: seq<T>, b: seq<T>)
  {
    exists idx: seq<nat> :: IsEmbedding(idx, a, b)
  }

  /** The elements of `s` for which `keep` holds, in their order, each as
      often as in `s`. */
  function Filter<T(!new)>(s: seq<T>, keep: T -> bool): (r: seq<T>)
    ensures |r| <= |s|
    ensures forall x :: multiset(r)[x] == if keep(x) then multiset(s)[x] else 0
  {
    if s == [] then []
    else
      assert s == [s[0]] + s[1..];
      if keep(s[0]) then [s[0]] + Filter(s[1..], keep) else Filter(s[1..], keep)
  }

  /** Soundness and completeness of Filter, elementwise. */
  lemma FilterMembership<T(!new)>(s: seq<T>, keep: T -> bool, x: T)
    ensures x in Filter(s, keep) <==> x in s && keep(x)
  {
    assert x in Filter(s, keep) <==> multiset(Filter(s, keep))[x] > 0;
    assert x in s <==> multiset(s)[x] > 0;
  }

  /** Filter keeps the relative order of what it keeps. */
  lemma {:induction false} FilterIsSubsequence<T(!new)>(s: seq<T>, keep: T -> bool)
    ensures IsSubsequence(Filter(s, keep), s)
  {
    if s == [] {
      assert IsEmbedding([], Filter(s, keep), s);
    } else {
      FilterIsSubsequence(s[1..], keep);
      var tail := Filter(s[1..], keep);
      var idx :| IsEmbedding(idx, tail, s[1..]);
      var shifted := Shift(idx, tail, s);
      if keep(s[0]) {
        var wit := Cons(shifted, tail, s);
        assert Filter(s, keep) == [s[0]] + tail;
      } else {
        assert Filter(s, keep) == tail;
      }
    }
  }

  /** An embedding into the tail of `b` is one into `b`, one place on. */
  lemma Shift<T>(idx: seq<nat>, a: seq<T>, b: seq<T>) returns (shifted: seq<nat>)
    requires b != [] && IsEmbedding(idx, a, b[1..])
    ensures IsEmbedding(shifted, a, b)
    ensures forall k :: 0 <= k < |shifted| ==> shifted[k] > 0
  {
    shifted := seq(|idx|, k requires 0 <= k < |idx| => idx[k] + 1);
  }

  /** An embedding that avoids position 0 extends by the head of `b`. */
  lemma Cons<T>(idx: seq<nat>, a: seq<T>, b: seq<T>) returns (wit: seq<nat>)
    requires b != [] && IsEmbedding(idx, a, b)
    requires forall k :: 0 <= k < |idx| ==> idx[k] > 0
    ensures IsEmbedding(wit, [b[0]] + a, b)
  {
    wit := [0] + idx;
  }

  /** Two successive filters are one filter by the conjunction. */
  lemma {:induction false} FilterFilter<T(!new)>(s: seq<T>, p: T -> bool, q: T -> bool, pq: T -> bool)
    requires forall x :: pq(x) == (p(x) && q(x))
    ensures Filter(Filter(s, p), q) == Filter(s, pq)
  {
    if s != [] {
      FilterFilter(s[1..], p, q, pq);
    }
  }

  /** A filter that rejects nothing returns its input unchanged. */
  lemma {:induction false} FilterKeepsAll<T(!new)>(s: seq<T>, keep: T -> bool)
    requires forall k :: 0 <= k < |s| ==> keep(s[k])
    ensures Filter(s, keep) == s
  {
    if s != [] {
      FilterKeepsAll(s[1..], keep);
    }
  }

  /** Filters by pointwise-equal predicates agree. */
  lemma {:induction false} FilterExtensional<T(!new)>(s: seq<T>, p: T -> bool, q: T -> bool)
    requires forall k :: 0 <= k < |s| ==> p(s[k]) == q(s[k])
    ensures Filter(s, p) == Filter(s, q)
  {
    if s != [] {
      FilterExtensional(s[1..], p, q);
    }
  }

  /** `s.map(x => hit(x) ? u : x)`: every position where `hit` holds now
      holds `u`, and every other position is as it was. */
  function Replace<T>(s: seq<T>, hit: T -> bool, u: T): (r: seq<T>)
    ensures |r| == |s|
    ensures forall k :: 0 <= k < |s| ==> r[k] == if hit(s[k]) then u else s[k]
  {
    if s == [] then []
    else [if hit(s[0]) then u else s[0]] + Replace(s[1..], hit, u)
  }

  /** Replacing where nothing is hit changes nothing. */
  lemma {:induction false} ReplaceMissIsIdentity<T>(s: seq<T>, hit: T -> bool, u: T)
    requires forall k :: 0 <= k < |s| ==> !hit(s[k])
    ensures Replace(s, hit, u) == s
  {
    if s != [] {
      ReplaceMissIsIdentity(s[1..], hit, u);
    }
  }

  /** Replacing twice with the same record is replacing once, provided the
      record is itself hit (as a record is by its own id). */
  lemma ReplaceIdempotent<T>(s: seq<T>, hit: T -> bool, u: T)
    requires hit(u)
    ensures Replace(Replace(s, hit, u), hit, u) == Replace(s, hit, u)
  {
  }
}
