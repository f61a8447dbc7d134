/**
 * Kotlin's `filter` on lists and file collections: keep the elements a
 * predicate accepts, in their original order.
 */
module Seqs {

  /** The elements of `s` that `p` accepts, in order (defined from the last element,
      so that extending the input by one element extends the result by at most one). */
  function Filter<T>(s: seq<T>, p: T -> bool): (r: seq<T>)
    ensures |r| <= |s|
  {
    if |s| == 0 then []
    else Filter(s[..|s| - 1], p) + (if p(s[|s| - 1]) then [s[|s| - 1]] else [])
  }

  /** The positions in `s` of the elements `p` accepts, increasing. */
  function KeptIndices<T>(s: seq<T>, p: T -> bool): seq<nat>
  {
    if |s| == 0 then []
    else KeptIndices(s[..|s| - 1], p) + (if p(s[|s| - 1]) then [|s| - 1] else [])
  }

  /** `idx` picks `a` out of `b` in increasing order: `a` is an order-preserving subsequence of `b`. */
  ghost predicate PicksInOrder<T>(idx: seq<nat>, a: seq<T>, b: seq<T>)
  {
    && |idx| == |a|
    && (forall k :: 0 <= k < |idx| ==> idx[k] < |b| && a[k] == b[idx[k]])
    && (forall j, k :: 0 <= j < k < |idx| ==> idx[j] < idx[k])
  }

  /** Filtering the input extended by one element. */
  lemma FilterSnoc<T>(s: seq<T>, x: T, p: T -> bool)
    ensures Filter(s + [x], p) == Filter(s, p) + (if p(x) then [x] else [])
  {
    assert (s + [x])[..|s|] == s;
  }

  /** An element is kept exactly when it is in the input and the predicate accepts it. */
  lemma {:induction false} FilterMembership<T>(s: seq<T>, p: T -> bool, x: T)
    ensures x in Filter(s, p) <==> x in s && p(x)
  {
    if |s| > 0 {
      var init := s[..|s| - 1];
      FilterMembership(init, p, x);
      assert s == init + [s[|s| - 1]];
    }
  }

  /** Every element of the result is accepted by the predicate. */
  lemma {:induction false} FilterAllAccepted<T>(s: seq<T>, p: T -> bool)
    ensures forall k :: 0 <= k < |Filter(s, p)| ==> p(Filter(s, p)[k])
  {
    forall k | 0 <= k < |Filter(s, p)|
      ensures p(Filter(s, p)[k])
    {
      FilterMembership(s, p, Filter(s, p)[k]);
    }
  }

  /** The result is an order-preserving subsequence of the input, picked out by `KeptIndices`. */
  lemma {:induction false} FilterIsSubsequence<T>(s: seq<T>, p: T -> bool)
    ensures PicksInOrder(KeptIndices(s, p), Filter(s, p), s)
  {
    if |s| > 0 {
      var init := s[..|s| - 1];
      FilterIsSubsequence(init, p);
      var idx, r := KeptIndices(init, p), Filter(init, p);
      forall k | 0 <= k < |idx|
        ensures idx[k] < |init| && s[idx[k]] == init[idx[k]]
      {
      }
    }
  }

  /** Filtering a sequence none of whose elements the predicate rejects leaves it as it is. */
  lemma {:induction false} FilterAllAccepting<T>(s: seq<T>, p: T -> bool)
    requires forall k :: 0 <= k < |s| ==> p(s[k])
    ensures Filter(s, p) == s
  {
    if |s| > 0 {
      FilterAllAccepting(s[..|s| - 1], p);
    }
  }

  /** Filtering is idempotent. */
  lemma FilterIdempotent<T>(s: seq<T>, p: T -> bool)
    ensures Filter(Filter(s, p), p) == Filter(s, p)
  {
    FilterAllAccepted(s, p);
    FilterAllAccepting(Filter(s, p), p);
  }

  /** Two filters in a row are one filter by the conjunction `pq` of their predicates. */
  lemma {:induction false} FilterThenFilter<T>(s: seq<T>, p: T -> bool, q: T -> bool, pq: T -> bool)
    requires forall x :: pq(x) == (p(x) && q(x))
    ensures Filter(Filter(s, p), q) == Filter(s, pq)
  {
    if |s| > 0 {
      var init, last := s[..|s| - 1], s[|s| - 1];
      FilterThenFilter(init, p, q, pq);
      assert Filter(s, p) == Filter(init, p) + (if p(last) then [last] else []);
      assert Filter(s, pq) == Filter(init, pq) + (if pq(last) then [last] else []);
      if p(last) {
        FilterSnoc(Filter(init, p), last, q);
      } else {
        assert Filter(s, p) == Filter(init, p);
        assert Filter(s, pq) == Filter(init, pq);
      }
    }
  }
}
