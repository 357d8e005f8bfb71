/** Order-preserving selections from a sequence (`Iterator::filter`,
    `Vec::retain`, `Iterator::take`, `Vec::truncate`) and the subsequence
    relation they produce. */
module Seqs {

  /** The elements of `s` that satisfy `p`, in their order in `s`. */
  function Filter<T>(s: seq<T>, p: T -> bool): (r: seq<T>)
    ensures |r| <= |s|
    ensures forall i :: 0 <= i < |r| ==> p(r[i])
  {
    if |s| == 0 then []
    else if p(s[0]) then [s[0]] + Filter(s[1..], p)
    else Filter(s[1..], p)
  }

  /** `a` is `b` with some elements left out and the rest in their order. */
  predicate IsSubsequence<T(==)>(a: seq<T>, b: seq<T>)
    decreases |b|
  {
    |a| == 0 || (|b| > 0 && if a[0] == b[0] then IsSubsequence(a[1..], b[1..]) else IsSubsequence(a, b[1..]))
  }

  /** An element is kept exactly when it occurs in `s` and satisfies `p`. */
  lemma {:induction false} FilterMembership<T>(s: seq<T>, p: T -> bool, x: T)
    ensures x in Filter(s, p) <==> x in s && p(x)
  {
    if |s| > 0 {
      FilterMembership(s[1..], p, x);
      assert x in s <==> x == s[0] || x in s[1..];
    }
  }

  /** Filtering keeps order: the result is a subsequence of the input. */
  lemma {:induction false} FilterIsSubsequence<T>(s: seq<T>, p: T -> bool)
    ensures IsSubsequence(Filter(s, p), s)
  {
    if |s| > 0 {
      FilterIsSubsequence(s[1..], p);
      var rest := Filter(s[1..], p);
      if p(s[0]) {
        assert Filter(s, p) == [s[0]] + rest;
        assert ([s[0]] + rest)[1..] == rest;
      } else {
        SubsequenceSkip(rest, s);
      }
    }
  }

  /** Dropping the head of `b` keeps a subsequence of its tail a subsequence. */
  lemma {:induction false} SubsequenceSkip<T>(a: seq<T>, b: seq<T>)
    requires |b| > 0 && IsSubsequence(a, b[1..])
    ensures IsSubsequence(a, b)
    decreases |b|, 0
  {
    if |a| > 0 && a[0] == b[0] {
      SubsequenceTail(a, b[1..]);
    }
  }

  /** The tail of a subsequence is still a subsequence. */
  lemma {:induction false} SubsequenceTail<T>(a: seq<T>, b: seq<T>)
    requires |a| > 0 && IsSubsequence(a, b)
    ensures IsSubsequence(a[1..], b)
    decreases |b|, 1
  {
    if a[0] == b[0] {
      SubsequenceSkip(a[1..], b);
    } else {
      SubsequenceTail(a, b[1..]);
      SubsequenceSkip(a[1..], b);
    }
  }

  /** Every prefix of a subsequence is a subsequence. */
  lemma {:induction false} SubsequencePrefix<T>(a: seq<T>, b: seq<T>, n: nat)
    requires IsSubsequence(a, b) && n <= |a|
    ensures IsSubsequence(a[..n], b)
    decreases |b|
  {
    if n > 0 {
      assert a[..n][0] == a[0];
      if a[0] == b[0] {
        assert a[..n][1..] == a[1..][..n - 1];
        SubsequencePrefix(a[1..], b[1..], n - 1);
      } else {
        SubsequencePrefix(a, b[1..], n);
      }
    }
  }

  /** Every sequence is a subsequence of itself. */
  lemma {:induction false} SubsequenceRefl<T>(a: seq<T>)
    ensures IsSubsequence(a, a)
  {
    if |a| > 0 {
      SubsequenceRefl(a[1..]);
    }
  }

  /** Nothing is dropped from a sequence whose elements all satisfy `p`. */
  lemma {:induction false} FilterAll<T>(s: seq<T>, p: T -> bool)
    requires forall i :: 0 <= i < |s| ==> p(s[i])
    ensures Filter(s, p) == s
  {
    if |s| > 0 {
      assert forall i :: 0 <= i < |s| - 1 ==> s[1..][i] == s[i + 1];
      FilterAll(s[1..], p);
    }
  }

  /** Everything is dropped when no element satisfies `p`. */
  lemma {:induction false} FilterNone<T>(s: seq<T>, p: T -> bool)
    requires forall i :: 0 <= i < |s| ==> !p(s[i])
    ensures Filter(s, p) == []
  {
    if |s| > 0 {
      assert forall i :: 0 <= i < |s| - 1 ==> s[1..][i] == s[i + 1];
      FilterNone(s[1..], p);
    }
  }

  /** Filtering twice by the same predicate is filtering once. */
  lemma {:induction false} FilterIdempotent<T>(s: seq<T>, p: T -> bool)
    ensures Filter(Filter(s, p), p) == Filter(s, p)
  {
    FilterAll(Filter(s, p), p);
  }

  /** Filtering by `p` and then by `q` is filtering once by their
      conjunction `pq`. */
  lemma {:induction false} FilterCompose<T>(s: seq<T>, p: T -> bool, q: T -> bool, pq: T -> bool)
    requires forall x :: pq(x) == (p(x) && q(x))
    ensures Filter(Filter(s, p), q) == Filter(s, pq)
  {
    if |s| > 0 {
      FilterCompose(s[1..], p, q, pq);
      if p(s[0]) {
        assert Filter(s, p) == [s[0]] + Filter(s[1..], p);
        assert ([s[0]] + Filter(s[1..], p))[1..] == Filter(s[1..], p);
      }
    }
  }

  /** Filters by predicates that agree on every element agree. */
  lemma {:induction false} FilterSame<T>(s: seq<T>, p: T -> bool, q: T -> bool)
    requires forall i :: 0 <= i < |s| ==> p(s[i]) == q(s[i])
    ensures Filter(s, p) == Filter(s, q)
  {
    if |s| > 0 {
      assert forall i :: 0 <= i < |s| - 1 ==> s[1..][i] == s[i + 1];
      FilterSame(s[1..], p, q);
    }
  }

  /** Filtering a concatenation filters each part. */
  lemma {:induction false} FilterAppend<T>(a: seq<T>, b: seq<T>, p: T -> bool)
    ensures Filter(a + b, p) == Filter(a, p) + Filter(b, p)
  {
    if |a| > 0 {
      assert (a + b)[1..] == a[1..] + b;
      FilterAppend(a[1..], b, p);
    } else {
      assert a + b == b;
    }
  }

  /** Filtering by a predicate that is the disjoint union of two others
      keeps the elements of both, and no others. */
  lemma {:induction false} FilterDisjointUnion<T>(s: seq<T>, p: T -> bool, q: T -> bool, r: T -> bool)
    requires forall x :: p(x) == (q(x) || r(x))
    requires forall x :: !(q(x) && r(x))
    ensures multiset(Filter(s, p)) == multiset(Filter(s, q)) + multiset(Filter(s, r))
  {
    if |s| > 0 {
      FilterDisjointUnion(s[1..], p, q, r);
    }
  }

  /** `Vec::truncate(n)` (and `Iterator::take(n)`): the first `n` elements,
      or all of them when there are fewer. */
  function Take<T>(s: seq<T>, n: nat): (r: seq<T>)
    ensures |r| == if |s| <= n then |s| else n
    ensures forall i :: 0 <= i < |r| ==> r[i] == s[i]
  {
    if |s| > n then s[..n] else s
  }
}
