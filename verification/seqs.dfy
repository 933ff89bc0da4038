/** Order-preserving filtering and counting over sequences, the two list
    operations (`filter`, `removeIf`, `count`) the registry is built from. */
module Seqs {

  /** `sub` is obtained from `s` by dropping some elements and keeping the
      relative order of the rest. */
  ghost predicate IsSubsequence<T>(sub: seq<T>, s: seq<T>)
    decreases |s|
  {
    if |sub| == 0 then true
    else if |s| == 0 then false
    else (sub[0] == s[0] && IsSubsequence(sub[1..], s[1..])) || IsSubsequence(sub, s[1..])
  }

  /** Number of elements of `s` that satisfy `p`. */
  function Count<T>(s: seq<T>, p: T -> bool): (n: nat)
    ensures n <= |s|
  {
    if |s| == 0 then 0 else (if p(s[0]) then 1 else 0) + Count(s[1..], p)
  }

  /** The elements of `s` that satisfy `keep`, in their original order. */
  function Filter<T>(s: seq<T>, keep: T -> bool): (r: seq<T>)
    ensures |r| == Count(s, keep)
    ensures forall i :: 0 <= i < |r| ==> r[i] in s && keep(r[i])
    ensures forall i :: 0 <= i < |s| && keep(s[i]) ==> s[i] in r
    ensures IsSubsequence(r, s)
  {
    if |s| == 0 then []
    else
      var rest := Filter(s[1..], keep);
      assert s == [s[0]] + s[1..];
      if keep(s[0]) then
        assert ([s[0]] + rest)[1..] == rest;
        [s[0]] + rest
      else rest
  }

  /** Filtering keeps everything when every element passes. */
  lemma {:induction false} FilterKeepsAll<T>(s: seq<T>, keep: T -> bool)
    requires forall x :: x in s ==> keep(x)
    ensures Filter(s, keep) == s
  {
    if |s| > 0 {
      assert s[0] in s;
      assert forall x :: x in s[1..] ==> x in s;
      FilterKeepsAll(s[1..], keep);
      assert s == [s[0]] + s[1..];
    }
  }

  /** Filtering twice with the same predicate equals filtering once. */
  lemma FilterIdempotent<T>(s: seq<T>, keep: T -> bool)
    ensures Filter(Filter(s, keep), keep) == Filter(s, keep)
  {
  }

  /** Two predicates that agree on every element of `s` select the same elements. */
  lemma {:induction false} FilterCongruent<T>(s: seq<T>, p: T -> bool, q: T -> bool)
    requires forall x :: x in s ==> p(x) == q(x)
    ensures Filter(s, p) == Filter(s, q)
  {
    if |s| > 0 {
      assert s[0] in s;
      assert forall x :: x in s[1..] ==> x in s;
      FilterCongruent(s[1..], p, q);
    }
  }

  /** Nothing is counted when no element satisfies the predicate. */
  lemma {:induction false} CountNone<T>(s: seq<T>, p: T -> bool)
    requires forall x :: x in s ==> !p(x)
    ensures Count(s, p) == 0
  {
    if |s| > 0 {
      assert s[0] in s;
      assert forall x :: x in s[1..] ==> x in s;
      CountNone(s[1..], p);
    }
  }

  /** Predicates that split every element into exactly one of two classes
      split the length of `s` between their counts. */
  lemma {:induction false} CountPartition<T>(s: seq<T>, p: T -> bool, q: T -> bool)
    requires forall x :: p(x) != q(x)
    ensures Count(s, p) + Count(s, q) == |s|
  {
    if |s| > 0 {
      CountPartition(s[1..], p, q);
    }
  }

  /** Three predicates that put every element into exactly one of three
      classes split the length of `s` between their counts. */
  lemma {:induction false} CountPartition3<T>(s: seq<T>, p: T -> bool, q: T -> bool, r: T -> bool)
    requires forall x :: (if p(x) then 1 else 0) + (if q(x) then 1 else 0) + (if r(x) then 1 else 0) == 1
    ensures Count(s, p) + Count(s, q) + Count(s, r) == |s|
  {
    if |s| > 0 {
      CountPartition3(s[1..], p, q, r);
    }
  }

  /** Overwriting one position changes a count by the old element's
      contribution out and the new element's contribution in. */
  lemma {:induction false} CountUpdate<T>(s: seq<T>, p: T -> bool, i: nat, x: T)
    requires i < |s|
    ensures Count(s[i := x], p) + (if p(s[i]) then 1 else 0) == Count(s, p) + (if p(x) then 1 else 0)
  {
    if i > 0 {
      assert s[i := x][1..] == s[1..][i - 1 := x];
      CountUpdate(s[1..], p, i - 1, x);
    } else {
      assert s[i := x][1..] == s[1..];
    }
  }

  /** Appending one element adds its own contribution to a count. */
  lemma {:induction false} CountAppend<T>(s: seq<T>, p: T -> bool, x: T)
    ensures Count(s + [x], p) == Count(s, p) + (if p(x) then 1 else 0)
  {
    if |s| > 0 {
      assert (s + [x])[1..] == s[1..] + [x];
      CountAppend(s[1..], p, x);
    }
  }
}
