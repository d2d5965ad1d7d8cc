/** Generic sequence operations: order-preserving filtering and first-occurrence de-duplication. */
module Seqs {
  import opened Wrappers

  /** `a` can be obtained from `b` by deleting elements, keeping the order of the rest. */
  predicate IsSubsequence<T(==)>(a: seq<T>, b: seq<T>)
    decreases |b|
  {
    if |a| == 0 then true
    else if |b| == 0 then false
    else if a[0] == b[0] then IsSubsequence(a[1..], b[1..])
    else IsSubsequence(a, b[1..])
  }

  /** The elements of `xs` satisfying `keep`, in their original order (`Array.prototype.filter`,
      and the append-in-a-range-loop idiom of the server). */
  function Filter<T(==)>(xs: seq<T>, keep: T -> bool): (r: seq<T>)
    ensures |r| <= |xs|
    ensures forall x :: x in r ==> x in xs && keep(x)
    ensures forall x :: x in xs && keep(x) ==> x in r
    ensures forall x :: x in xs ==> multiset(r)[x] == if keep(x) then multiset(xs)[x] else 0
    ensures IsSubsequence(r, xs)
    decreases |xs|
  {
    if |xs| == 0 then []
    else
      var rest := Filter(xs[1..], keep);
      assert xs == [xs[0]] + xs[1..];
      var r := if keep(xs[0]) then [xs[0]] + rest else rest;
      FilterCountStep(xs[0], xs[1..], keep, rest, r);
      r
  }

  /** One step of `Filter`'s count: how often each element of `[head] + tail` survives. */
  lemma FilterCountStep<T>(head: T, tail: seq<T>, keep: T -> bool, rest: seq<T>, r: seq<T>)
    requires forall x :: x in rest ==> x in tail
    requires forall x :: x in tail ==> multiset(rest)[x] == if keep(x) then multiset(tail)[x] else 0
    requires r == if keep(head) then [head] + rest else rest
    ensures forall x :: x in [head] + tail ==>
      multiset(r)[x] == if keep(x) then multiset([head] + tail)[x] else 0
  {
    assert multiset([head] + tail) == multiset{head} + multiset(tail);
    assert multiset([head] + rest) == multiset{head} + multiset(rest);
    forall x | x in [head] + tail
      ensures multiset(r)[x] == if keep(x) then multiset([head] + tail)[x] else 0
    {
      if x !in tail {
        assert x == head;
        assert multiset(rest)[x] == 0 && multiset(tail)[x] == 0;
      }
    }
  }

  /** Filtering twice with the same predicate gives the same result as filtering once. */
  lemma {:induction false} FilterIdempotent<T>(xs: seq<T>, keep: T -> bool)
    ensures Filter(Filter(xs, keep), keep) == Filter(xs, keep)
    decreases |xs|
  {
    if |xs| > 0 {
      FilterIdempotent(xs[1..], keep);
      if keep(xs[0]) {
        assert ([xs[0]] + Filter(xs[1..], keep))[1..] == Filter(xs[1..], keep);
      }
    }
  }

  /** A predicate that holds of every element keeps the whole sequence. */
  lemma {:induction false} FilterKeepsAll<T>(xs: seq<T>, keep: T -> bool)
    requires forall i :: 0 <= i < |xs| ==> keep(xs[i])
    ensures Filter(xs, keep) == xs
    decreases |xs|
  {
    if |xs| > 0 {
      assert keep(xs[0]);
      FilterKeepsAll(xs[1..], keep);
      assert [xs[0]] + xs[1..] == xs;
    }
  }

  /** Filtering only depends on the verdict of `keep`: two predicates that agree on every element
      select the same entries. */
  lemma {:induction false} FilterCongruent<T>(xs: seq<T>, p: T -> bool, q: T -> bool)
    requires forall i :: 0 <= i < |xs| ==> p(xs[i]) == q(xs[i])
    ensures Filter(xs, p) == Filter(xs, q)
    decreases |xs|
  {
    if |xs| > 0 {
      assert p(xs[0]) == q(xs[0]);
      FilterCongruent(xs[1..], p, q);
    }
  }

  /** Every element is preceded by no equal element: no duplicates. */
  predicate NoDuplicates<T(==)>(s: seq<T>) {
    forall i, j :: 0 <= i < j < |s| ==> s[i] != s[j]
  }

  /** Index of the first occurrence of `x` in `s`. */
  function IndexOf<T(==)>(s: seq<T>, x: T): (k: nat)
    requires x in s
    ensures k < |s| && s[k] == x
    ensures forall j :: 0 <= j < k ==> s[j] != x
    decreases |s|
  {
    if s[0] == x then 0 else 1 + IndexOf(s[1..], x)
  }

  /** The first occurrence in a prefix is the first occurrence in the whole sequence. */
  lemma IndexOfPrefix<T>(s: seq<T>, n: nat, x: T)
    requires n <= |s| && x in s[..n]
    ensures IndexOf(s, x) == IndexOf(s[..n], x)
  {
    var k := IndexOf(s[..n], x);
    assert s[..n][k] == s[k];
    assert forall j :: 0 <= j < k ==> s[j] == s[..n][j];
  }

  /** The distinct elements of `s` in first-occurrence order, as a JavaScript `Set` built from `s`
      and turned back into an array with `Array.from`. */
  function Distinct<T(==)>(s: seq<T>): (r: seq<T>)
    ensures NoDuplicates(r)
    ensures forall i :: 0 <= i < |r| ==> r[i] in s
    ensures forall i :: 0 <= i < |s| ==> s[i] in r
    ensures forall i, j :: 0 <= i < j < |r| ==> IndexOf(s, r[i]) < IndexOf(s, r[j])
    decreases |s|
  {
    if |s| == 0 then []
    else
      var n := |s| - 1;
      var prev := Distinct(s[..n]);
      DistinctPrefix(s, s[..n], prev);
      if s[n] in prev then
        assert forall i :: 0 <= i < |s| ==> s[i] in prev by {
          forall i | 0 <= i < |s| ensures s[i] in prev {
            if i == n {
              assert s[n] in prev;
            }
          }
        }
        prev
      else
        DistinctExtend(s, prev);
        prev + [s[n]]
  }

  /** First occurrences within all but the last element are first occurrences in the whole
      sequence, and come before the last position. */
  lemma DistinctPrefix<T>(s: seq<T>, init: seq<T>, prev: seq<T>)
    requires |s| > 0 && init == s[..|s| - 1]
    requires forall i :: 0 <= i < |prev| ==> prev[i] in init
    requires forall i :: 0 <= i < |init| ==> init[i] in prev
    requires forall i, j :: 0 <= i < j < |prev| ==> IndexOf(init, prev[i]) < IndexOf(init, prev[j])
    ensures forall i :: 0 <= i < |prev| ==> prev[i] in s && IndexOf(s, prev[i]) < |s| - 1
    ensures forall i, j :: 0 <= i < j < |prev| ==> IndexOf(s, prev[i]) < IndexOf(s, prev[j])
    ensures forall i :: 0 <= i < |s| - 1 ==> s[i] in prev
  {
    var n := |s| - 1;
    assert forall i :: 0 <= i < n ==> init[i] == s[i];
    forall i | 0 <= i < |prev|
      ensures prev[i] in s && IndexOf(s, prev[i]) == IndexOf(init, prev[i]) < n
    {
      IndexOfPrefix(s, n, prev[i]);
    }
  }

  /** Appending a new last element keeps the result duplicate-free, drawn from the sequence,
      complete and ordered by first occurrence. */
  lemma DistinctExtend<T>(s: seq<T>, prev: seq<T>)
    requires |s| > 0 && s[|s| - 1] !in prev
    requires NoDuplicates(prev)
    requires forall i :: 0 <= i < |prev| ==> prev[i] in s && IndexOf(s, prev[i]) < |s| - 1
    requires forall i, j :: 0 <= i < j < |prev| ==> IndexOf(s, prev[i]) < IndexOf(s, prev[j])
    requires forall i :: 0 <= i < |s| - 1 ==> s[i] in prev
    ensures var r := prev + [s[|s| - 1]];
      && NoDuplicates(r)
      && (forall i :: 0 <= i < |r| ==> r[i] in s)
      && (forall i :: 0 <= i < |s| ==> s[i] in r)
      && (forall i, j :: 0 <= i < j < |r| ==> IndexOf(s, r[i]) < IndexOf(s, r[j]))
  {
    var n := |s| - 1;
    var r := prev + [s[n]];
    assert forall i :: 0 <= i < |prev| ==> r[i] == prev[i];
    assert r[|prev|] == s[n];
    assert NoDuplicates(r);
    assert forall i :: 0 <= i < |s| ==> s[i] in r by {
      forall i | 0 <= i < |s| ensures s[i] in r {
        if i < n {
          var k :| 0 <= k < |prev| && prev[k] == s[i];
          assert r[k] == s[i];
        }
      }
    }
    assert IndexOf(s, s[n]) == n by {
      assert s[n] !in s[..n] by {
        assert forall i :: 0 <= i < n ==> s[..n][i] == s[i];
      }
    }
  }

  /** The first index at or after `from` whose element satisfies `p` (a `for i := from; ...` scan
      that returns on the first hit). */
  function FindFirstFrom<T>(xs: seq<T>, p: T -> bool, from: nat): (r: Option<nat>)
    requires from <= |xs|
    ensures r.Some? ==> from <= r.value < |xs| && p(xs[r.value])
    ensures r.Some? ==> forall j :: from <= j < r.value ==> !p(xs[j])
    ensures r.None? ==> forall j :: from <= j < |xs| ==> !p(xs[j])
    decreases |xs| - from
  {
    if from == |xs| then None
    else if p(xs[from]) then Some(from)
    else FindFirstFrom(xs, p, from + 1)
  }

  /** The first index whose element satisfies `p`. */
  function FindFirst<T>(xs: seq<T>, p: T -> bool): (r: Option<nat>)
    ensures r.Some? ==> r.value < |xs| && p(xs[r.value])
    ensures r.Some? ==> forall j :: 0 <= j < r.value ==> !p(xs[j])
    ensures r.None? ==> forall j :: 0 <= j < |xs| ==> !p(xs[j])
  {
    FindFirstFrom(xs, p, 0)
  }

  /** The last index whose element satisfies `p` (a full scan that overwrites on every hit). */
  function FindLast<T>(xs: seq<T>, p: T -> bool): (r: Option<nat>)
    ensures r.Some? ==> r.value < |xs| && p(xs[r.value])
    ensures r.Some? ==> forall j :: r.value < j < |xs| ==> !p(xs[j])
    ensures r.None? ==> forall j :: 0 <= j < |xs| ==> !p(xs[j])
    decreases |xs|
  {
    if |xs| == 0 then None
    else if p(xs[|xs| - 1]) then Some(|xs| - 1)
    else FindLast(xs[..|xs| - 1], p)
  }
}
