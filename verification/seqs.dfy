/**
 Python's list comprehension with a condition, `[x for x in xs if p(x)]`,
 and what it keeps.
 */
module Seqs {

  /** `[x for x in xs if p(x)]`. */
  function Filter<T>(xs: seq<T>, p: T -> bool): (r: seq<T>)
    ensures |r| <= |xs|
    decreases |xs|
  {
    if |xs| == 0 then []
    else
      var init := Filter(xs[..|xs| - 1], p);
      if p(xs[|xs| - 1]) then init + [xs[|xs| - 1]] else init
  }

  /** The positions of the elements that pass. */
  function Passing<T>(xs: seq<T>, p: T -> bool): set<nat> {
    set i: nat | i < |xs| && p(xs[i])
  }

  /** The filter keeps exactly the elements that pass. */
  lemma {:induction false} FilterElems<T>(xs: seq<T>, p: T -> bool)
    ensures forall x :: x in Filter(xs, p) <==> x in xs && p(x)
    decreases |xs|
  {
    if |xs| > 0 {
      var init := xs[..|xs| - 1];
      var x := xs[|xs| - 1];
      FilterElems(init, p);
      assert xs == init + [x];
      forall y ensures y in xs <==> y in init || y == x {
      }
    }
  }

  /** The filter keeps one element per passing position. */
  lemma {:induction false} FilterCount<T>(xs: seq<T>, p: T -> bool)
    ensures |Filter(xs, p)| == |Passing(xs, p)|
    decreases |xs|
  {
    if |xs| > 0 {
      var n := |xs| - 1;
      var init := xs[..n];
      FilterCount(init, p);
      var a := Passing(init, p);
      var b := Passing(xs, p);
      assert n !in a;
      forall i: nat ensures i in b <==> i in a || (i == n && p(xs[n])) {
        if i < n {
          assert xs[i] == init[i];
        }
      }
      if p(xs[n]) {
        assert b == a + {n};
      } else {
        assert b == a;
      }
    }
  }

  /** When nothing passes, nothing is kept. */
  lemma {:induction false} FilterNone<T>(xs: seq<T>, p: T -> bool)
    requires forall i :: 0 <= i < |xs| ==> !p(xs[i])
    ensures Filter(xs, p) == []
    decreases |xs|
  {
    if |xs| > 0 {
      FilterNone(xs[..|xs| - 1], p);
    }
  }

  /** When everything passes, everything is kept. */
  lemma {:induction false} FilterAll<T>(xs: seq<T>, p: T -> bool)
    requires forall i :: 0 <= i < |xs| ==> p(xs[i])
    ensures Filter(xs, p) == xs
    decreases |xs|
  {
    if |xs| > 0 {
      FilterAll(xs[..|xs| - 1], p);
    }
  }

  /** Filtering a concatenation is concatenating the filtered parts. */
  lemma {:induction false} FilterAppend<T>(a: seq<T>, b: seq<T>, p: T -> bool)
    ensures Filter(a + b, p) == Filter(a, p) + Filter(b, p)
    decreases |b|
  {
    if |b| == 0 {
      assert a + b == a;
    } else {
      var init := b[..|b| - 1];
      assert (a + b)[..|a + b| - 1] == a + init;
      FilterAppend(a, init, p);
    }
  }

  /** `[f(x) for x in xs]`. */
  function Map<T, U>(xs: seq<T>, f: T -> U): (r: seq<U>)
    ensures |r| == |xs| && forall i :: 0 <= i < |xs| ==> r[i] == f(xs[i])
  {
    seq(|xs|, i requires 0 <= i < |xs| => f(xs[i]))
  }

  /** `[f(i, xs[i]) for i in range(n)]`: the loop body of a `for i, x in
      enumerate(xs)` that builds one value per element. */
  function MapIndexed<T, U>(xs: seq<T>, n: nat, f: (nat, T) -> U): seq<U>
    requires n <= |xs|
    decreases n
  {
    if n == 0 then [] else MapIndexed(xs, n - 1, f) + [f(n - 1, xs[n - 1])]
  }

  /** `MapIndexed` holds one value per element, each made from its own
      position and element. */
  lemma {:induction false} MapIndexedSpec<T, U>(xs: seq<T>, n: nat, f: (nat, T) -> U)
    requires n <= |xs|
    ensures |MapIndexed(xs, n, f)| == n
    ensures forall j :: 0 <= j < n ==> MapIndexed(xs, n, f)[j] == f(j, xs[j])
    decreases n
  {
    if n > 0 {
      MapIndexedSpec(xs, n - 1, f);
    }
  }

  predicate Increasing(xs: seq<nat>) {
    forall j, k :: 0 <= j < k < |xs| ==> xs[j] < xs[k]
  }

  /** The one-based positions among the first `n` elements whose element
      satisfies `p`, in increasing order. */
  function IdsWhere<T>(xs: seq<T>, n: nat, p: T -> bool): seq<nat>
    requires n <= |xs|
    decreases n
  {
    if n == 0 then []
    else
      var init := IdsWhere(xs, n - 1, p);
      if p(xs[n - 1]) then init + [n] else init
  }

  /** `IdsWhere` lists the position `k + 1` of each selected element `k`
      below `n`, once, in increasing order, and nothing else. */
  lemma {:induction false} IdsWhereSpec<T>(xs: seq<T>, n: nat, p: T -> bool)
    requires n <= |xs|
    ensures forall id :: id in IdsWhere(xs, n, p) ==> 1 <= id <= n
    ensures forall k :: 0 <= k < n ==> (k + 1 in IdsWhere(xs, n, p) <==> p(xs[k]))
    ensures Increasing(IdsWhere(xs, n, p)) && forall j :: 0 <= j < |IdsWhere(xs, n, p)| ==> IdsWhere(xs, n, p)[j] <= n
    decreases n
  {
    if n > 0 {
      IdsWhereSpec(xs, n - 1, p);
      IdsStep(IdsWhere(xs, n - 1, p), n, p(xs[n - 1]));
    }
  }

  /** Appending `n` to increasing ids below `n` keeps them increasing. */
  lemma IdsStep(init: seq<nat>, n: nat, add: bool)
    requires Increasing(init) && forall j :: 0 <= j < |init| ==> init[j] < n
    ensures var ids := if add then init + [n] else init;
      && Increasing(ids) && (forall j :: 0 <= j < |ids| ==> ids[j] <= n)
      && (forall id :: id in ids <==> id in init || (add && id == n))
  {
  }

  /** One pass over `xs` that builds `f(i, xs[i])` for every position and
      records the one-based position of every element satisfying `p`. */
  method MapSelect<T, U>(xs: seq<T>, f: (nat, T) -> U, p: T -> bool) returns (ys: seq<U>, ids: seq<nat>)
    ensures ys == MapIndexed(xs, |xs|, f)
    ensures ids == IdsWhere(xs, |xs|, p)
  {
    ys := [];
    ids := [];
    for i := 0 to |xs|
      invariant ys == MapIndexed(xs, i, f)
      invariant ids == IdsWhere(xs, i, p)
    {
      if p(xs[i]) {
        ids := ids + [i + 1];
      }
      ys := ys + [f(i, xs[i])];
    }
  }
}
