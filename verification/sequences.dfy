/** Sequence helpers the analyser's LINQ calls stand for: `Distinct`, `Where`, and the
    facts about positions they rest on. */
module Sequences {
  predicate NoDuplicates<T(==)>(xs: seq<T>) {
    forall i, j :: 0 <= i < j < |xs| ==> xs[i] != xs[j]
  }

  /** The position of the first occurrence of `x` in `xs`. */
  function FirstIndex<T(==)>(xs: seq<T>, x: T): (k: nat)
    requires x in xs
    ensures k < |xs| && xs[k] == x
    ensures forall j :: 0 <= j < k ==> xs[j] != x
  {
    if xs[0] == x then 0 else 1 + FirstIndex(xs[1..], x)
  }

  /** LINQ `Distinct`: each element once, at the place of its first occurrence. */
  function Distinct<T(==,!new)>(xs: seq<T>): (r: seq<T>)
    ensures NoDuplicates(r)
    ensures forall x :: x in r <==> x in xs
    ensures forall i, j :: 0 <= i < j < |r| ==> FirstIndex(xs, r[i]) < FirstIndex(xs, r[j])
    ensures |xs| > 0 ==> |r| > 0 && r[0] == xs[0]
    decreases |xs|
  {
    if |xs| == 0 then []
    else
      var init, last := xs[..|xs| - 1], xs[|xs| - 1];
      var d := Distinct(init);
      assert forall x :: x in xs <==> x in init || x == last;
      assert forall x :: x in init ==> FirstIndex(xs, x) == FirstIndex(init, x) by {
        forall x | x in init
          ensures FirstIndex(xs, x) == FirstIndex(init, x)
        {
          FirstIndexOfPrefix(xs, init, x);
        }
      }
      if last in d then d
      else
        assert last !in init;
        assert FirstIndex(xs, last) == |xs| - 1;
        d + [last]
  }

  lemma FirstIndexOfPrefix<T>(xs: seq<T>, init: seq<T>, x: T)
    requires |init| <= |xs| && init == xs[..|init|] && x in init
    ensures FirstIndex(xs, x) == FirstIndex(init, x)
  {
    var k := FirstIndex(init, x);
    assert xs[k] == x;
    assert forall j :: 0 <= j < k ==> xs[j] == init[j];
  }

  /** `a` is `b` with some elements left out, the rest in their order. */
  predicate IsSubsequence<T(==)>(a: seq<T>, b: seq<T>)
    decreases |b|
  {
    if |a| == 0 then true
    else if |b| == 0 then false
    else if a[|a| - 1] == b[|b| - 1] then IsSubsequence(a[..|a| - 1], b[..|b| - 1])
    else IsSubsequence(a, b[..|b| - 1])
  }

  /** LINQ `Where`: the elements that pass the test, in their order. */
  function Filter<T(==,!new)>(xs: seq<T>, keep: T -> bool): (r: seq<T>)
    ensures forall x :: x in r <==> x in xs && keep(x)
    ensures forall x :: multiset(r)[x] == if keep(x) then multiset(xs)[x] else 0
    ensures IsSubsequence(r, xs)
    decreases |xs|
  {
    if |xs| == 0 then []
    else
      var init, last := xs[..|xs| - 1], xs[|xs| - 1];
      assert xs == init + [last];
      var kept := Filter(init, keep);
      if keep(last) then
        var r := kept + [last];
        assert r[..|r| - 1] == kept;
        assert multiset(r) == multiset(kept) + multiset{last};
        r
      else
        assert |kept| > 0 ==> kept[|kept| - 1] != last by {
          if |kept| > 0 { assert kept[|kept| - 1] in kept; }
        }
        kept
  }

  /** Filtering twice with the same test keeps what filtering once kept. */
  lemma {:induction false} FilterIdempotent<T(!new)>(xs: seq<T>, keep: T -> bool)
    ensures Filter(Filter(xs, keep), keep) == Filter(xs, keep)
    decreases |xs|
  {
    if |xs| > 0 {
      var init := xs[..|xs| - 1];
      FilterIdempotent(init, keep);
      var f := Filter(xs, keep);
      if keep(xs[|xs| - 1]) {
        assert f[..|f| - 1] == Filter(init, keep);
      }
    }
  }
}
