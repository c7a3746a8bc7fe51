/** Stepping through a fixed list of names with wrap-around, as the theme toggles of
    both front ends do with `index` / `indexOf` and `% len`. */
module Cycles {
  import opened DivMod

  predicate Distinct(xs: seq<string>) {
    forall i, j :: 0 <= i < j < |xs| ==> xs[i] != xs[j]
  }

  /** `indexOf` / `list.index`: the first position of `x` in `xs`, or -1 when absent. */
  function IndexOf(xs: seq<string>, x: string): (i: int)
    ensures -1 <= i < |xs|
    ensures i == -1 <==> x !in xs
    ensures 0 <= i ==> xs[i] == x
  {
    if xs == [] then -1
    else if xs[0] == x then 0
    else
      var k := IndexOf(xs[1..], x);
      if k == -1 then -1 else k + 1
  }

  /** The position found is the first one holding `x`. */
  lemma {:induction false} IndexOfFirst(xs: seq<string>, x: string, j: nat)
    requires j < |xs| && xs[j] == x
    ensures 0 <= IndexOf(xs, x) <= j
  {
    if xs[0] != x {
      IndexOfFirst(xs[1..], x, j - 1);
    }
  }

  /** In a list without repeats, each element is found at its own position. */
  lemma IndexOfDistinct(xs: seq<string>, i: nat)
    requires Distinct(xs) && i < |xs|
    ensures IndexOf(xs, xs[i]) == i
  {
    IndexOfFirst(xs, xs[i], i);
  }

  /** `cycle[(cycle.index(x) + 1) % len(cycle)]`: the element after `x`, wrapping around;
      an `x` not in the cycle has index -1 and so goes to the first element. */
  function Advance(cycle: seq<string>, x: string): (r: string)
    requires |cycle| > 0
    ensures r in cycle
  {
    cycle[(IndexOf(cycle, x) + 1) % |cycle|]
  }

  /** The element `n` steps on from `x`. */
  function AdvanceN(cycle: seq<string>, x: string, n: nat): string
    requires |cycle| > 0
    decreases n
  {
    if n == 0 then x else AdvanceN(cycle, Advance(cycle, x), n - 1)
  }

  /** `a % n` by repeated subtraction, which keeps the position arithmetic linear. */
  function Wrap(a: nat, n: nat): (r: nat)
    requires n > 0
    ensures r < n
    decreases a
  {
    if a < n then a else Wrap(a - n, n)
  }

  lemma {:induction false} WrapIsMod(a: nat, n: nat)
    requires n > 0
    ensures Wrap(a, n) == a % n
    decreases a
  {
    if a < n {
      DivModUnique(a, n, 0, a);
    } else {
      WrapIsMod(a - n, n);
      var q, r := (a - n) / n, (a - n) % n;
      assert (q + 1) * n == q * n + n;
      DivModUnique(a, n, q + 1, r);
    }
  }

  /** In a cycle without repeats, one step moves position `i` to position `i + 1`,
      the last back to the first. */
  lemma AdvanceAt(cycle: seq<string>, i: nat, x: string)
    requires Distinct(cycle) && i < |cycle| && x == cycle[i]
    ensures Advance(cycle, x) == cycle[if i + 1 < |cycle| then i + 1 else 0]
  {
    IndexOfDistinct(cycle, i);
    NextPosition(i, |cycle|);
  }

  /** The position after `i` in a cycle of length `n`: `i + 1`, or 0 after the last. */
  lemma NextPosition(i: nat, n: nat)
    requires i < n
    ensures (i + 1) % n == if i + 1 < n then i + 1 else 0
  {
    if i + 1 < n {
      DivModUnique(i + 1, n, 0, i + 1);
    } else {
      DivModUnique(i + 1, n, 1, 0);
    }
  }

  lemma DistinctAt(xs: seq<string>, p: nat, q: nat)
    requires Distinct(xs) && p < |xs| && q < |xs| && p != q
    ensures xs[p] != xs[q]
  {
    if p > q {
      assert xs[q] != xs[p];
    }
  }

  /** In a cycle without repeats, different elements step to different elements. */
  lemma AdvanceInjective(cycle: seq<string>, a: string, b: string)
    requires Distinct(cycle) && a in cycle && b in cycle && a != b
    ensures Advance(cycle, a) != Advance(cycle, b)
  {
    var i, j := IndexOf(cycle, a), IndexOf(cycle, b);
    AdvanceAt(cycle, i, a);
    AdvanceAt(cycle, j, b);
    DistinctAt(cycle, if i + 1 < |cycle| then i + 1 else 0, if j + 1 < |cycle| then j + 1 else 0);
  }

  /** `n` steps move position `i` to position `(i + n) % len(cycle)` (see `WrapIsMod`). */
  lemma {:induction false} AdvanceNAt(cycle: seq<string>, i: nat, x: string, n: nat)
    requires Distinct(cycle) && i < |cycle| && x == cycle[i]
    ensures AdvanceN(cycle, x, n) == cycle[Wrap(i + n, |cycle|)]
    decreases n
  {
    if n > 0 {
      AdvanceAt(cycle, i, x);
      var j := if i + 1 < |cycle| then i + 1 else 0;
      AdvanceNAt(cycle, j, cycle[j], n - 1);
      if i + 1 == |cycle| {
        assert Wrap(i + n, |cycle|) == Wrap(n - 1, |cycle|);
      }
    }
  }

  /** Going once round the cycle restores an element, and no shorter walk does. */
  lemma FullCycle(cycle: seq<string>, x: string, n: nat)
    requires Distinct(cycle) && x in cycle
    ensures AdvanceN(cycle, x, |cycle|) == x
    ensures 0 < n < |cycle| ==> AdvanceN(cycle, x, n) != x
  {
    var i := IndexOf(cycle, x);
    AdvanceNAt(cycle, i, x, |cycle|);
    assert Wrap(i + |cycle|, |cycle|) == Wrap(i, |cycle|);
    if 0 < n < |cycle| {
      AdvanceNAt(cycle, i, x, n);
      if i + n >= |cycle| {
        assert Wrap(i + n, |cycle|) == Wrap(i + n - |cycle|, |cycle|);
      }
      DistinctAt(cycle, i, Wrap(i + n, |cycle|));
    }
  }
}
