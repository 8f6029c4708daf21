/**
 The search at the heart of `Mandelbrot::compute_point_value` (src/lib.rs).

 The evaluator iterates z := z^power + c from z = 0 and returns the first step
 whose |z| exceeds the threshold, or `iterations - 1` when no step within the
 budget does. The floating-point orbit is not modelled: it is replaced by its
 escape tests, `escapes(i)` standing for "after step i, |z| > threshold".
 What remains is a bounded first-index search over those tests.
 */
module Escape {

  /** `r` is the answer of the search over a budget of `n` steps: no step before
      `r` escaped, and either step `r` escaped or `r` is the last step. */
  ghost predicate IsSearchResult(escapes: nat -> bool, n: nat, r: nat) {
    && r < n
    && (forall j: nat :: j < r ==> !escapes(j))
    && (escapes(r) || r == n - 1)
  }

  /** The search has exactly one answer for each budget. */
  lemma SearchResultUnique(escapes: nat -> bool, n: nat, r1: nat, r2: nat)
    requires IsSearchResult(escapes, n, r1)
    requires IsSearchResult(escapes, n, r2)
    ensures r1 == r2
  {
  }

  /** The search resumed at step `i`, all earlier steps having stayed bounded. */
  function SearchFrom(escapes: nat -> bool, n: nat, i: nat): (r: nat)
    requires i < n
    decreases n - i
    ensures i <= r < n
    ensures forall j: nat :: i <= j < r ==> !escapes(j)
    ensures escapes(r) || r == n - 1
  {
    if escapes(i) then i
    else if i == n - 1 then n - 1
    else SearchFrom(escapes, n, i + 1)
  }

  /** The escape index of one point: the first escaping step, or `n - 1`. */
  function PointValue(escapes: nat -> bool, n: nat): (r: nat)
    requires n >= 1
    ensures IsSearchResult(escapes, n, r)
    ensures (exists j: nat :: j < n && escapes(j)) <==> escapes(r)
    ensures (forall j: nat :: j < n ==> !escapes(j)) ==> r == n - 1
  {
    SearchFrom(escapes, n, 0)
  }

  /** The loop of `compute_point_value`: step through the budget, stop at the
      first escape, fall back to `n - 1`. */
  method FirstEscape(escapes: nat -> bool, n: nat) returns (r: nat)
    requires n >= 1
    ensures r == PointValue(escapes, n)
  {
    var i := 0;
    while i < n
      invariant i <= n
      invariant forall j: nat :: j < i ==> !escapes(j)
    {
      if escapes(i) {
        SearchResultUnique(escapes, n, i, PointValue(escapes, n));
        return i;
      }
      i := i + 1;
    }
    r := n - 1;
    SearchResultUnique(escapes, n, r, PointValue(escapes, n));
  }

  /** The outcome of the last step in the budget never matters: escaping at
      step `n - 1` gives the same index as never escaping at all. */
  lemma LastStepIrrelevant(e1: nat -> bool, e2: nat -> bool, n: nat)
    requires n >= 1
    requires forall j: nat :: j < n - 1 ==> e1(j) == e2(j)
    ensures PointValue(e1, n) == PointValue(e2, n)
  {
    var r := PointValue(e1, n);
    assert IsSearchResult(e2, n, r) by {
      forall j: nat | j < r
        ensures !e2(j)
      {
        assert e1(j) == e2(j);
      }
      if r < n - 1 {
        assert e1(r) == e2(r);
      }
    }
    SearchResultUnique(e2, n, r, PointValue(e2, n));
  }

  /** Only the steps up to the answer are ever examined: two orbits that agree
      on them get the same index, whatever happens afterwards. */
  lemma LaterStepsIrrelevant(e1: nat -> bool, e2: nat -> bool, n: nat)
    requires n >= 1
    requires forall j: nat :: j <= PointValue(e1, n) ==> e1(j) == e2(j)
    ensures PointValue(e1, n) == PointValue(e2, n)
  {
    var r := PointValue(e1, n);
    assert IsSearchResult(e2, n, r) by {
      forall j: nat | j < r
        ensures !e2(j)
      {
        assert e1(j) == e2(j);
      }
      assert e1(r) == e2(r);
    }
    SearchResultUnique(e2, n, r, PointValue(e2, n));
  }
}
