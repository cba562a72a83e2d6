/**
  The double loop both solvers run over a point sequence `s`: for each
  row `i` from `lo` up to the second-to-last point, and each later point
  `j` below the bound `min(i + 1 + w, len(s))`, the accumulator becomes
  the smaller of itself and the distance from `s[i]` to `s[j]`.

  With `w = 7` it is the strip scan of `MDP`; with a window of at least
  `len(s)` the inner bound is `len(s)` and it is the loop of `bruteForce`.
 */
module Sweeps {
  import opened Geometry

  /** The inner loop's exclusive bound `min(i + 1 + w, n)`. */
  function Upper(i: nat, w: nat, n: nat): (hi: nat)
    ensures hi <= n && hi <= i + 1 + w
    ensures hi == n || hi == i + 1 + w
  {
    if i + 1 + w < n then i + 1 + w else n
  }

  /** `(a, b)` is a pair the loop compares when started at row `lo`. */
  ghost predicate InWindow(n: int, lo: int, w: int, a: int, b: int)
  {
    lo <= a < b < n && b <= a + w
  }

  /**
    `r` is the minimum of `acc` and the distances of all pairs in the
    window: at most `acc`, at most each such distance, and equal to `acc`
    or to one of them.
   */
  ghost predicate IsWindowMin(s: seq<Point>, lo: nat, w: nat, acc: Dist, r: Dist)
  {
    && Le(r, acc)
    && (forall a, b :: InWindow(|s|, lo, w, a, b) ==> Le(r, Fin(SqDist(s[a], s[b]))))
    && (r == acc || exists a, b :: InWindow(|s|, lo, w, a, b) && r == Fin(SqDist(s[a], s[b])))
  }

  /** The inner loop: folds `min` over `distance(s[i], s[j])` for `j` in `[j, hi)`. */
  function RowMin(s: seq<Point>, i: nat, j: nat, hi: nat, acc: Dist): (r: Dist)
    requires i < |s| && hi <= |s|
    decreases hi - j
    ensures Le(r, acc)
    ensures forall k :: j <= k < hi ==> Le(r, Fin(SqDist(s[i], s[k])))
    ensures r == acc || exists k :: j <= k < hi && r == Fin(SqDist(s[i], s[k]))
  {
    if j >= hi then acc
    else
      var acc' := Min(Fin(SqDist(s[i], s[j])), acc);
      var r := RowMin(s, i, j + 1, hi, acc');
      LeTrans(r, acc', acc);
      LeTrans(r, acc', Fin(SqDist(s[i], s[j])));
      r
  }

  /** The outer loop, from row `i` on, with inner window `w`. */
  function Sweep(s: seq<Point>, i: nat, w: nat, acc: Dist): (r: Dist)
    decreases |s| - i
    ensures IsWindowMin(s, i, w, acc, r)
  {
    if i + 1 >= |s| then acc
    else
      var hi := Upper(i, w, |s|);
      var acc' := RowMin(s, i, i + 1, hi, acc);
      var r := Sweep(s, i + 1, w, acc');
      SweepStep(s, i, w, acc, acc', r);
      r
  }

  lemma SweepStep(s: seq<Point>, i: nat, w: nat, acc: Dist, acc': Dist, r: Dist)
    requires i + 1 < |s|
    requires Le(acc', acc)
    requires forall k :: i + 1 <= k < Upper(i, w, |s|) ==> Le(acc', Fin(SqDist(s[i], s[k])))
    requires acc' == acc || exists k :: i + 1 <= k < Upper(i, w, |s|) && acc' == Fin(SqDist(s[i], s[k]))
    requires IsWindowMin(s, i + 1, w, acc', r)
    ensures IsWindowMin(s, i, w, acc, r)
  {
    LeTrans(r, acc', acc);
    forall a, b | InWindow(|s|, i, w, a, b) ensures Le(r, Fin(SqDist(s[a], s[b]))) {
      if a == i {
        LeTrans(r, acc', Fin(SqDist(s[a], s[b])));
      } else {
        assert InWindow(|s|, i + 1, w, a, b);
      }
    }
    if r != acc {
      if r == acc' {
        var k :| i + 1 <= k < Upper(i, w, |s|) && acc' == Fin(SqDist(s[i], s[k]));
        assert InWindow(|s|, i, w, i, k);
      } else {
        var a, b :| InWindow(|s|, i + 1, w, a, b) && r == Fin(SqDist(s[a], s[b]));
        assert InWindow(|s|, i, w, a, b);
      }
    }
  }

  /** Number of inner-loop iterations (distance computations) from row `i` on. */
  function Comparisons(n: nat, i: nat, w: nat): nat
    decreases n - i
  {
    if i + 1 >= n then 0 else (Upper(i, w, n) - (i + 1)) + Comparisons(n, i + 1, w)
  }

  /** Each row compares with at most `w` later points, so the loop does at most `w` comparisons per point. */
  lemma {:induction false} ComparisonsBound(n: nat, i: nat, w: nat)
    ensures Comparisons(n, i, w) <= w * (if i < n then n - i else 0)
    decreases n - i
  {
    if i + 1 < n {
      ComparisonsBound(n, i + 1, w);
      assert w * (n - i) == w + w * (n - (i + 1));
    }
  }
}
