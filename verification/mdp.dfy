/**
  The plain divide-and-conquer closest-pair solver of `MDP.py`:
  `bruteForce` for three points or fewer, `MDP` for the recursion, and
  `MDP2`, which sorts by x first.

  The headline results are `SolveComplete` (on x-sorted input `MDP`
  returns the minimum pairwise distance) and `ClosestPairIsBruteForce`
  (`MDP2` agrees with `bruteForce` on every input).
 */
module Mdp {
  import opened Geometry
  import opened Sorting
  import opened Pairs
  import opened Sweeps
  import Packing

  /** `bruteForce`: every pair compared, `Inf` when there is none. */
  function BruteForce(coords: seq<Point>): (r: Dist)
    ensures IsClosest(coords, r)
  {
    if |coords| == 1 then Inf
    else
      var r := Sweep(coords, 0, |coords|, Inf);
      FullSweepIsClosest(coords, r);
      r
  }

  /** A sweep whose window never binds compares every pair. */
  lemma FullSweepIsClosest(s: seq<Point>, r: Dist)
    requires IsWindowMin(s, 0, |s|, Inf, r)
    ensures IsClosest(s, r)
  {
    forall i, j | 0 <= i < j < |s| ensures Le(r, Fin(SqDist(s[i], s[j]))) {
      assert InWindow(|s|, 0, |s|, i, j);
    }
    if |s| >= 2 {
      assert InWindow(|s|, 0, |s|, 0, 1);
      assert Le(r, Fin(SqDist(s[0], s[1])));
    }
    if r.Fin? {
      var a, b :| InWindow(|s|, 0, |s|, a, b) && r == Fin(SqDist(s[a], s[b]));
    }
  }

  /** The strip test `abs(coords[mid][0] - p[0]) <= curr_min`, squared. */
  predicate InBand(p: Point, midx: int, currMin: Dist)
  {
    match currMin
    case Inf => true
    case Fin(d) => Sq(midx - p.x) <= d
  }

  /**
    The squared strip test agrees with the source's test against
    `curr_min = sqrt(d)`: `c` is that square root, rational or not.
   */
  lemma InBandExact(p: Point, midx: int, d: int, c: real)
    requires c >= 0.0 && c * c == d as real
    ensures InBand(p, midx, Fin(d)) <==> -c <= (midx - p.x) as real <= c
  {
    var a := (midx - p.x) as real;
    var x := if a >= 0.0 then a else -a;
    assert x * x == a * a;
    SqAsReal(midx - p.x);
    if x <= c {
      RealSquareMono(x, c);
    } else {
      RealSquareStrictMono(c, x);
    }
  }

  /** The loop that collects, in input order, the points of `coords` in the band. */
  function Keep(coords: seq<Point>, midx: int, currMin: Dist): seq<Point>
  {
    if |coords| == 0 then []
    else
      var init, last := coords[..|coords| - 1], coords[|coords| - 1];
      Keep(init, midx, currMin) + (if InBand(last, midx, currMin) then [last] else [])
  }

  /** `Keep` keeps every occurrence of a point in the band and nothing else. */
  lemma {:induction false} KeepContents(coords: seq<Point>, midx: int, currMin: Dist)
    ensures forall p :: multiset(Keep(coords, midx, currMin))[p]
                        == if InBand(p, midx, currMin) then multiset(coords)[p] else 0
  {
    if |coords| > 0 {
      var init, last := coords[..|coords| - 1], coords[|coords| - 1];
      assert coords == init + [last];
      KeepContents(init, midx, currMin);
    }
  }

  /** The strip: the points `Keep` collects, sorted by y. */
  function Strip(coords: seq<Point>, midx: int, currMin: Dist): (strip: seq<Point>)
    ensures SortedBy(strip, Y)
    ensures multiset(strip) == multiset(Keep(coords, midx, currMin))
  {
    SortBy(Keep(coords, midx, currMin), Y)
  }

  /**
    The strip holds exactly the points of `coords` within `currMin` of the
    midline, each as often as it occurs in `coords`, in ascending y order.
   */
  lemma StripContents(coords: seq<Point>, midx: int, currMin: Dist)
    ensures SortedBy(Strip(coords, midx, currMin), Y)
    ensures forall p :: multiset(Strip(coords, midx, currMin))[p]
                        == if InBand(p, midx, currMin) then multiset(coords)[p] else 0
  {
    KeepContents(coords, midx, currMin);
  }

  /** Each strip point is compared with at most this many successors. */
  const Window: nat := 7

  /** The split at `n // 2`: two x-sorted halves that concatenate back to `coords`. */
  function Halves(coords: seq<Point>): (h: (seq<Point>, seq<Point>))
    ensures h.0 + h.1 == coords
    ensures |h.0| == |coords| / 2
    ensures |coords| >= 4 ==> 2 <= |h.0| < |coords| && 2 <= |h.1| < |coords|
    ensures SortedBy(coords, X) ==> SortedBy(h.0, X) && SortedBy(h.1, X)
  {
    var mid := |coords| / 2;
    assert coords[..mid] + coords[mid..] == coords;
    (coords[..mid], coords[mid..])
  }

  /** `MDP`: the divide-and-conquer solver; finite exactly when there is a pair. */
  function Solve(coords: seq<Point>): (r: Dist)
    ensures r.Fin? <==> |coords| >= 2
    decreases |coords|
  {
    if |coords| <= 3 then BruteForce(coords)
    else
      var mid := |coords| / 2;
      var leftMin := Solve(Halves(coords).0);
      var rightMin := Solve(Halves(coords).1);
      var currMin := Min(leftMin, rightMin);
      Sweep(Strip(coords, coords[mid].x, currMin), 0, Window, currMin)
  }

  /** `MDP2`: sort by x, then solve; the minimum pairwise distance of any input. */
  function ClosestPair(coords: seq<Point>): (r: Dist)
    ensures IsClosest(coords, r)
  {
    var sorted := SortBy(coords, X);
    SolveComplete(sorted);
    ClosestPermutation(sorted, coords, Solve(sorted));
    Solve(sorted)
  }

  /** The positions of `coords[..n]` that pass the strip test, ascending. */
  ghost function BandIndices(coords: seq<Point>, midx: int, currMin: Dist, n: nat): (r: seq<nat>)
    requires n <= |coords|
    ensures Within(r, n)
  {
    if n == 0 then []
    else
      var init := BandIndices(coords, midx, currMin, n - 1);
      if InBand(coords[n - 1], midx, currMin) then init + [n - 1] else init
  }

  /** The positions in `idx` strictly increase. */
  ghost predicate Ascending(idx: seq<nat>)
  {
    forall t1, t2 :: 0 <= t1 < t2 < |idx| ==> idx[t1] < idx[t2]
  }

  /** `BandIndices` lists positions in ascending order. */
  lemma {:induction false} BandIndicesAscending(coords: seq<Point>, midx: int, currMin: Dist, n: nat)
    requires n <= |coords|
    ensures Ascending(BandIndices(coords, midx, currMin, n))
  {
    if n > 0 {
      BandIndicesAscending(coords, midx, currMin, n - 1);
      var init := BandIndices(coords, midx, currMin, n - 1);
      if InBand(coords[n - 1], midx, currMin) {
        var r := init + [n - 1];
        forall t1, t2 | 0 <= t1 < t2 < |r| ensures r[t1] < r[t2] {
          assert r[t1] == init[t1] && init[t1] < n - 1;
          if t2 < |init| {
            assert r[t2] == init[t2];
          }
        }
      }
    }
  }

  /** `BandIndices` lists exactly the positions whose points pass the strip test. */
  lemma {:induction false} BandIndicesMembers(coords: seq<Point>, midx: int, currMin: Dist, n: nat)
    requires n <= |coords|
    ensures var r := BandIndices(coords, midx, currMin, n);
            forall k :: 0 <= k < n ==> (k in r <==> InBand(coords[k], midx, currMin))
  {
    if n > 0 {
      BandIndicesMembers(coords, midx, currMin, n - 1);
    }
  }

  /** Picking the points at `BandIndices` gives the strip loop's list. */
  lemma {:induction false} BandIndicesKeep(coords: seq<Point>, midx: int, currMin: Dist, n: nat)
    requires n <= |coords|
    ensures Pick(coords, BandIndices(coords, midx, currMin, n)) == Keep(coords[..n], midx, currMin)
  {
    if n > 0 {
      BandIndicesKeep(coords, midx, currMin, n - 1);
      KeepPrefix(coords, midx, currMin, n);
      var init := BandIndices(coords, midx, currMin, n - 1);
      if InBand(coords[n - 1], midx, currMin) {
        assert Pick(coords, init + [n - 1]) == Pick(coords, init) + [coords[n - 1]];
      }
    } else {
      assert coords[..0] == [];
    }
  }

  lemma KeepPrefix(coords: seq<Point>, midx: int, currMin: Dist, n: nat)
    requires 0 < n <= |coords|
    ensures Keep(coords[..n], midx, currMin)
            == Keep(coords[..n - 1], midx, currMin)
               + (if InBand(coords[n - 1], midx, currMin) then [coords[n - 1]] else [])
  {
    assert coords[..n][..n - 1] == coords[..n - 1];
  }

  /**
    `idx` is the strip seen as positions of `coords`: different positions,
    exactly those passing the strip test, listed in the strip's order.
   */
  ghost predicate StripView(coords: seq<Point>, midx: int, currMin: Dist, idx: seq<nat>)
  {
    && Within(idx, |coords|)
    && Distinct(idx)
    && Pick(coords, idx) == Strip(coords, midx, currMin)
    && (forall k :: 0 <= k < |coords| ==> (k in idx <==> InBand(coords[k], midx, currMin)))
  }

  lemma StripIndices(coords: seq<Point>, midx: int, currMin: Dist) returns (idx: seq<nat>)
    ensures StripView(coords, midx, currMin, idx)
  {
    var band := BandIndices(coords, midx, currMin, |coords|);
    BandIndicesAscending(coords, midx, currMin, |coords|);
    BandIndicesMembers(coords, midx, currMin, |coords|);
    BandIndicesKeep(coords, midx, currMin, |coords|);
    assert coords[..|coords|] == coords;
    idx := SortIndices(band, coords, Y);
  }

  /** The combine step returns `currMin` or the distance of a pair of `coords`. */
  lemma CombineSound(coords: seq<Point>, leftMin: Dist, rightMin: Dist)
    requires |coords| >= 4
    requires leftMin.Fin? ==> IsPairDist(Halves(coords).0, leftMin.sq)
    requires rightMin.Fin? ==> IsPairDist(Halves(coords).1, rightMin.sq)
    ensures var currMin := Min(leftMin, rightMin);
            var r := Sweep(Strip(coords, coords[|coords| / 2].x, currMin), 0, Window, currMin);
            r.Fin? ==> IsPairDist(coords, r.sq)
  {
    var mid := |coords| / 2;
    var currMin := Min(leftMin, rightMin);
    var strip := Strip(coords, coords[mid].x, currMin);
    var r := Sweep(strip, 0, Window, currMin);
    if r.Fin? {
      if r == currMin {
        if r == leftMin {
          assert coords[0..mid] == Halves(coords).0;
          PairDistOfSlice(coords, 0, mid, r.sq);
        } else {
          assert coords[mid..|coords|] == Halves(coords).1;
          PairDistOfSlice(coords, mid, |coords|, r.sq);
        }
      } else {
        var a, b :| InWindow(|strip|, 0, Window, a, b) && r == Fin(SqDist(strip[a], strip[b]));
        var idx := StripIndices(coords, coords[mid].x, currMin);
        PairDistOfPositions(coords, idx[a], idx[b]);
      }
    }
  }

  /** Soundness, for every input: `MDP` returns `Inf` or the distance of an actual pair. */
  lemma {:induction false} SolveSound(coords: seq<Point>)
    ensures Solve(coords).Fin? ==> IsPairDist(coords, Solve(coords).sq)
    ensures |coords| >= 4 ==>
              Le(Solve(coords), Min(Solve(Halves(coords).0), Solve(Halves(coords).1)))
    decreases |coords|
  {
    if |coords| > 3 {
      SolveSound(Halves(coords).0);
      SolveSound(Halves(coords).1);
      CombineSound(coords, Solve(Halves(coords).0), Solve(Halves(coords).1));
    }
  }

  /** No pair inside either half is closer than `d`. */
  ghost predicate HalvesApart(coords: seq<Point>, mid: nat, d: int)
    requires mid <= |coords|
  {
    && (forall i, j :: 0 <= i < j < mid ==> d <= SqDist(coords[i], coords[j]))
    && (forall i, j :: mid <= i < j < |coords| ==> d <= SqDist(coords[i], coords[j]))
  }

  lemma HalvesApartFromMinima(coords: seq<Point>, leftMin: Dist, rightMin: Dist)
    requires |coords| >= 4
    requires Below(Halves(coords).0, leftMin) && Below(Halves(coords).1, rightMin)
    requires Min(leftMin, rightMin).Fin?
    ensures HalvesApart(coords, |coords| / 2, Min(leftMin, rightMin).sq)
  {
    var mid := |coords| / 2;
    var currMin := Min(leftMin, rightMin);
    var left, right := Halves(coords).0, Halves(coords).1;
    assert left + right == coords && |left| == mid;
    forall i, j | 0 <= i < j < mid ensures currMin.sq <= SqDist(coords[i], coords[j]) {
      assert (left + right)[i] == left[i] && (left + right)[j] == left[j];
      LeTrans(currMin, leftMin, Fin(SqDist(left[i], left[j])));
    }
    forall i, j | mid <= i < j < |coords| ensures currMin.sq <= SqDist(coords[i], coords[j]) {
      assert (left + right)[i] == right[i - mid] && (left + right)[j] == right[j - mid];
      LeTrans(currMin, rightMin, Fin(SqDist(right[i - mid], right[j - mid])));
    }
  }

  /** Along the strip's positions the y-coordinates ascend. */
  lemma StripViewSorted(coords: seq<Point>, midx: int, currMin: Dist, idx: seq<nat>)
    requires StripView(coords, midx, currMin, idx)
    ensures forall t1, t2 :: 0 <= t1 < t2 < |idx| ==> coords[idx[t1]].y <= coords[idx[t2]].y
  {
    var strip := Pick(coords, idx);
    forall t1, t2 | 0 <= t1 < t2 < |idx| ensures coords[idx[t1]].y <= coords[idx[t2]].y {
      assert Y(strip[t1]) <= Y(strip[t2]);
    }
  }

  /** Every strip point lies within `sqrt(d)` of the midline. */
  lemma StripViewInBand(coords: seq<Point>, midx: int, d: int, idx: seq<nat>)
    requires StripView(coords, midx, Fin(d), idx)
    ensures forall t :: 0 <= t < |idx| ==> Sq(coords[idx[t]].x - midx) <= d
  {
    forall t | 0 <= t < |idx| ensures Sq(coords[idx[t]].x - midx) <= d {
      assert idx[t] in idx;
      SqNeg(midx - coords[idx[t]].x);
    }
  }

  /** In x-sorted input, the left half lies left of the midline and the right half right of it. */
  lemma SplitByMidline(coords: seq<Point>, mid: nat)
    requires SortedBy(coords, X) && mid < |coords|
    ensures forall k :: 0 <= k < mid ==> coords[k].x <= coords[mid].x
    ensures forall k :: mid <= k < |coords| ==> coords[mid].x <= coords[k].x
  {
    forall k | 0 <= k < mid ensures coords[k].x <= coords[mid].x {
      assert X(coords[k]) <= X(coords[mid]);
    }
    forall k | mid <= k < |coords| ensures coords[mid].x <= coords[k].x {
      if mid < k {
        assert X(coords[mid]) <= X(coords[k]);
      }
    }
  }

  /** Two strip points 8 or more places apart are at least `sqrt(d)` apart. */
  lemma FarApartInStrip(coords: seq<Point>, d: int, idx: seq<nat>, lo: nat, hi: nat)
    requires |coords| >= 4 && SortedBy(coords, X) && d > 0
    requires HalvesApart(coords, |coords| / 2, d)
    requires StripView(coords, coords[|coords| / 2].x, Fin(d), idx)
    requires lo + 8 <= hi < |idx|
    ensures d <= SqDist(coords[idx[lo]], coords[idx[hi]])
  {
    var mid := |coords| / 2;
    StripViewSorted(coords, coords[mid].x, Fin(d), idx);
    StripViewInBand(coords, coords[mid].x, d, idx);
    SplitByMidline(coords, mid);
    assert Within(idx, |coords|) && Distinct(idx);
    assert HalvesApart(coords, mid, d);
    Packing.Packing(coords, mid, d, idx, lo, hi);
    SqDistAtLeastDy(coords[idx[lo]], coords[idx[hi]]);
  }

  /** A pair straddling the split whose two points both lie in the strip. */
  lemma CrossPairInStrip(coords: seq<Point>, d: int, idx: seq<nat>, r: Dist, i: nat, j: nat)
    requires |coords| >= 4 && SortedBy(coords, X) && d >= 0
    requires HalvesApart(coords, |coords| / 2, d)
    requires StripView(coords, coords[|coords| / 2].x, Fin(d), idx)
    requires IsWindowMin(Pick(coords, idx), 0, Window, Fin(d), r)
    requires i < j < |coords| && i in idx && j in idx
    ensures Le(r, Fin(SqDist(coords[i], coords[j])))
  {
    var p :| 0 <= p < |idx| && idx[p] == i;
    var q :| 0 <= q < |idx| && idx[q] == j;
    var lo, hi := if p < q then p else q, if p < q then q else p;
    var dist := SqDist(coords[idx[lo]], coords[idx[hi]]);
    assert dist == SqDist(coords[i], coords[j]) by {
      DistanceProperties(coords[i], coords[j]);
    }
    if hi <= lo + Window {
      assert InWindow(|idx|, 0, Window, lo, hi);
      assert Pick(coords, idx)[lo] == coords[idx[lo]] && Pick(coords, idx)[hi] == coords[idx[hi]];
    } else {
      if d > 0 {
        FarApartInStrip(coords, d, idx, lo, hi);
      } else {
        DistanceProperties(coords[i], coords[j]);
      }
      LeTrans(r, Fin(d), Fin(dist));
    }
  }

  /** A pair straddling the split with a point outside the strip is too far apart horizontally. */
  lemma CrossPairOutsideStrip(coords: seq<Point>, d: int, i: nat, j: nat)
    requires |coords| >= 4 && SortedBy(coords, X)
    requires i < |coords| / 2 <= j < |coords|
    requires !InBand(coords[i], coords[|coords| / 2].x, Fin(d)) || !InBand(coords[j], coords[|coords| / 2].x, Fin(d))
    ensures d < SqDist(coords[i], coords[j])
  {
    var midx := coords[|coords| / 2].x;
    var xi, xj := coords[i].x, coords[j].x;
    assert xi <= midx <= xj by {
      assert X(coords[i]) <= X(coords[|coords| / 2]);
      if j > |coords| / 2 {
        assert X(coords[|coords| / 2]) <= X(coords[j]);
      }
    }
    SqDistAtLeastDx(coords[i], coords[j]);
    if !InBand(coords[i], midx, Fin(d)) {
      SquareMono(midx - xi, xj - xi);
    } else {
      SqNeg(midx - xj);
      SquareMono(xj - midx, xj - xi);
    }
  }

  /** Every pair of `coords` is at least the combine step's result. */
  lemma CombinePair(coords: seq<Point>, d: int, idx: seq<nat>, r: Dist, i: nat, j: nat)
    requires |coords| >= 4 && SortedBy(coords, X) && d >= 0
    requires HalvesApart(coords, |coords| / 2, d)
    requires StripView(coords, coords[|coords| / 2].x, Fin(d), idx)
    requires IsWindowMin(Pick(coords, idx), 0, Window, Fin(d), r)
    requires i < j < |coords|
    ensures Le(r, Fin(SqDist(coords[i], coords[j])))
  {
    var mid := |coords| / 2;
    if j < mid || mid <= i {
      LeTrans(r, Fin(d), Fin(SqDist(coords[i], coords[j])));
    } else if i in idx && j in idx {
      CrossPairInStrip(coords, d, idx, r, i, j);
    } else {
      CrossPairOutsideStrip(coords, d, i, j);
      LeTrans(r, Fin(d), Fin(SqDist(coords[i], coords[j])));
    }
  }

  /** When both halves have a pair, the smaller of their minima is a finite, non-negative distance. */
  lemma MinimaFinite(coords: seq<Point>, leftMin: Dist, rightMin: Dist)
    requires |coords| >= 4
    requires IsClosest(Halves(coords).0, leftMin) && IsClosest(Halves(coords).1, rightMin)
    ensures Min(leftMin, rightMin).Fin? && Min(leftMin, rightMin).sq >= 0
  {
    var left, right := Halves(coords).0, Halves(coords).1;
    if Min(leftMin, rightMin) == leftMin {
      var i, j :| 0 <= i < j < |left| && SqDist(left[i], left[j]) == leftMin.sq;
      DistanceProperties(left[i], left[j]);
    } else {
      var i, j :| 0 <= i < j < |right| && SqDist(right[i], right[j]) == rightMin.sq;
      DistanceProperties(right[i], right[j]);
    }
  }

  /** The strip scan started from `d` is below every pair of `coords` when neither half has a pair closer than `d`. */
  lemma StripScanBelow(coords: seq<Point>, d: int)
    requires |coords| >= 4 && SortedBy(coords, X) && d >= 0
    requires HalvesApart(coords, |coords| / 2, d)
    ensures Below(coords, Sweep(Strip(coords, coords[|coords| / 2].x, Fin(d)), 0, Window, Fin(d)))
  {
    var midx := coords[|coords| / 2].x;
    var r := Sweep(Strip(coords, midx, Fin(d)), 0, Window, Fin(d));
    var idx := StripIndices(coords, midx, Fin(d));
    assert IsWindowMin(Pick(coords, idx), 0, Window, Fin(d), r);
    forall i, j | 0 <= i < j < |coords| ensures Le(r, Fin(SqDist(coords[i], coords[j]))) {
      CombinePair(coords, d, idx, r, i, j);
    }
  }

  /** The combine step: from the minima of the two halves, the minimum of the whole. */
  lemma CombineComplete(coords: seq<Point>, leftMin: Dist, rightMin: Dist)
    requires |coords| >= 4 && SortedBy(coords, X)
    requires IsClosest(Halves(coords).0, leftMin) && IsClosest(Halves(coords).1, rightMin)
    ensures var currMin := Min(leftMin, rightMin);
            IsClosest(coords, Sweep(Strip(coords, coords[|coords| / 2].x, currMin), 0, Window, currMin))
  {
    var currMin := Min(leftMin, rightMin);
    MinimaFinite(coords, leftMin, rightMin);
    CombineSound(coords, leftMin, rightMin);
    HalvesApartFromMinima(coords, leftMin, rightMin);
    StripScanBelow(coords, currMin.sq);
  }

  /** Completeness: on x-sorted input `MDP` returns the minimum pairwise distance. */
  lemma {:induction false} SolveComplete(coords: seq<Point>)
    requires SortedBy(coords, X)
    ensures IsClosest(coords, Solve(coords))
    decreases |coords|
  {
    if |coords| > 3 {
      SolveComplete(Halves(coords).0);
      SolveComplete(Halves(coords).1);
      CombineComplete(coords, Solve(Halves(coords).0), Solve(Halves(coords).1));
    }
  }

  /** On x-sorted input `MDP` and `bruteForce` agree. */
  lemma SolveIsBruteForce(coords: seq<Point>)
    requires SortedBy(coords, X)
    ensures Solve(coords) == BruteForce(coords)
  {
    SolveComplete(coords);
    ClosestUnique(coords, Solve(coords), BruteForce(coords));
  }

  /** `MDP2` and `bruteForce` agree on every input. */
  lemma ClosestPairIsBruteForce(coords: seq<Point>)
    ensures ClosestPair(coords) == BruteForce(coords)
  {
    ClosestUnique(coords, ClosestPair(coords), BruteForce(coords));
  }
}
