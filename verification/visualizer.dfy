/**
  The instrumented solver of `visualizer.py`.

  Its `bruteForce` also returns `pairs_checked`, the list of every pair it
  compared with that pair's distance. Its `ClosestPairVisualizer.MDP` is
  `MDP` with two additions: every stage appends a snapshot to the step
  log (`record_step`), and the strip scan leaves the inner loop as soon as
  the y-gap reaches the current minimum.

  The snapshot log is threaded through the recursion as a plain value,
  so "`record_step` only appends" becomes a statement about sequence
  prefixes. The early exit compares the y-gap with the distance, so it is
  squared like every other comparison here: `gap >= sqrt(D)` is
  `gap >= 0 && gap * gap >= D`.
 */
module Visualizer {
  import opened Geometry
  import opened Sorting
  import opened Pairs
  import opened Sweeps
  import Mdp

  // ---------------------------------------------------------------------
  // bruteForce with pairs_checked
  // ---------------------------------------------------------------------

  /** An entry of `pairs_checked`: the two points compared and their squared distance. */
  datatype Checked = Checked(p: Point, q: Point, sq: int)

  /** The inner loop of the logging `bruteForce`: compares `s[i]` with `s[j..]`. */
  function BruteRow(s: seq<Point>, i: nat, j: nat, minDis: Dist, log: seq<Checked>): (r: (Dist, seq<Checked>))
    requires i < |s|
    decreases |s| - j
    ensures log <= r.1
  {
    if j >= |s| then (minDis, log)
    else
      var dist := SqDist(s[i], s[j]);
      BruteRow(s, i, j + 1, Min(Fin(dist), minDis), log + [Checked(s[i], s[j], dist)])
  }

  /** The outer loop of the logging `bruteForce`, from row `i` on. */
  function BruteLoop(s: seq<Point>, i: nat, minDis: Dist, log: seq<Checked>): (r: (Dist, seq<Checked>))
    decreases |s| - i
    ensures log <= r.1
  {
    if i + 1 >= |s| then (minDis, log)
    else
      var row := BruteRow(s, i, i + 1, minDis, log);
      BruteLoop(s, i + 1, row.0, row.1)
  }

  /** `bruteForce` of `visualizer.py`: the minimum and the list of pairs checked. */
  function BruteForceLogged(coords: seq<Point>): (r: (Dist, seq<Checked>))
    ensures |coords| == 1 ==> r == (Inf, [])
    ensures r.0 == Mdp.BruteForce(coords)
    ensures r.1 == AllChecks(coords)
  {
    if |coords| == 1 then (Inf, [])
    else
      BruteLoopSpec(coords, 0, Inf, []);
      assert [] + PairsFrom(coords, 0) == AllChecks(coords);
      assert Mdp.BruteForce(coords) == Sweep(coords, 0, |coords|, Inf);
      BruteLoop(coords, 0, Inf, [])
  }

  /** The entries row `i` contributes from column `j` on, written as a comprehension. */
  function RowChecks(s: seq<Point>, i: nat, j: nat): (r: seq<Checked>)
    requires i < |s| && j <= |s|
    ensures |r| == |s| - j
    ensures forall k :: 0 <= k < |r| ==> r[k] == Checked(s[i], s[j + k], SqDist(s[i], s[j + k]))
  {
    seq(|s| - j, k requires 0 <= k < |s| - j => Checked(s[i], s[j + k], SqDist(s[i], s[j + k])))
  }

  /** The rows from `i` on, one after the other. */
  function PairsFrom(s: seq<Point>, i: nat): seq<Checked>
    decreases |s| - i
  {
    if i + 1 >= |s| then [] else RowChecks(s, i, i + 1) + PairsFrom(s, i + 1)
  }

  /** Every pair `i < j` of `coords`, row by row. */
  function AllChecks(coords: seq<Point>): seq<Checked>
  {
    PairsFrom(coords, 0)
  }

  lemma {:induction false} BruteRowSpec(s: seq<Point>, i: nat, j: nat, minDis: Dist, log: seq<Checked>)
    requires i < |s| && j <= |s|
    ensures BruteRow(s, i, j, minDis, log).0 == RowMin(s, i, j, |s|, minDis)
    ensures BruteRow(s, i, j, minDis, log).1 == log + RowChecks(s, i, j)
    decreases |s| - j
  {
    if j < |s| {
      var dist := SqDist(s[i], s[j]);
      var entry := Checked(s[i], s[j], dist);
      BruteRowSpec(s, i, j + 1, Min(Fin(dist), minDis), log + [entry]);
      assert RowChecks(s, i, j) == [entry] + RowChecks(s, i, j + 1);
    }
  }

  lemma {:induction false} BruteLoopSpec(s: seq<Point>, i: nat, minDis: Dist, log: seq<Checked>)
    ensures BruteLoop(s, i, minDis, log).0 == Sweep(s, i, |s|, minDis)
    ensures BruteLoop(s, i, minDis, log).1 == log + PairsFrom(s, i)
    decreases |s| - i
  {
    if i + 1 < |s| {
      BruteRowSpec(s, i, i + 1, minDis, log);
      assert Upper(i, |s|, |s|) == |s|;
      var row := BruteRow(s, i, i + 1, minDis, log);
      BruteLoopSpec(s, i + 1, row.0, row.1);
      ChecksShift(log, RowChecks(s, i, i + 1), PairsFrom(s, i + 1));
    } else {
      assert log + [] == log;
    }
  }

  lemma ChecksShift(log: seq<Checked>, row: seq<Checked>, rest: seq<Checked>)
    ensures log + row + rest == log + (row + rest)
  {
  }

  /** Pairs in rows `0 .. i - 1`: the position where row `i` starts. */
  function RowStart(n: nat, i: nat): nat
    requires i <= n
  {
    if i == 0 then 0 else RowStart(n, i - 1) + (n - i)
  }

  /** The position of the pair `(i, j)` in lexicographic order. */
  function PairSlot(n: nat, i: nat, j: nat): nat
    requires i < j < n
  {
    RowStart(n, i) + (j - i - 1)
  }

  lemma {:induction false} RowStartMono(n: nat, a: nat, b: nat)
    requires a <= b <= n
    ensures RowStart(n, a) <= RowStart(n, b)
    decreases b - a
  {
    if a < b {
      RowStartMono(n, a, b - 1);
    }
  }

  /** Slots follow the lexicographic order of pairs, so distinct pairs get distinct slots. */
  lemma PairSlotLex(n: nat, i: nat, j: nat, i': nat, j': nat)
    requires i < j < n && i' < j' < n
    requires i < i' || (i == i' && j < j')
    ensures PairSlot(n, i, j) < PairSlot(n, i', j')
  {
    if i < i' {
      RowStartMono(n, i + 1, i');
    }
  }

  /** The pair `(i, j)` sits at its slot, counted from the start of row `i0`. */
  lemma {:induction false} PairsFromSlot(s: seq<Point>, i0: nat, i: nat, j: nat)
    requires i0 <= i < j < |s|
    ensures RowStart(|s|, i0) <= PairSlot(|s|, i, j)
    ensures PairSlot(|s|, i, j) - RowStart(|s|, i0) < |PairsFrom(s, i0)|
    ensures PairsFrom(s, i0)[PairSlot(|s|, i, j) - RowStart(|s|, i0)] == Checked(s[i], s[j], SqDist(s[i], s[j]))
    decreases i - i0
  {
    var row := RowChecks(s, i0, i0 + 1);
    assert PairsFrom(s, i0) == row + PairsFrom(s, i0 + 1);
    if i0 < i {
      PairsFromSlot(s, i0 + 1, i, j);
      assert RowStart(|s|, i0 + 1) == RowStart(|s|, i0) + |row|;
    } else {
      assert row[j - i - 1] == Checked(s[i], s[j], SqDist(s[i], s[j]));
    }
  }

  /** Every entry of the rows from `i0` on is a pair `i < j` with its distance. */
  lemma {:induction false} PairsFromEntries(s: seq<Point>, i0: nat, k: nat)
    requires k < |PairsFrom(s, i0)|
    ensures exists i, j :: i0 <= i < j < |s| && PairsFrom(s, i0)[k] == Checked(s[i], s[j], SqDist(s[i], s[j]))
    decreases |s| - i0
  {
    var row := RowChecks(s, i0, i0 + 1);
    assert PairsFrom(s, i0) == row + PairsFrom(s, i0 + 1);
    if k < |row| {
      assert PairsFrom(s, i0)[k] == row[k];
    } else {
      PairsFromEntries(s, i0 + 1, k - |row|);
    }
  }

  /** The rows from `i` on hold `m * (m - 1) / 2` entries for the `m` points `s[i..]`. */
  lemma {:induction false} PairsFromLength(s: seq<Point>, i: nat)
    requires i <= |s|
    ensures 2 * |PairsFrom(s, i)| == (|s| - i) * (|s| - i - 1)
    decreases |s| - i
  {
    if i + 1 < |s| {
      PairsFromLength(s, i + 1);
      var m := |s| - i;
      assert m * (m - 1) == 2 * (m - 1) + (m - 1) * (m - 2);
    }
  }

  /**
    `pairs_checked` lists each pair `i < j` of `coords` exactly once, in
    lexicographic order, with its distance: it has one entry per pair, the
    entry at the pair's slot is that pair, and slots follow the order.
   */
  lemma PairsCheckedAreAllPairs(coords: seq<Point>)
    ensures 2 * |BruteForceLogged(coords).1| == |coords| * (|coords| - 1)
    ensures forall i, j :: 0 <= i < j < |coords| ==>
              PairSlot(|coords|, i, j) < |BruteForceLogged(coords).1| &&
              BruteForceLogged(coords).1[PairSlot(|coords|, i, j)] == Checked(coords[i], coords[j], SqDist(coords[i], coords[j]))
  {
    PairsFromLength(coords, 0);
    forall i, j | 0 <= i < j < |coords|
      ensures PairSlot(|coords|, i, j) < |AllChecks(coords)|
      ensures AllChecks(coords)[PairSlot(|coords|, i, j)] == Checked(coords[i], coords[j], SqDist(coords[i], coords[j]))
    {
      PairsFromSlot(coords, 0, i, j);
    }
  }

  /**
    The returned `minDis` is the minimum of the distances in
    `pairs_checked`, and infinity exactly when that list is empty.
   */
  lemma LoggedMinimum(coords: seq<Point>)
    ensures var r := BruteForceLogged(coords);
            && (r.0 == Inf <==> |r.1| == 0)
            && (forall k :: 0 <= k < |r.1| ==> Le(r.0, Fin(r.1[k].sq)))
            && (r.0.Fin? ==> exists k :: 0 <= k < |r.1| && r.1[k].sq == r.0.sq)
  {
    var r := BruteForceLogged(coords);
    assert IsClosest(coords, r.0);
    PairsCheckedAreAllPairs(coords);
    if |coords| >= 2 {
      assert 2 * |r.1| >= 2 by {
        assert |coords| * (|coords| - 1) >= 2 * 1 by {
          MulMono(|coords|, |coords| - 1);
        }
      }
    } else {
      assert |coords| * (|coords| - 1) == 0;
    }
    forall k | 0 <= k < |r.1| ensures Le(r.0, Fin(r.1[k].sq)) {
      PairsFromEntries(coords, 0, k);
    }
    if r.0.Fin? {
      var i, j :| 0 <= i < j < |coords| && SqDist(coords[i], coords[j]) == r.0.sq;
      assert r.1[PairSlot(|coords|, i, j)].sq == r.0.sq;
    }
  }

  // ---------------------------------------------------------------------
  // ClosestPairVisualizer.MDP with the step log
  // ---------------------------------------------------------------------

  /** The `type` of a snapshot, with the fields that vary by type. */
  datatype StepKind =
    | BaseCase(pairs: seq<Checked>)
    | Divide(midx: int)
    | Combine(leftMin: Dist, rightMin: Dist)
    | StripFormed(strip: seq<Point>)
    | Checking(p: Point, q: Point)

  /** A snapshot: its type, the points of the call, the current minimum and the recursion depth. */
  datatype Step = Step(kind: StepKind, coords: seq<Point>, delta: Dist, depth: nat)

  /** The early exit `strip[j][1] - strip[i][1] >= curr_min`, squared; never taken while the minimum is infinite. */
  predicate GapReaches(gap: int, currMin: Dist)
  {
    match currMin
    case Inf => false
    case Fin(d) => gap >= 0 && Sq(gap) >= d
  }

  /** The update `if dist < curr_min: curr_min = dist`. */
  function Lower(dist: int, currMin: Dist): (r: Dist)
    ensures r == Min(Fin(dist), currMin)
  {
    if Lt(Fin(dist), currMin) then Fin(dist) else currMin
  }

  /** The inner loop of the strip scan, comparing `s[i]` with `s[j..hi]` until the y-gap is too large. */
  function VisRow(s: seq<Point>, i: nat, j: nat, hi: nat, acc: Dist, coords: seq<Point>, depth: nat, steps: seq<Step>)
    : (r: (Dist, seq<Step>))
    requires i < |s| && hi <= |s|
    decreases hi - j
    ensures steps <= r.1
  {
    if j >= hi then (acc, steps)
    else if GapReaches(s[j].y - s[i].y, acc) then (acc, steps)
    else
      var steps' := steps + [Step(Checking(s[i], s[j]), coords, acc, depth)];
      VisRow(s, i, j + 1, hi, Lower(SqDist(s[i], s[j]), acc), coords, depth, steps')
  }

  /** The outer loop of the strip scan, from row `i` on. */
  function VisScan(s: seq<Point>, i: nat, acc: Dist, coords: seq<Point>, depth: nat, steps: seq<Step>)
    : (r: (Dist, seq<Step>))
    decreases |s| - i
    ensures steps <= r.1
  {
    if i + 1 >= |s| then (acc, steps)
    else
      var row := VisRow(s, i, i + 1, Upper(i, Mdp.Window, |s|), acc, coords, depth, steps);
      VisScan(s, i + 1, row.0, coords, depth, row.1)
  }

  /**
    `ClosestPairVisualizer.MDP`: the result and the step log after the
    call, given the log before it. The log only grows, and for three
    points or fewer the result is that of `bruteForce`.
   */
  function VisSolve(coords: seq<Point>, depth: nat, steps: seq<Step>): (r: (Dist, seq<Step>))
    decreases |coords|
    ensures steps <= r.1 && |steps| < |r.1|
    ensures |coords| <= 3 ==> r.0 == Mdp.BruteForce(coords)
  {
    if |coords| <= 3 then
      var base := BruteForceLogged(coords);
      (base.0, steps + [Step(BaseCase(base.1), coords, base.0, depth)])
    else
      var steps1 := steps + [Step(Divide(coords[|coords| / 2].x), coords, Inf, depth)];
      var l := VisSolve(Mdp.Halves(coords).0, depth + 1, steps1);
      var rt := VisSolve(Mdp.Halves(coords).1, depth + 1, l.1);
      VisCombine(coords, depth, l.0, rt.0, rt.1)
  }

  /** The combine step of the recording solver: record the minimum of both halves, build and record the strip, scan it. */
  function VisCombine(coords: seq<Point>, depth: nat, leftMin: Dist, rightMin: Dist, steps: seq<Step>): (r: (Dist, seq<Step>))
    requires |coords| > 0
    ensures steps <= r.1 && |steps| + 2 <= |r.1|
  {
    var midx := coords[|coords| / 2].x;
    var currMin := Min(leftMin, rightMin);
    var steps2 := steps + [Step(Combine(leftMin, rightMin), coords, currMin, depth)];
    var strip := Mdp.Strip(coords, midx, currMin);
    var steps3 := steps2 + [Step(StripFormed(strip), coords, currMin, depth)];
    VisScan(strip, 0, currMin, coords, depth, steps3)
  }

  /** `show_step_by_step`'s computation: sort by x, then run the recording solver from an empty log. */
  function VisClosestPair(points: seq<Point>): (r: (Dist, seq<Step>))
    ensures IsClosest(points, r.0)
  {
    var sorted := SortBy(points, X);
    VisSolveIsSolve(sorted, 0, []);
    Mdp.SolveComplete(sorted);
    ClosestPermutation(sorted, points, Mdp.Solve(sorted));
    VisSolve(sorted, 0, [])
  }

  /** A row whose remaining distances are all at least `acc` leaves `acc` unchanged. */
  lemma {:induction false} RowMinStays(s: seq<Point>, i: nat, j: nat, hi: nat, acc: Dist)
    requires i < |s| && hi <= |s|
    requires forall k :: j <= k < hi ==> Le(acc, Fin(SqDist(s[i], s[k])))
    ensures RowMin(s, i, j, hi, acc) == acc
    decreases hi - j
  {
    if j < hi {
      var dist := Fin(SqDist(s[i], s[j]));
      if Lt(acc, dist) {
        assert Min(dist, acc) == acc;
      } else {
        LeAntisym(acc, dist);
      }
      RowMinStays(s, i, j + 1, hi, acc);
    }
  }

  /**
    The squared early exit agrees with the source's test against
    `curr_min = sqrt(d)`: `c` is that square root, rational or not.
   */
  lemma GapReachesExact(gap: int, d: int, c: real)
    requires c >= 0.0 && c * c == d as real
    ensures GapReaches(gap, Fin(d)) <==> gap as real >= c
  {
    var g := gap as real;
    SqAsReal(gap);
    if g >= c {
      RealSquareMono(c, g);
    } else if gap >= 0 {
      RealSquareStrictMono(g, c);
    }
  }

  /** In a y-sorted sequence, once the y-gap reaches `acc` every later point of the row is at least `acc` away. */
  lemma GapSkipsFar(s: seq<Point>, i: nat, j: nat, hi: nat, acc: Dist)
    requires i < j && hi <= |s| && SortedBy(s, Y)
    requires j < hi && GapReaches(s[j].y - s[i].y, acc)
    ensures forall k :: j <= k < hi ==> Le(acc, Fin(SqDist(s[i], s[k])))
  {
    forall k | j <= k < hi ensures Le(acc, Fin(SqDist(s[i], s[k]))) {
      assert Y(s[i]) <= Y(s[j]);
      if j < k {
        assert Y(s[j]) <= Y(s[k]);
      }
      SquareMono(s[j].y - s[i].y, s[k].y - s[i].y);
      SqDistAtLeastDy(s[i], s[k]);
    }
  }

  /** On a y-sorted strip the early exit changes nothing: the row gives the break-free row's minimum. */
  lemma {:induction false} VisRowIsRowMin(s: seq<Point>, i: nat, j: nat, hi: nat, acc: Dist,
                                          coords: seq<Point>, depth: nat, steps: seq<Step>)
    requires i < j && i < |s| && hi <= |s| && SortedBy(s, Y)
    ensures VisRow(s, i, j, hi, acc, coords, depth, steps).0 == RowMin(s, i, j, hi, acc)
    decreases hi - j
  {
    if j < hi {
      if GapReaches(s[j].y - s[i].y, acc) {
        GapSkipsFar(s, i, j, hi, acc);
        RowMinStays(s, i, j, hi, acc);
      } else {
        var steps' := steps + [Step(Checking(s[i], s[j]), coords, acc, depth)];
        VisRowIsRowMin(s, i, j + 1, hi, Lower(SqDist(s[i], s[j]), acc), coords, depth, steps');
      }
    }
  }

  /** On a y-sorted strip the scan with early exits computes the scan of `MDP.py`. */
  lemma {:induction false} VisScanIsSweep(s: seq<Point>, i: nat, acc: Dist, coords: seq<Point>, depth: nat, steps: seq<Step>)
    requires SortedBy(s, Y)
    ensures VisScan(s, i, acc, coords, depth, steps).0 == Sweep(s, i, Mdp.Window, acc)
    decreases |s| - i
  {
    if i + 1 < |s| {
      var hi := Upper(i, Mdp.Window, |s|);
      var row := VisRow(s, i, i + 1, hi, acc, coords, depth, steps);
      VisRowIsRowMin(s, i, i + 1, hi, acc, coords, depth, steps);
      VisScanIsSweep(s, i + 1, row.0, coords, depth, row.1);
    }
  }

  /** The recording solver returns what `MDP` returns, on every input. */
  lemma {:induction false} VisSolveIsSolve(coords: seq<Point>, depth: nat, steps: seq<Step>)
    ensures VisSolve(coords, depth, steps).0 == Mdp.Solve(coords)
    decreases |coords|
  {
    if |coords| > 3 {
      var steps1 := steps + [Step(Divide(coords[|coords| / 2].x), coords, Inf, depth)];
      var l := VisSolve(Mdp.Halves(coords).0, depth + 1, steps1);
      var rt := VisSolve(Mdp.Halves(coords).1, depth + 1, l.1);
      VisSolveIsSolve(Mdp.Halves(coords).0, depth + 1, steps1);
      VisSolveIsSolve(Mdp.Halves(coords).1, depth + 1, l.1);
      VisCombineIsCombine(coords, depth, l.0, rt.0, rt.1);
    }
  }

  /** The recording combine step returns the combine step of `MDP`. */
  lemma VisCombineIsCombine(coords: seq<Point>, depth: nat, leftMin: Dist, rightMin: Dist, steps: seq<Step>)
    requires |coords| > 0
    ensures var currMin := Min(leftMin, rightMin);
            VisCombine(coords, depth, leftMin, rightMin, steps).0
            == Sweep(Mdp.Strip(coords, coords[|coords| / 2].x, currMin), 0, Mdp.Window, currMin)
  {
    var midx := coords[|coords| / 2].x;
    var currMin := Min(leftMin, rightMin);
    var steps2 := steps + [Step(Combine(leftMin, rightMin), coords, currMin, depth)];
    var strip := Mdp.Strip(coords, midx, currMin);
    var steps3 := steps2 + [Step(StripFormed(strip), coords, currMin, depth)];
    VisScanIsSweep(strip, 0, currMin, coords, depth, steps3);
  }

  /**
    After a scan that started at `acc` and appended `added` to the log,
    `r` is the minimum of `acc` and the distances of the pairs the
    appended "checking" snapshots name: at most each, and one of them.
   */
  ghost predicate ScanMin(acc: Dist, r: Dist, added: seq<Step>)
  {
    && Le(r, acc)
    && (forall k :: 0 <= k < |added| ==>
          added[k].kind.Checking? && Le(r, Fin(SqDist(added[k].kind.p, added[k].kind.q))))
    && (r == acc || exists k :: 0 <= k < |added| && added[k].kind.Checking? &&
                                r == Fin(SqDist(added[k].kind.p, added[k].kind.q)))
  }

  /** The row only lowers the minimum, to the smallest distance it records as compared. */
  lemma {:induction false} VisRowScanMin(s: seq<Point>, i: nat, j: nat, hi: nat, acc: Dist,
                                         coords: seq<Point>, depth: nat, steps: seq<Step>)
    requires i < |s| && hi <= |s|
    ensures var r := VisRow(s, i, j, hi, acc, coords, depth, steps);
            ScanMin(acc, r.0, r.1[|steps|..])
    decreases hi - j
  {
    var r := VisRow(s, i, j, hi, acc, coords, depth, steps);
    if j < hi && !GapReaches(s[j].y - s[i].y, acc) {
      var check := Step(Checking(s[i], s[j]), coords, acc, depth);
      var steps' := steps + [check];
      var acc' := Lower(SqDist(s[i], s[j]), acc);
      VisRowScanMin(s, i, j + 1, hi, acc', coords, depth, steps');
      var added, rest := r.1[|steps|..], r.1[|steps'|..];
      PeelOne(steps, check, r.1);
      LeTrans(r.0, acc', acc);
      LeTrans(r.0, acc', Fin(SqDist(s[i], s[j])));
      forall k | 0 <= k < |added|
        ensures added[k].kind.Checking? && Le(r.0, Fin(SqDist(added[k].kind.p, added[k].kind.q)))
      {
        if k > 0 {
          assert added[k] == rest[k - 1];
        }
      }
      if r.0 != acc && r.0 != acc' {
        var k :| 0 <= k < |rest| && rest[k].kind.Checking? && r.0 == Fin(SqDist(rest[k].kind.p, rest[k].kind.q));
        assert added[k + 1] == rest[k];
      } else if r.0 != acc {
        assert added[0] == check;
      }
    } else {
      assert r.1[|steps|..] == [];
    }
  }

  /** The strip scan only lowers the minimum, to the smallest distance it records as compared. */
  lemma {:induction false} VisScanScanMin(s: seq<Point>, i: nat, acc: Dist, coords: seq<Point>, depth: nat, steps: seq<Step>)
    ensures var r := VisScan(s, i, acc, coords, depth, steps);
            ScanMin(acc, r.0, r.1[|steps|..])
    decreases |s| - i
  {
    var r := VisScan(s, i, acc, coords, depth, steps);
    if i + 1 < |s| {
      var row := VisRow(s, i, i + 1, Upper(i, Mdp.Window, |s|), acc, coords, depth, steps);
      VisRowScanMin(s, i, i + 1, Upper(i, Mdp.Window, |s|), acc, coords, depth, steps);
      VisScanScanMin(s, i + 1, row.0, coords, depth, row.1);
      ScanMinJoin(acc, row.0, r.0, steps, row.1, r.1);
    } else {
      assert r.1[|steps|..] == [];
    }
  }

  lemma PeelOne(steps: seq<Step>, check: Step, full: seq<Step>)
    requires steps + [check] <= full
    ensures full[|steps|..] == [check] + full[|steps| + 1..]
  {
    assert full[|steps|] == (steps + [check])[|steps|];
  }

  /** Two scans in a row: their logs concatenate and their minima compose. */
  lemma ScanMinJoin(acc: Dist, mid: Dist, r: Dist, log0: seq<Step>, log1: seq<Step>, log2: seq<Step>)
    requires log0 <= log1 <= log2
    requires ScanMin(acc, mid, log1[|log0|..]) && ScanMin(mid, r, log2[|log1|..])
    ensures ScanMin(acc, r, log2[|log0|..])
  {
    var a, b, ab := log1[|log0|..], log2[|log1|..], log2[|log0|..];
    assert ab == a + b;
    LeTrans(r, mid, acc);
    forall k | 0 <= k < |ab|
      ensures ab[k].kind.Checking? && Le(r, Fin(SqDist(ab[k].kind.p, ab[k].kind.q)))
    {
      if k < |a| {
        assert ab[k] == a[k];
        LeTrans(r, mid, Fin(SqDist(a[k].kind.p, a[k].kind.q)));
      } else {
        assert ab[k] == b[k - |a|];
      }
    }
    if r != acc {
      if r == mid {
        var k :| 0 <= k < |a| && a[k].kind.Checking? && mid == Fin(SqDist(a[k].kind.p, a[k].kind.q));
        assert ab[k] == a[k];
      } else {
        var k :| 0 <= k < |b| && b[k].kind.Checking? && r == Fin(SqDist(b[k].kind.p, b[k].kind.q));
        assert ab[|a| + k] == b[k];
      }
    }
  }

  /** The row's result does not depend on the log it is handed, and it only appends to that log. */
  lemma {:induction false} VisRowLog(s: seq<Point>, i: nat, j: nat, hi: nat, acc: Dist,
                                     coords: seq<Point>, depth: nat, steps: seq<Step>)
    requires i < |s| && hi <= |s|
    ensures var own := VisRow(s, i, j, hi, acc, coords, depth, []);
            VisRow(s, i, j, hi, acc, coords, depth, steps) == (own.0, steps + own.1)
    decreases hi - j
  {
    if j < hi && !GapReaches(s[j].y - s[i].y, acc) {
      var check := Step(Checking(s[i], s[j]), coords, acc, depth);
      var acc' := Lower(SqDist(s[i], s[j]), acc);
      VisRowLog(s, i, j + 1, hi, acc', coords, depth, steps + [check]);
      VisRowLog(s, i, j + 1, hi, acc', coords, depth, [check]);
      var x := VisRow(s, i, j + 1, hi, acc', coords, depth, []);
      assert [] + [check] == [check];
      assert VisRow(s, i, j, hi, acc, coords, depth, []) == VisRow(s, i, j + 1, hi, acc', coords, depth, [check]);
      assert (steps + [check]) + x.1 == steps + ([check] + x.1);
    } else {
      assert steps + [] == steps;
    }
  }

  /** The strip scan's result does not depend on the log it is handed, and it only appends to that log. */
  lemma {:induction false} VisScanLog(s: seq<Point>, i: nat, acc: Dist, coords: seq<Point>, depth: nat, steps: seq<Step>)
    ensures var own := VisScan(s, i, acc, coords, depth, []);
            VisScan(s, i, acc, coords, depth, steps) == (own.0, steps + own.1)
    decreases |s| - i
  {
    if i + 1 < |s| {
      var hi := Upper(i, Mdp.Window, |s|);
      VisRowLog(s, i, i + 1, hi, acc, coords, depth, steps);
      var row := VisRow(s, i, i + 1, hi, acc, coords, depth, steps);
      var own := VisRow(s, i, i + 1, hi, acc, coords, depth, []);
      VisScanLog(s, i + 1, row.0, coords, depth, row.1);
      VisScanLog(s, i + 1, row.0, coords, depth, own.1);
      var x := VisScan(s, i + 1, row.0, coords, depth, []);
      assert row.1 == steps + own.1;
      assert (steps + own.1) + x.1 == steps + (own.1 + x.1);
    } else {
      assert steps + [] == steps;
    }
  }

  /** A row appends at most one "checking" snapshot per point it may visit. */
  lemma {:induction false} VisRowCount(s: seq<Point>, i: nat, j: nat, hi: nat, acc: Dist,
                                       coords: seq<Point>, depth: nat, steps: seq<Step>)
    requires i < |s| && hi <= |s|
    ensures |VisRow(s, i, j, hi, acc, coords, depth, steps).1| - |steps| <= (if j < hi then hi - j else 0)
    decreases hi - j
  {
    if j < hi && !GapReaches(s[j].y - s[i].y, acc) {
      var steps' := steps + [Step(Checking(s[i], s[j]), coords, acc, depth)];
      VisRowCount(s, i, j + 1, hi, Lower(SqDist(s[i], s[j]), acc), coords, depth, steps');
    }
  }

  /** The strip scan from row `i` appends at most as many snapshots as the window admits comparisons. */
  lemma {:induction false} VisScanCount(s: seq<Point>, i: nat, acc: Dist, coords: seq<Point>, depth: nat, steps: seq<Step>)
    ensures |VisScan(s, i, acc, coords, depth, steps).1| - |steps| <= Comparisons(|s|, i, Mdp.Window)
    decreases |s| - i
  {
    if i + 1 < |s| {
      var row := VisRow(s, i, i + 1, Upper(i, Mdp.Window, |s|), acc, coords, depth, steps);
      VisRowCount(s, i, i + 1, Upper(i, Mdp.Window, |s|), acc, coords, depth, steps);
      VisScanCount(s, i + 1, row.0, coords, depth, row.1);
    }
  }

  /** The strip scan compares each strip point with at most 7 others: one "checking" snapshot per comparison. */
  lemma StripChecksBound(s: seq<Point>, acc: Dist, coords: seq<Point>, depth: nat, steps: seq<Step>)
    ensures |VisScan(s, 0, acc, coords, depth, steps).1| - |steps| <= Mdp.Window * |s|
  {
    VisScanCount(s, 0, acc, coords, depth, steps);
    ComparisonsBound(|s|, 0, Mdp.Window);
  }

  /**
    `record_step` only appends: the solver's result does not depend on the
    log it is handed, and the log afterwards is the log before it followed
    by the call's own snapshots.
   */
  lemma {:induction false} VisSolveLog(coords: seq<Point>, depth: nat, steps: seq<Step>)
    ensures var own := VisSolve(coords, depth, []);
            VisSolve(coords, depth, steps) == (own.0, steps + own.1)
    decreases |coords|
  {
    if |coords| > 3 {
      var left, right := Mdp.Halves(coords).0, Mdp.Halves(coords).1;
      var divide := [Step(Divide(coords[|coords| / 2].x), coords, Inf, depth)];
      assert [] + divide == divide;
      VisSolveLog(left, depth + 1, steps + divide);
      VisSolveLog(left, depth + 1, divide);
      var l := VisSolve(left, depth + 1, steps + divide);
      var l' := VisSolve(left, depth + 1, divide);
      var ownL := VisSolve(left, depth + 1, []).1;
      LogShift(steps, divide, ownL, l.1, l'.1);
      VisSolveLog(right, depth + 1, l.1);
      VisSolveLog(right, depth + 1, l'.1);
      var rt := VisSolve(right, depth + 1, l.1);
      var rt' := VisSolve(right, depth + 1, l'.1);
      var ownR := VisSolve(right, depth + 1, []).1;
      LogShift(steps, l'.1, ownR, rt.1, rt'.1);
      VisCombineLog(coords, depth, l.0, rt.0, rt'.1, steps);
    } else {
      var base := BruteForceLogged(coords);
      assert steps + ([] + [Step(BaseCase(base.1), coords, base.0, depth)]) == steps + [Step(BaseCase(base.1), coords, base.0, depth)];
    }
  }

  lemma LogShift(steps: seq<Step>, before: seq<Step>, own: seq<Step>, long: seq<Step>, short: seq<Step>)
    requires long == steps + before + own && short == before + own
    ensures long == steps + short
  {
  }

  /** The recording combine step's result does not depend on the log before it, and it only appends. */
  lemma VisCombineLog(coords: seq<Point>, depth: nat, leftMin: Dist, rightMin: Dist, before: seq<Step>, steps: seq<Step>)
    requires |coords| > 0
    ensures var own := VisCombine(coords, depth, leftMin, rightMin, before);
            VisCombine(coords, depth, leftMin, rightMin, steps + before) == (own.0, steps + own.1)
  {
    var midx := coords[|coords| / 2].x;
    var currMin := Min(leftMin, rightMin);
    var strip := Mdp.Strip(coords, midx, currMin);
    var c, f := Step(Combine(leftMin, rightMin), coords, currMin, depth), Step(StripFormed(strip), coords, currMin, depth);
    var short := before + [c] + [f];
    TwoMore(steps, before, c, f);
    VisScanLog(strip, 0, currMin, coords, depth, steps + short);
    VisScanLog(strip, 0, currMin, coords, depth, short);
    var ownS := VisScan(strip, 0, currMin, coords, depth, []).1;
    LogShift(steps, short, ownS, steps + short + ownS, short + ownS);
  }

  lemma TwoMore(steps: seq<Step>, before: seq<Step>, c: Step, f: Step)
    ensures steps + before + [c] + [f] == steps + (before + [c] + [f])
  {
  }

  /**
    The first snapshot of a call: for three points or fewer the base case
    with `bruteForce`'s result and pairs; otherwise the divide step at
    `midpoint_x = coords[n // 2].x` with an infinite minimum.
   */
  lemma FirstStep(coords: seq<Point>, depth: nat, steps: seq<Step>)
    ensures var r := VisSolve(coords, depth, steps);
            if |coords| <= 3 then
              r.1[|steps|] == Step(BaseCase(BruteForceLogged(coords).1), coords, Mdp.BruteForce(coords), depth)
            else
              r.1[|steps|] == Step(Divide(coords[|coords| / 2].x), coords, Inf, depth)
  {
    if |coords| > 3 {
      var divide := Step(Divide(coords[|coords| / 2].x), coords, Inf, depth);
      var l := VisSolve(Mdp.Halves(coords).0, depth + 1, steps + [divide]);
      assert l.1[|steps|] == divide;
    }
  }
}
