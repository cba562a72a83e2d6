# Closest pair of points, divide and conquer

This project models and proves correct the closest-pair computation of a small Python
repository. That computation returns the minimum Euclidean distance over all pairs of a
finite list of planar points. It appears twice in the repository:

- `MDP.py` is the plain solver:
  - `MDP2` sorts by x and calls `MDP`;
  - `MDP` splits at `n // 2`, recurses on both halves and builds the strip of points
    within `curr_min` of the split line;
  - it sorts the strip by y and compares each strip point with at most 7 successors;
  - `bruteForce` handles three points or fewer.
- `visualizer.py` repeats the solver in `ClosestPairVisualizer.MDP` with two additions:
  - a snapshot log (`record_step` appends to `self.steps`);
  - an early exit from the strip scan once the y-gap reaches the current minimum.

  Its `bruteForce` also returns `pairs_checked`, the list of pairs it compared.

The files:

- `geometry.dfy` (`Geometry`): points, squared distance, and `Dist = Inf | Fin(sq)`, the
  distance-or-`float('inf')` value, with Python's `min`.
- `sorting.dfy` (`Sorting`): `sorted(..., key=...)` as a stable insertion sort.
- `pairs.dfy` (`Pairs`): the reference meaning of "minimum pairwise distance"
  (`IsClosest`).
- `sweeps.dfy` (`Sweeps`): the double loop shared by `bruteForce` and the strip scan, with
  an inner window.
- `packing.dfy` (`Packing`): the packing argument that justifies the window of 7.
- `mdp.dfy` (`Mdp`): `bruteForce`, the strip, `MDP` and `MDP2`, with soundness and
  completeness.
- `visualizer.dfy` (`Visualizer`): the logging `bruteForce`, and the recording solver with
  its early exit.

The headline results:

- `Mdp.SolveComplete`: on x-sorted input, `MDP` returns the minimum pairwise distance.
- `Mdp.ClosestPairIsBruteForce`: `MDP2` returns exactly what `bruteForce` returns, on
  every input.
- `Visualizer.VisSolveIsSolve`: the visualizer's solver, with its early exits, returns
  what `MDP` returns, on every input.
- `Visualizer.VisSolveLog`: the snapshot log only grows, and it does not influence the
  result.

All distances are squared. The square root is monotone, so every comparison and every
`min` between distances is unchanged. Two tests become squared comparisons:

- The strip test `abs(mid_x - x) <= curr_min` becomes `(mid_x - x)^2 <= D`.
  `Mdp.InBandExact` proves the two agree for every `D`, with `curr_min` the real square root.
- The early exit `gap >= curr_min` becomes `gap >= 0 && gap^2 >= D`.
  `Visualizer.GapReachesExact` proves the two agree for every `D`, with `curr_min` the real square root.

Coordinates are integers. Scaling all coordinates by one positive factor changes no
comparison, so rational inputs are covered by scaling them.

## Model

| member | source | states |
|---|---|---|
| Geometry.DistanceProperties | MDP.py:52-53 | `distance` is non-negative and symmetric, and it is zero exactly when the two points coincide |
| Geometry.Min | MDP.py:39 | `min(a, b)` on distances with infinity: the result is at most both arguments and is one of them |
| Sorting.SortBy | MDP.py:24-25 | `sorted(coords, key)` returns a permutation of its input (equal multisets) in ascending key order |
| Sorting.InsertAfterEqualKeys | MDP.py:24-25 | the sort is stable: inserting a point into the sorted prefix places it after every leading point whose key is at most its own and before the first larger one, so equal keys keep input order, as in Python's `sorted` |
| Pairs.ClosestUnique | MDP.py:3-18 | the minimum pairwise distance the solvers aim for is unique, so two solvers that both meet it agree |
| Pairs.ClosestPermutation | MDP.py:24-25 | the minimum pairwise distance does not depend on the order of the points, so sorting first cannot change the answer |
| Sweeps.Upper | MDP.py:46 | the inner bound `min(i + 8, len)` is at most `len` and at most `i + 8`, and is one of the two |
| Sweeps.RowMin | MDP.py:46-47 | the inner loop returns the minimum of its starting value and the distances from `s[i]` to the points it visits |
| Sweeps.Sweep | MDP.py:45-47 | the double loop returns the minimum of its starting value and the distances of exactly the pairs `i < j <= i + 7` |
| Sweeps.ComparisonsBound | MDP.py:45-46 | the strip scan makes at most 7 distance comparisons per strip point |
| Packing.Packing | MDP.py:16-18 | if no pair within either half is closer than `d`, then in the y-sorted strip any point 8 or more places after another is at least `d` above it |
| Mdp.BruteForce | MDP.py:56-63 | `bruteForce` returns infinity for fewer than two points; otherwise it returns the smallest distance over all pairs `i < j`, and that distance is attained |
| Mdp.FullSweepIsClosest | MDP.py:60-62 | a double loop whose inner bound is `len(coords)` compares every pair |
| Mdp.InBandExact | MDP.py:42 | for `curr_min = sqrt(D)`, any non-negative real `c` with `c * c == D`, the squared strip test holds exactly when `abs(coords[midpoint][0] - x) <= c` |
| Mdp.KeepContents | MDP.py:40-43 | the strip loop keeps each occurrence of a point within `curr_min` of `coords[mid].x` and drops every other point |
| Mdp.Strip | MDP.py:44 | the strip is the kept points, rearranged into ascending y order |
| Mdp.StripContents | MDP.py:40-44 | the strip holds exactly the points of `coords` within `curr_min` of the split line, each as often as in `coords`, in ascending y order |
| Mdp.Halves | MDP.py:34-36 | the split at `n // 2` concatenates back to `coords`; for four points or more both halves have at least two points and are shorter; sorted input gives sorted halves |
| Mdp.Solve | MDP.py:26-49 | `MDP` returns a finite distance exactly when there are at least two points |
| Mdp.SolveSound | MDP.py:39-49 | the result of `MDP` is infinity or the distance of an actual pair, and it never exceeds `min(leftmin, rightmin)` |
| Mdp.CrossPairOutsideStrip | MDP.py:40-43 | a pair straddling the split with a point left out of the strip is farther apart than `curr_min` |
| Mdp.FarApartInStrip | MDP.py:45-46 | strip points 8 or more places apart are at least `curr_min` apart, so the window of 7 misses no closer pair |
| Mdp.CombineComplete | MDP.py:39-47 | given the true minima of both halves, the strip scan returns the true minimum of the whole |
| Mdp.SolveComplete | MDP.py:26-49 | on x-sorted input `MDP` returns the minimum pairwise distance |
| Mdp.SolveIsBruteForce | MDP.py:26-63 | on x-sorted input `MDP` returns what `bruteForce` returns |
| Mdp.ClosestPair | MDP.py:24-25 | `MDP2` returns the minimum pairwise distance of any input, in any order |
| Mdp.ClosestPairIsBruteForce | MDP.py:24-25 | `MDP2` and `bruteForce` agree on every input |
| Visualizer.BruteForceLogged | visualizer.py:13-27 | for a single point the result is infinity with an empty `pairs_checked`; `minDis` is the plain `bruteForce` result; the log is every pair, row by row |
| Visualizer.BruteRowSpec | visualizer.py:22-25 | the inner loop appends `(coords[i], coords[j], dist)` for `j = i+1 ..` in order, and its minimum is the plain inner loop's |
| Visualizer.BruteLoopSpec | visualizer.py:21-25 | the outer loop appends the rows one after the other, and its minimum is the plain double loop's |
| Visualizer.PairsFromLength | visualizer.py:21-24 | the rows from point `i` on hold `m(m-1)/2` entries for the remaining `m` points |
| Visualizer.PairsFromSlot | visualizer.py:21-24 | the pair `(i, j)` sits at its lexicographic position in the rows from any earlier row on |
| Visualizer.PairsFromEntries | visualizer.py:23-24 | every entry of `pairs_checked` is a pair `i < j` of `coords` tagged with its distance |
| Visualizer.PairSlotLex | visualizer.py:21-22 | lexicographic order on pairs `(i, j)` is the order of their log positions, so no two pairs share a position |
| Visualizer.PairsCheckedAreAllPairs | visualizer.py:21-24 | `pairs_checked` has one entry per pair `i < j`, and the entry at each pair's lexicographic position is that pair with its distance |
| Visualizer.LoggedMinimum | visualizer.py:21-27 | the returned `minDis` is the smallest distance in `pairs_checked`, and it is infinity exactly when that list is empty |
| Visualizer.Lower | visualizer.py:120-122 | `if dist < curr_min: curr_min = dist` gives the same value as `min(dist, curr_min)` |
| Visualizer.GapReachesExact | visualizer.py:111 | for `curr_min = sqrt(D)`, any non-negative real `c` with `c * c == D`, the squared early exit holds exactly when `strip[j][1] - strip[i][1] >= c` |
| Visualizer.GapSkipsFar | visualizer.py:109-112 | in a y-sorted strip, once the y-gap reaches the current minimum, no later point of that row is closer than it |
| Visualizer.RowMinStays | visualizer.py:111-112 | a row whose remaining distances are all at least the current minimum leaves it unchanged, so skipping that row's remaining points loses nothing |
| Visualizer.VisRowIsRowMin | visualizer.py:110-122 | on a y-sorted strip, the inner loop with the early exit gives the same minimum as the inner loop without it |
| Visualizer.VisScanIsSweep | visualizer.py:108-122 | on a y-sorted strip, the scan with early exits returns the result of the strip scan of `MDP.py` |
| Visualizer.VisCombineIsCombine | visualizer.py:87-122 | the recording combine step returns the combine step of `MDP.py` |
| Visualizer.VisSolveIsSolve | visualizer.py:60-124 | the visualizer's `MDP` returns what `MDP.py`'s `MDP` returns, for every input and every log |
| Visualizer.VisSolve | visualizer.py:60-70 | each call appends at least one snapshot and keeps the earlier ones; with three points or fewer it returns `bruteForce`'s result |
| Visualizer.VisClosestPair | visualizer.py:376-379 | sorting by x and then running the recording solver gives the minimum pairwise distance of the input |
| Visualizer.StripChecksBound | visualizer.py:108-118 | the strip scan appends at most 7 "checking" snapshots per strip point, so it makes at most 7 comparisons per point |
| Visualizer.VisRowScanMin | visualizer.py:114-122 | within a row, `curr_min` only decreases, and it ends at the minimum of its start and the distances of the pairs logged as "checking" |
| Visualizer.VisScanScanMin | visualizer.py:108-122 | over the whole strip scan, `curr_min` only decreases, and it ends at the minimum of its start and the distances of the pairs logged as "checking" |
| Visualizer.VisRowLog | visualizer.py:114-118 | the inner loop's result does not depend on the log it receives, and it only appends to that log |
| Visualizer.VisScanLog | visualizer.py:108-118 | the strip scan's result does not depend on the log it receives, and it only appends to that log |
| Visualizer.VisCombineLog | visualizer.py:88-106 | the combine step's result does not depend on the log before it, and it only appends to that log |
| Visualizer.VisSolveLog | visualizer.py:44-58 | `record_step` only appends: the solver's result does not depend on the log, and the log afterwards is the old log followed by the call's own snapshots |
| Visualizer.FirstStep | visualizer.py:65-81 | a call's first snapshot is either the base case, with `bruteForce`'s result and pairs, or the divide step at `midpoint_x = coords[n // 2].x` with an infinite minimum |

## Left out

- Drawing and interaction (visualizer.py:126-439): `visualize`, the plotting and printing in `show_step_by_step`, the `on_key`/`update` callbacks, and the `__main__` demo. These are user interface and output with no effect on the result. Only the computation of `show_step_by_step`, which sorts by x and runs the solver, is modelled, as `VisClosestPair`.
- The closing documentation string (visualizer.py:440-484). It is prose about libraries and console output.
- Snapshot contents. A `Step` keeps its type, the fields that type adds, the call's points, `curr_min` and the depth. It does not keep the copied `left`/`right` lists, the repeated `midpoint`, the `leftmin`/`rightmin` on strip and checking snapshots, or the `strip` list on checking snapshots. Each of these is a copy of a value the model already has.
- `self.all_points` and the constructor. These are display state.
- `math.sqrt` and IEEE floating point. Distances are exact squared integers, and `float('inf')` is the `Inf` constructor. Rounding of the square root is not modelled.
- Non-integer coordinates. They are covered by scaling, as explained above.
- Tie order of Python's `sorted`. The model sorts with an insertion sort that is stable (`Sorting.InsertAfterEqualKeys`), so its output is the same as Python's. None of the correctness proofs depends on how ties are ordered.
- Visualizer.BruteRow: its contract states only that the log grows. Its value and its log are stated by `BruteRowSpec`.
- Visualizer.BruteLoop: its contract states only that the log grows. Its value and its log are stated by `BruteLoopSpec`.
- Mdp.Keep: states no contract of its own. Its contents are stated by `KeepContents`, to keep proof contexts small.
- Visualizer.VisRow: its contract states only that the log grows. Its value is stated by `VisRowIsRowMin` and `VisRowScanMin`.
- Visualizer.VisScan: its contract states only that the log grows. Its value is stated by `VisScanIsSweep` and `VisScanScanMin`.
- Visualizer.VisCombine: its contract states only that at least two snapshots are appended. Its value is stated by `VisCombineIsCombine`.

## Notes

- The doc comment of `MDP.py` (lines 12-18) says each strip point is compared with the next 6 points. The code compares it with up to 7 (`range(i + 1, min(i + 8, len))`), and the model follows the code. `Packing.Packing` shows that 7 is enough.
- Python's `min(a, b)` returns `a` unless `b < a`, and `Geometry.Min` does the same. When the two values are equal, either answer is the same value.
- The early exit in `visualizer.py` compares the y-gap with the running `curr_min`, which may already have been lowered in the same row. `VisRowIsRowMin` covers that case: the comparison is always made against the current value.
