/**
  The packing argument behind the strip scan's window of 7.

  Let `D > 0` be the squared distance below which neither half has a
  pair. Every strip point lies within `sqrt(D)` of the midline, and the
  strip is in ascending y order. Take nine consecutive strip points
  `a .. a + 8` whose y-span is less than `sqrt(D)`. Each one falls in
  one of 8 cells: its half (left or right of the split), whether it is
  within `sqrt(D) / 2` of the midline, and whether it is within
  `sqrt(D) / 2` above point `a`. By pigeonhole two of them share a cell.
  They come from the same half, yet they are closer than `sqrt(D)`, which
  is a contradiction. So any strip point 8 or more places after `a` is
  at least `sqrt(D)` above it, and the scan may stop after 7.

  The half-way tests are written without square roots: for `u >= 0`,
  `u <= sqrt(D) / 2` is `4 * u * u <= D`.
 */
module Packing {
  import opened Geometry
  import opened Sorting

  /** The set of values in `f`. */
  ghost function Values(f: seq<int>): set<int>
  {
    set x | x in f
  }

  lemma {:induction false} DistinctValuesCard(f: seq<int>)
    requires forall a, b :: 0 <= a < b < |f| ==> f[a] != f[b]
    ensures |Values(f)| == |f|
  {
    if |f| > 0 {
      var init := f[..|f| - 1];
      DistinctValuesCard(init);
      assert Values(f) == Values(init) + {f[|f| - 1]};
      assert f[|f| - 1] !in Values(init);
    }
  }

  /** The integers `0 .. m - 1`. */
  ghost function Range(m: nat): (r: set<int>)
    ensures forall x :: x in r <==> 0 <= x < m
    ensures |r| == m
  {
    if m == 0 then {} else Range(m - 1) + {m - 1}
  }

  lemma SubsetCard(a: set<int>, b: set<int>)
    requires a <= b
    ensures |a| <= |b|
  {
    assert b == a + (b - a);
  }

  /** More than `m` values from `[0, m)` repeat one. */
  lemma Pigeonhole(f: seq<int>, m: nat) returns (t1: nat, t2: nat)
    requires |f| > m
    requires forall t :: 0 <= t < |f| ==> 0 <= f[t] < m
    ensures t1 < t2 < |f| && f[t1] == f[t2]
  {
    if a, b :| 0 <= a < b < |f| && f[a] == f[b] {
      t1, t2 := a, b;
    } else {
      DistinctValuesCard(f);
      SubsetCard(Values(f), Range(m));
      assert false;
    }
  }

  /** Two offsets in `[0, sqrt(D)]` on the same side of `sqrt(D) / 2` differ by at most `sqrt(D) / 2`. */
  lemma SameHalf(a: int, b: int, d: int)
    requires 0 <= a && 0 <= b && Sq(a) <= d && Sq(b) <= d
    requires (4 * Sq(a) <= d) == (4 * Sq(b) <= d)
    ensures 4 * Sq(a - b) <= d
    decreases if a < b then 1 else 0
  {
    if a < b {
      SameHalf(b, a, d);
      assert Sq(a - b) == Sq(b - a);
    } else if 4 * Sq(a) <= d {
      SquareMono(a - b, a);
    } else if 4 * Sq(a - b) > d {
      assert Sq(2 * (a - b)) == 4 * Sq(a - b);
      SquareLtInv(a, 2 * (a - b));
      SquareStrictMono(2 * b, a);
      assert false;
    }
  }

  /** The part of a point's cell that records its distance from the midline. */
  ghost predicate NearMidline(p: Point, midx: int, d: int)
  {
    4 * Sq(p.x - midx) <= d
  }

  /** The part of a point's cell that records its height above `ybase`. */
  ghost predicate NearBase(p: Point, ybase: int, d: int)
  {
    4 * Sq(p.y - ybase) <= d
  }

  /** Two points on one side of the midline, both within `sqrt(d)` of it and on the same side of `sqrt(d) / 2`, are within `sqrt(d) / 2` horizontally. */
  lemma SameColumn(p: Point, q: Point, midx: int, d: int)
    requires (p.x <= midx && q.x <= midx) || (midx <= p.x && midx <= q.x)
    requires Sq(p.x - midx) <= d && Sq(q.x - midx) <= d
    requires NearMidline(p, midx, d) == NearMidline(q, midx, d)
    ensures 4 * Sq(p.x - q.x) <= d
  {
    if p.x <= midx && q.x <= midx {
      var u, v := p.x - midx, q.x - midx;
      SqNeg(u);
      SqNeg(v);
      SameHalf(-u, -v, d);
      assert (-u) - (-v) == -(p.x - q.x);
      SqNeg(p.x - q.x);
    } else {
      SameHalf(p.x - midx, q.x - midx, d);
      assert (p.x - midx) - (q.x - midx) == p.x - q.x;
    }
  }

  /** Two points at most `sqrt(d)` above `ybase`, on the same side of `sqrt(d) / 2`, are within `sqrt(d) / 2` vertically. */
  lemma SameRow(p: Point, q: Point, ybase: int, d: int)
    requires ybase <= p.y && ybase <= q.y
    requires Sq(p.y - ybase) <= d && Sq(q.y - ybase) <= d
    requires NearBase(p, ybase, d) == NearBase(q, ybase, d)
    ensures 4 * Sq(p.y - q.y) <= d
  {
    SameHalf(p.y - ybase, q.y - ybase, d);
    assert (p.y - ybase) - (q.y - ybase) == p.y - q.y;
  }

  /** Two points of one half that share a cell are closer than `sqrt(d)`. */
  lemma SameCellClose(p: Point, q: Point, midx: int, ybase: int, d: int)
    requires d > 0
    requires (p.x <= midx && q.x <= midx) || (midx <= p.x && midx <= q.x)
    requires Sq(p.x - midx) <= d && Sq(q.x - midx) <= d
    requires ybase <= p.y && ybase <= q.y
    requires Sq(p.y - ybase) <= d && Sq(q.y - ybase) <= d
    requires NearMidline(p, midx, d) == NearMidline(q, midx, d)
    requires NearBase(p, ybase, d) == NearBase(q, ybase, d)
    ensures SqDist(p, q) < d
  {
    SameColumn(p, q, midx, d);
    SameRow(p, q, ybase, d);
  }

  /** The cell number, in `[0, 8)`, of the point at position `k`. */
  ghost function Cell(coords: seq<Point>, mid: nat, d: int, k: nat, ybase: int): (c: int)
    requires mid < |coords| && k < |coords|
    ensures 0 <= c < 8
  {
    (if k < mid then 0 else 4)
    + (if NearMidline(coords[k], coords[mid].x, d) then 0 else 2)
    + (if NearBase(coords[k], ybase, d) then 0 else 1)
  }

  /** Equal cell numbers mean the same half and the same two half-way tests. */
  lemma CellDecode(coords: seq<Point>, mid: nat, d: int, k1: nat, k2: nat, ybase: int)
    requires mid < |coords| && k1 < |coords| && k2 < |coords|
    requires Cell(coords, mid, d, k1, ybase) == Cell(coords, mid, d, k2, ybase)
    ensures (k1 < mid) == (k2 < mid)
    ensures NearMidline(coords[k1], coords[mid].x, d) == NearMidline(coords[k2], coords[mid].x, d)
    ensures NearBase(coords[k1], ybase, d) == NearBase(coords[k2], ybase, d)
  {
  }

  /** A strip position between `a` and `b` lies in the rectangle spanned by them. */
  lemma BetweenInY(coords: seq<Point>, idx: seq<nat>, a: nat, b: nat, t: nat)
    requires Within(idx, |coords|)
    requires forall t1, t2 :: 0 <= t1 < t2 < |idx| ==> coords[idx[t1]].y <= coords[idx[t2]].y
    requires a <= t <= b < |idx|
    ensures coords[idx[a]].y <= coords[idx[t]].y
    ensures Sq(coords[idx[t]].y - coords[idx[a]].y) <= Sq(coords[idx[b]].y - coords[idx[a]].y)
  {
    var ya, yt, yb := coords[idx[a]].y, coords[idx[t]].y, coords[idx[b]].y;
    if a < t {
      assert ya <= yt;
    }
    if t < b {
      assert yt <= yb;
    }
    SquareMono(yt - ya, yb - ya);
  }

  /** The points at two different strip positions from the same half are at least `sqrt(d)` apart. */
  lemma SameHalfFar(coords: seq<Point>, mid: nat, d: int, k1: nat, k2: nat)
    requires mid <= |coords| && k1 < |coords| && k2 < |coords| && k1 != k2
    requires (k1 < mid) == (k2 < mid)
    requires forall i, j :: 0 <= i < j < mid ==> d <= SqDist(coords[i], coords[j])
    requires forall i, j :: mid <= i < j < |coords| ==> d <= SqDist(coords[i], coords[j])
    ensures d <= SqDist(coords[k1], coords[k2])
  {
    DistanceProperties(coords[k1], coords[k2]);
    if k1 < k2 {
      assert d <= SqDist(coords[k1], coords[k2]);
    } else {
      assert d <= SqDist(coords[k2], coords[k1]);
    }
  }

  /** Among the nine strip positions `a .. a + 8`, two different points share a cell. */
  lemma TwoShareACell(coords: seq<Point>, mid: nat, d: int, idx: seq<nat>, a: nat, ybase: int)
    returns (t1: nat, t2: nat)
    requires mid < |coords|
    requires Within(idx, |coords|) && Distinct(idx)
    requires a + 8 < |idx|
    ensures a <= t1 <= a + 8 && a <= t2 <= a + 8
    ensures idx[t1] != idx[t2]
    ensures Cell(coords, mid, d, idx[t1], ybase) == Cell(coords, mid, d, idx[t2], ybase)
  {
    var cells := seq(9, t requires 0 <= t < 9 => Cell(coords, mid, d, idx[a + t], ybase));
    forall t | 0 <= t < 9 ensures 0 <= cells[t] < 8 {
      assert cells[t] == Cell(coords, mid, d, idx[a + t], ybase);
    }
    var c1, c2 := Pigeonhole(cells, 8);
    t1, t2 := a + c1, a + c2;
  }

  /**
    In a y-sorted strip around the midline `coords[mid].x`, with no pair
    of either half closer than `sqrt(d)`, a point 8 or more places after
    position `a` is at least `sqrt(d)` above it.
   */
  lemma Packing(coords: seq<Point>, mid: nat, d: int, idx: seq<nat>, a: nat, b: nat)
    requires 0 < mid < |coords|
    requires forall k :: 0 <= k < mid ==> coords[k].x <= coords[mid].x
    requires forall k :: mid <= k < |coords| ==> coords[mid].x <= coords[k].x
    requires d > 0
    requires Within(idx, |coords|) && Distinct(idx)
    requires forall t :: 0 <= t < |idx| ==> Sq(coords[idx[t]].x - coords[mid].x) <= d
    requires forall t1, t2 :: 0 <= t1 < t2 < |idx| ==> coords[idx[t1]].y <= coords[idx[t2]].y
    requires forall i, j :: 0 <= i < j < mid ==> d <= SqDist(coords[i], coords[j])
    requires forall i, j :: mid <= i < j < |coords| ==> d <= SqDist(coords[i], coords[j])
    requires a + 8 <= b < |idx|
    ensures d <= Sq(coords[idx[b]].y - coords[idx[a]].y)
  {
    var ybase := coords[idx[a]].y;
    if Sq(coords[idx[b]].y - ybase) < d {
      var t1, t2 := TwoShareACell(coords, mid, d, idx, a, ybase);
      var k1, k2 := idx[t1], idx[t2];
      CellDecode(coords, mid, d, k1, k2, ybase);
      BetweenInY(coords, idx, a, b, t1);
      BetweenInY(coords, idx, a, b, t2);
      assert Sq(coords[k1].x - coords[mid].x) <= d && Sq(coords[k2].x - coords[mid].x) <= d;
      SameCellClose(coords[k1], coords[k2], coords[mid].x, ybase, d);
      SameHalfFar(coords, mid, d, k1, k2);
      assert false;
    }
  }
}
