/**
  What "closest pair distance" means: the reference every solver in this
  project is proved against. A pair of a sequence is two positions
  `i < j`; the points there may coincide.
 */
module Pairs {
  import opened Geometry

  /** `v` is the squared distance of some pair of `s`. */
  ghost predicate IsPairDist(s: seq<Point>, v: int)
  {
    exists i, j :: 0 <= i < j < |s| && SqDist(s[i], s[j]) == v
  }

  /** `r` is at most the distance of every pair of `s`. */
  ghost predicate Below(s: seq<Point>, r: Dist)
  {
    forall i, j :: 0 <= i < j < |s| ==> Le(r, Fin(SqDist(s[i], s[j])))
  }

  /**
    `r` is the minimum pairwise distance of `s`: finite exactly when `s`
    has a pair, then attained by a pair and below every pair.
   */
  ghost predicate IsClosest(s: seq<Point>, r: Dist)
  {
    && Below(s, r)
    && (r.Fin? <==> |s| >= 2)
    && (r.Fin? ==> IsPairDist(s, r.sq))
  }

  /** A sequence has one minimum pairwise distance. */
  lemma ClosestUnique(s: seq<Point>, a: Dist, b: Dist)
    requires IsClosest(s, a) && IsClosest(s, b)
    ensures a == b
  {
    if a.Fin? {
      var i, j :| 0 <= i < j < |s| && SqDist(s[i], s[j]) == a.sq;
      var i', j' :| 0 <= i' < j' < |s| && SqDist(s[i'], s[j']) == b.sq;
      assert Le(b, a) && Le(a, b);
      LeAntisym(a, b);
    }
  }

  /** A pair of a slice is a pair of the whole sequence. */
  lemma PairDistOfSlice(s: seq<Point>, lo: nat, hi: nat, v: int)
    requires lo <= hi <= |s|
    requires IsPairDist(s[lo..hi], v)
    ensures IsPairDist(s, v)
  {
    var i, j :| 0 <= i < j < |s[lo..hi]| && SqDist(s[lo..hi][i], s[lo..hi][j]) == v;
    assert s[lo..hi][i] == s[lo + i] && s[lo..hi][j] == s[lo + j];
  }

  /** Two different positions of `s` give a pair of `s`, in either order. */
  lemma PairDistOfPositions(s: seq<Point>, a: nat, b: nat)
    requires a < |s| && b < |s| && a != b
    ensures IsPairDist(s, SqDist(s[a], s[b]))
  {
    DistanceProperties(s[a], s[b]);
    if b < a {
      assert SqDist(s[b], s[a]) == SqDist(s[a], s[b]);
    }
  }

  lemma MultisetRemoveAt(s: seq<Point>, a: nat)
    requires a < |s|
    ensures multiset(s) == multiset(s[..a] + s[a + 1..]) + multiset{s[a]}
  {
    assert s == s[..a] + [s[a]] + s[a + 1..];
  }

  /** A point left over after removing position `a` sits at another position. */
  lemma OtherPosition(s: seq<Point>, a: nat, q: Point) returns (b: nat)
    requires a < |s|
    requires q in multiset(s[..a] + s[a + 1..])
    ensures b < |s| && b != a && s[b] == q
  {
    var u := s[..a] + s[a + 1..];
    assert q in u;
    var k :| 0 <= k < |u| && u[k] == q;
    if k < a {
      b := k;
      assert u[k] == s[k];
    } else {
      b := k + 1;
      assert u[k] == s[k + 1];
    }
  }

  /** Every pair of a permutation of `s` is, up to order, a pair of `s`. */
  lemma PairOfPermutation(s: seq<Point>, t: seq<Point>, i: nat, j: nat) returns (a: nat, b: nat)
    requires multiset(s) == multiset(t)
    requires i < j < |t|
    ensures a < |s| && b < |s| && a != b
    ensures SqDist(s[a], s[b]) == SqDist(t[i], t[j])
  {
    var p, q := t[i], t[j];
    MultisetRemoveAt(t, i);
    var u := t[..i] + t[i + 1..];
    assert u[j - 1] == q;
    assert p in multiset(s) by {
      assert p in multiset(t);
    }
    assert p in s;
    a :| 0 <= a < |s| && s[a] == p;
    MultisetRemoveAt(s, a);
    assert multiset(s[..a] + s[a + 1..]) == multiset(s) - multiset{p};
    assert multiset(u) == multiset(t) - multiset{p};
    assert q in multiset(u);
    b := OtherPosition(s, a, q);
  }

  lemma BelowPermutation(s: seq<Point>, t: seq<Point>, r: Dist)
    requires multiset(s) == multiset(t)
    requires Below(s, r)
    ensures Below(t, r)
  {
    forall i, j | 0 <= i < j < |t| ensures Le(r, Fin(SqDist(t[i], t[j]))) {
      var a, b := PairOfPermutation(s, t, i, j);
      DistanceProperties(s[a], s[b]);
      if b < a {
        assert Le(r, Fin(SqDist(s[b], s[a])));
      } else {
        assert Le(r, Fin(SqDist(s[a], s[b])));
      }
    }
  }

  lemma PairDistPermutation(s: seq<Point>, t: seq<Point>, v: int)
    requires multiset(s) == multiset(t)
    requires IsPairDist(t, v)
    ensures IsPairDist(s, v)
  {
    var i, j :| 0 <= i < j < |t| && SqDist(t[i], t[j]) == v;
    var a, b := PairOfPermutation(s, t, i, j);
    PairDistOfPositions(s, a, b);
  }

  /** The minimum pairwise distance does not depend on the order of the points. */
  lemma ClosestPermutation(s: seq<Point>, t: seq<Point>, r: Dist)
    requires multiset(s) == multiset(t)
    requires IsClosest(s, r)
    ensures IsClosest(t, r)
  {
    assert |s| == |multiset(s)| == |multiset(t)| == |t|;
    BelowPermutation(s, t, r);
    if r.Fin? {
      PairDistPermutation(t, s, r.sq);
    }
  }
}
