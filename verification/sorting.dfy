/**
  Python's `sorted(points, key=...)`, modelled as a stable insertion sort.

  A stable sort by a key has exactly one possible output, so this insertion
  sort returns the same sequence as Python's `sorted`. It is stable because
  `Insert` places a point after every earlier point with an equal key
  (`InsertAfterEqualKeys`). The index sort
  `SortIndices` is the same algorithm run on positions into a point
  sequence; it is a proof device that tracks which input position each
  sorted point came from.
 */
module Sorting {
  import opened Geometry

  /** `s` is in ascending order of `key`. */
  ghost predicate SortedBy(s: seq<Point>, key: Point -> int)
  {
    forall i, j :: 0 <= i < j < |s| ==> key(s[i]) <= key(s[j])
  }

  /** Inserts `p` after every element of `t` whose key is at most `key(p)`. */
  function Insert(p: Point, t: seq<Point>, key: Point -> int): (r: seq<Point>)
    ensures multiset(r) == multiset(t) + multiset{p}
    ensures SortedBy(t, key) ==> SortedBy(r, key)
  {
    if |t| == 0 then [p]
    else if key(p) < key(t[0]) then
      SortedConsBelowHead(p, t, key);
      [p] + t
    else
      var rest := Insert(p, t[1..], key);
      assert t == [t[0]] + t[1..];
      SortedConsAfterInsert(p, t, rest, key);
      [t[0]] + rest
  }

  /** The number of leading elements of `t` whose key is at most `key(p)`. */
  function Slot(p: Point, t: seq<Point>, key: Point -> int): (k: nat)
    ensures k <= |t|
  {
    if |t| == 0 || key(p) < key(t[0]) then 0 else 1 + Slot(p, t[1..], key)
  }

  lemma {:induction false} InsertAtSlot(p: Point, t: seq<Point>, key: Point -> int)
    ensures Insert(p, t, key) == t[..Slot(p, t, key)] + [p] + t[Slot(p, t, key)..]
  {
    if |t| > 0 && key(t[0]) <= key(p) {
      var k := Slot(p, t[1..], key);
      InsertAtSlot(p, t[1..], key);
      assert Insert(p, t, key) == [t[0]] + Insert(p, t[1..], key);
      SlotShift(t, k, p);
    } else {
      assert t[..0] + [p] + t[0..] == [p] + t;
    }
  }

  lemma SlotShift(t: seq<Point>, k: nat, p: Point)
    requires 0 < |t| && k < |t|
    ensures [t[0]] + (t[1..][..k] + [p] + t[1..][k..]) == t[..k + 1] + [p] + t[k + 1..]
  {
    assert t[..k + 1] == [t[0]] + t[1..][..k];
    assert t[k + 1..] == t[1..][k..];
  }

  lemma {:induction false} SlotKeys(p: Point, t: seq<Point>, key: Point -> int)
    ensures forall i :: 0 <= i < Slot(p, t, key) ==> key(t[i]) <= key(p)
    ensures Slot(p, t, key) == |t| || key(p) < key(t[Slot(p, t, key)])
  {
    if |t| > 0 && key(t[0]) <= key(p) {
      SlotKeys(p, t[1..], key);
      forall i | 0 < i < Slot(p, t, key) ensures key(t[i]) <= key(p) {
        assert t[i] == t[1..][i - 1];
      }
    }
  }

  /**
    `Insert` is what makes the sort stable: `p` goes after every leading
    element whose key is at most its own, and before the first one whose
    key is larger.
   */
  lemma InsertAfterEqualKeys(p: Point, t: seq<Point>, key: Point -> int)
    ensures exists k :: 0 <= k <= |t| && Insert(p, t, key) == t[..k] + [p] + t[k..]
                        && (forall i :: 0 <= i < k ==> key(t[i]) <= key(p))
                        && (k == |t| || key(p) < key(t[k]))
  {
    InsertAtSlot(p, t, key);
    SlotKeys(p, t, key);
    var k := Slot(p, t, key);
    assert Insert(p, t, key) == t[..k] + [p] + t[k..];
  }

  lemma SortedCons(x: Point, s: seq<Point>, key: Point -> int)
    requires SortedBy(s, key)
    requires forall j :: 0 <= j < |s| ==> key(x) <= key(s[j])
    ensures SortedBy([x] + s, key)
  {
    var r := [x] + s;
    forall i, j | 0 <= i < j < |r| ensures key(r[i]) <= key(r[j]) {
      if i > 0 {
        assert r[i] == s[i - 1] && r[j] == s[j - 1];
      }
    }
  }

  lemma SortedConsBelowHead(p: Point, t: seq<Point>, key: Point -> int)
    requires |t| > 0 && key(p) < key(t[0])
    ensures SortedBy(t, key) ==> SortedBy([p] + t, key)
  {
    if SortedBy(t, key) {
      forall j | 0 <= j < |t| ensures key(p) <= key(t[j]) {
        if j > 0 {
          assert key(t[0]) <= key(t[j]);
        }
      }
      SortedCons(p, t, key);
    }
  }

  lemma SortedConsAfterInsert(p: Point, t: seq<Point>, rest: seq<Point>, key: Point -> int)
    requires |t| > 0 && key(t[0]) <= key(p)
    requires multiset(rest) == multiset(t[1..]) + multiset{p}
    requires SortedBy(t[1..], key) ==> SortedBy(rest, key)
    ensures SortedBy(t, key) ==> SortedBy([t[0]] + rest, key)
  {
    if SortedBy(t, key) {
      assert SortedBy(t[1..], key) by {
        forall i, j | 0 <= i < j < |t[1..]| ensures key(t[1..][i]) <= key(t[1..][j]) {
          assert t[1..][i] == t[i + 1] && t[1..][j] == t[j + 1];
        }
      }
      forall j | 0 <= j < |rest| ensures key(t[0]) <= key(rest[j]) {
        assert rest[j] in multiset(rest);
        if rest[j] != p {
          assert rest[j] in multiset(t[1..]);
          var k :| 0 <= k < |t[1..]| && t[1..][k] == rest[j];
          assert t[k + 1] == rest[j];
        }
      }
      SortedCons(t[0], rest, key);
    }
  }

  /** `sorted(s, key=key)`: a permutation of `s` in ascending key order. */
  function SortBy(s: seq<Point>, key: Point -> int): (r: seq<Point>)
    ensures multiset(r) == multiset(s)
    ensures SortedBy(r, key)
  {
    if |s| == 0 then []
    else
      assert s == s[..|s| - 1] + [s[|s| - 1]];
      Insert(s[|s| - 1], SortBy(s[..|s| - 1], key), key)
  }

  /** Every entry of `idx` is a position of a sequence of length `n`. */
  ghost predicate Within(idx: seq<nat>, n: nat)
  {
    forall t :: 0 <= t < |idx| ==> idx[t] < n
  }

  /** No position occurs twice in `idx`. */
  ghost predicate Distinct(idx: seq<nat>)
  {
    forall a, b :: 0 <= a < b < |idx| ==> idx[a] != idx[b]
  }

  /** The points of `coords` at the positions `idx`, in that order. */
  function Pick(coords: seq<Point>, idx: seq<nat>): (r: seq<Point>)
    requires Within(idx, |coords|)
    ensures |r| == |idx|
    ensures forall t :: 0 <= t < |idx| ==> r[t] == coords[idx[t]]
  {
    seq(|idx|, t requires 0 <= t < |idx| => coords[idx[t]])
  }

  /** `Insert` on positions, comparing the keys of the points they denote. */
  function InsertIndex(k: nat, t: seq<nat>, coords: seq<Point>, key: Point -> int): (r: seq<nat>)
    requires k < |coords| && Within(t, |coords|)
    ensures Within(r, |coords|)
    ensures Pick(coords, r) == Insert(coords[k], Pick(coords, t), key)
    ensures forall m :: m in r <==> m == k || m in t
    ensures Distinct(t) && k !in t ==> Distinct(r)
  {
    if |t| == 0 then [k]
    else if key(coords[k]) < key(coords[t[0]]) then
      PickCons(coords, k, t);
      [k] + t
    else
      var rest := InsertIndex(k, t[1..], coords, key);
      InsertIndexStep(k, t, rest, coords, key);
      [t[0]] + rest
  }

  lemma PickCons(coords: seq<Point>, a: nat, t: seq<nat>)
    requires a < |coords| && Within(t, |coords|)
    ensures Within([a] + t, |coords|)
    ensures Pick(coords, [a] + t) == [coords[a]] + Pick(coords, t)
  {
  }

  lemma InsertIndexStep(k: nat, t: seq<nat>, rest: seq<nat>, coords: seq<Point>, key: Point -> int)
    requires k < |coords| && Within(t, |coords|) && Within(rest, |coords|)
    requires |t| > 0 && key(coords[t[0]]) <= key(coords[k])
    requires Pick(coords, rest) == Insert(coords[k], Pick(coords, t[1..]), key)
    requires forall m :: m in rest <==> m == k || m in t[1..]
    requires Distinct(t[1..]) && k !in t[1..] ==> Distinct(rest)
    ensures Within([t[0]] + rest, |coords|)
    ensures Pick(coords, [t[0]] + rest) == Insert(coords[k], Pick(coords, t), key)
    ensures forall m :: m in [t[0]] + rest <==> m == k || m in t
    ensures Distinct(t) && k !in t ==> Distinct([t[0]] + rest)
  {
    assert t == [t[0]] + t[1..];
    assert Pick(coords, t)[1..] == Pick(coords, t[1..]);
    PickCons(coords, t[0], rest);
    if Distinct(t) && k !in t {
      DistinctTail(t);
      ConsDistinct(t[0], rest);
    }
  }

  lemma DistinctTail(t: seq<nat>)
    requires |t| > 0 && Distinct(t)
    ensures Distinct(t[1..]) && t[0] !in t[1..]
  {
    forall a, b | 0 <= a < b < |t[1..]| ensures t[1..][a] != t[1..][b] {
      assert t[1..][a] == t[a + 1] && t[1..][b] == t[b + 1];
    }
  }

  lemma ConsDistinct(x: nat, rest: seq<nat>)
    requires Distinct(rest) && x !in rest
    ensures Distinct([x] + rest)
  {
    var r := [x] + rest;
    forall a, b | 0 <= a < b < |r| ensures r[a] != r[b] {
      if a > 0 {
        assert r[a] == rest[a - 1] && r[b] == rest[b - 1];
      } else {
        assert r[b] in rest;
      }
    }
  }

  /** `SortBy` on positions: picking the points it lists gives `SortBy` of the picked points. */
  function SortIndices(idx: seq<nat>, coords: seq<Point>, key: Point -> int): (r: seq<nat>)
    requires Within(idx, |coords|)
    ensures Within(r, |coords|)
    ensures Pick(coords, r) == SortBy(Pick(coords, idx), key)
    ensures forall m :: m in r <==> m in idx
    ensures Distinct(idx) ==> Distinct(r)
  {
    if |idx| == 0 then []
    else
      var init := idx[..|idx| - 1];
      assert idx == init + [idx[|idx| - 1]];
      assert Pick(coords, idx)[..|idx| - 1] == Pick(coords, init);
      InsertIndex(idx[|idx| - 1], SortIndices(init, coords, key), coords, key)
  }
}
