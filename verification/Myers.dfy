/** Myers' greedy O(ND) difference algorithm, as `Diff` implements it. */
module Myers {
  import opened EditScript

  // ---- Edit paths: the reference the algorithm is measured against ----

  /** (x, y) can be reached from (0, 0) by exactly d single deletions and insertions plus any number
      of matching diagonals. The grid continues past the ends of both files, without diagonals there. */
  ghost predicate Reach(a: Lines, b: Lines, d: nat, x: nat, y: nat)
    decreases x + y
  {
    || (x == 0 && y == 0 && d == 0)
    || (0 < x <= |a| && 0 < y <= |b| && a[x - 1] == b[y - 1] && Reach(a, b, d, x - 1, y - 1))
    || (d > 0 && x > 0 && Reach(a, b, d - 1, x - 1, y))
    || (d > 0 && y > 0 && Reach(a, b, d - 1, x, y - 1))
  }

  /** Diagonal k is visited in round d. */
  predicate Visited(d: nat, k: int) { 0 - d <= k <= d && (d - k) % 2 == 0 }

  /** Where the run of matching lines that starts at (x, y) ends, as an x coordinate. */
  function Snake(a: Lines, b: Lines, x: nat, y: nat): (r: nat)
    ensures x <= r
    ensures r == x || (r <= |a| && r - x + y <= |b|)
    decreases |a| - x
  {
    if x < |a| && y < |b| && a[x] == b[y] then Snake(a, b, x + 1, y + 1) else x
  }

  /** Round d enters diagonal k from diagonal k + 1 rather than from k - 1. */
  predicate Down(a: Lines, b: Lines, d: nat, k: int)
    requires d > 0 && Visited(d, k)
    decreases d, 0
  {
    k == 0 - d || (k != d && Furthest(a, b, d - 1, k - 1) < Furthest(a, b, d - 1, k + 1))
  }

  /** Where round d enters diagonal k. */
  function Start(a: Lines, b: Lines, d: nat, k: int): (r: nat)
    requires Visited(d, k)
    ensures r >= k
    decreases d, 1
  {
    if d == 0 then 0
    else if Down(a, b, d, k) then Furthest(a, b, d - 1, k + 1)
    else Furthest(a, b, d - 1, k - 1) + 1
  }

  /** The x coordinate that round d records for diagonal k. */
  function Furthest(a: Lines, b: Lines, d: nat, k: int): (r: nat)
    requires Visited(d, k)
    ensures r >= k
    decreases d, 2
  {
    Snake(a, b, Start(a, b, d, k), Start(a, b, d, k) - k)
  }

  lemma FurthestIsSnake(a: Lines, b: Lines, d: nat, k: int)
    requires Visited(d, k)
    ensures var x := Start(a, b, d, k); k <= x <= Furthest(a, b, d, k) == Snake(a, b, x, x - k)
  {
  }

  /** A snake on diagonal k passes over matching lines only and ends where they do. */
  lemma {:induction false} SnakeMatches(a: Lines, b: Lines, x: nat, k: int)
    requires x >= k
    ensures var r := Snake(a, b, x, x - k);
      forall i | x <= i < r :: i < |a| && i - k < |b| && a[i] == b[i - k]
    ensures var r := Snake(a, b, x, x - k);
      !(r < |a| && r - k < |b| && a[r] == b[r - k])
    decreases |a| - x
  {
    if x < |a| && x - k < |b| && a[x] == b[x - k] {
      SnakeMatches(a, b, x + 1, k);
    }
  }

  /** A round enters a diagonal no earlier than either neighbour of the round before allows. */
  lemma StartDominates(a: Lines, b: Lines, d: nat, k: int, j: int)
    requires d > 0 && Visited(d - 1, j) && (j == k - 1 || j == k + 1)
    ensures Visited(d, k)
    ensures Furthest(a, b, d, k) >= if j < k then Furthest(a, b, d - 1, j) + 1 else Furthest(a, b, d - 1, j)
  {
    var f := Furthest(a, b, d - 1, j);
    assert Visited(d, k);
    assert Start(a, b, d, k) >= if j < k then f + 1 else f;
  }

  /** No match continues from the recorded point. */
  lemma FurthestIsStuck(a: Lines, b: Lines, d: nat, k: int)
    requires Visited(d, k)
    ensures var x := Furthest(a, b, d, k); !(x < |a| && x - k < |b| && a[x] == b[x - k])
  {
    SnakeMatches(a, b, Start(a, b, d, k), k);
  }

  /** No path with d edits gets further along a diagonal than the recorded point. */
  lemma {:induction false} FurthestIsBound(a: Lines, b: Lines, d: nat, x: nat, y: nat)
    requires Reach(a, b, d, x, y)
    ensures Visited(d, x - y) && x <= Furthest(a, b, d, x - y)
    decreases x + y
  {
    hide Furthest;
    if 0 < x <= |a| && 0 < y <= |b| && a[x - 1] == b[y - 1] && Reach(a, b, d, x - 1, y - 1) {
      FurthestIsBound(a, b, d, x - 1, y - 1);
      assert (x - 1) - (y - 1) == x - y;
      FurthestIsStuck(a, b, d, x - y);
    } else if d > 0 && x > 0 && Reach(a, b, d - 1, x - 1, y) {
      FurthestIsBound(a, b, d - 1, x - 1, y);
      StartDominates(a, b, d, x - y, x - 1 - y);
    } else if d > 0 && y > 0 && Reach(a, b, d - 1, x, y - 1) {
      FurthestIsBound(a, b, d - 1, x, y - 1);
      StartDominates(a, b, d, x - y, x - (y - 1));
    }
  }

  lemma {:induction false} SnakeReach(a: Lines, b: Lines, d: nat, x: nat, y: nat)
    requires Reach(a, b, d, x, y)
    ensures Reach(a, b, d, Snake(a, b, x, y), Snake(a, b, x, y) - x + y)
    decreases |a| - x
  {
    if x < |a| && y < |b| && a[x] == b[y] {
      assert Reach(a, b, d, x + 1, y + 1);
      SnakeReach(a, b, d, x + 1, y + 1);
    }
  }

  /** The recorded point is the end of a path with exactly d edits. */
  lemma {:induction false} FurthestIsReached(a: Lines, b: Lines, d: nat, k: int)
    requires Visited(d, k)
    ensures Reach(a, b, d, Furthest(a, b, d, k), Furthest(a, b, d, k) - k)
    decreases d
  {
    var s := Start(a, b, d, k);
    if d == 0 {
    } else if Down(a, b, d, k) {
      FurthestIsReached(a, b, d - 1, k + 1);
      assert Reach(a, b, d - 1, s, s - (k + 1));
    } else {
      FurthestIsReached(a, b, d - 1, k - 1);
      assert Reach(a, b, d - 1, s - 1, s - 1 - (k - 1));
    }
    assert Reach(a, b, d, s, s - k);
    SnakeReach(a, b, d, s, s - k);
  }

  function Min(x: int, y: int): int { if x < y then x else y }

  /** How far a point lies outside the n by m grid. */
  function Excess(a: Lines, b: Lines, x: nat, y: nat): nat {
    (x - Min(x, |a|)) + (y - Min(y, |b|))
  }

  /** A path that leaves the grid spends one edit on every step outside it. */
  lemma {:induction false} Clamp(a: Lines, b: Lines, d: nat, x: nat, y: nat)
    requires Reach(a, b, d, x, y)
    ensures Excess(a, b, x, y) <= d
    ensures Reach(a, b, d - Excess(a, b, x, y), Min(x, |a|), Min(y, |b|))
    decreases x + y
  {
    if 0 < x <= |a| && 0 < y <= |b| && a[x - 1] == b[y - 1] && Reach(a, b, d, x - 1, y - 1) {
    } else if d > 0 && x > 0 && Reach(a, b, d - 1, x - 1, y) {
      Clamp(a, b, d - 1, x - 1, y);
    } else if d > 0 && y > 0 && Reach(a, b, d - 1, x, y - 1) {
      Clamp(a, b, d - 1, x, y - 1);
    }
  }

  lemma {:induction false} ReachByInserting(a: Lines, b: Lines, x: nat, y: nat)
    ensures Reach(a, b, x + y, x, y)
    decreases x + y
  {
    if x > 0 {
      ReachByInserting(a, b, x - 1, y);
    } else if y > 0 {
      ReachByInserting(a, b, x, y - 1);
    }
  }

  /** The test that ends the forward sweep, at round d and diagonal k. */
  ghost predicate Hit(a: Lines, b: Lines, d: nat, k: int)
    requires Visited(d, k)
  {
    Furthest(a, b, d, k) >= |a| && Furthest(a, b, d, k) - k >= |b|
  }

  ghost predicate NoHitBefore(a: Lines, b: Lines, d: nat) {
    forall e: nat, k | e < d && Visited(e, k) :: !Hit(a, b, e, k)
  }

  /** A path to the corner makes the sweep stop in its round. */
  lemma CornerHits(a: Lines, b: Lines, d: nat)
    requires Reach(a, b, d, |a|, |b|)
    ensures Visited(d, |a| - |b|) && Hit(a, b, d, |a| - |b|)
  {
    FurthestIsBound(a, b, d, |a|, |b|);
  }

  /** The first hit is the corner itself, never a point outside the grid. */
  lemma FirstHitIsCorner(a: Lines, b: Lines, d: nat, k: int)
    requires Visited(d, k) && Hit(a, b, d, k) && NoHitBefore(a, b, d)
    ensures k == |a| - |b| && Furthest(a, b, d, k) == |a|
  {
    hide Furthest, Reach;
    var x := Furthest(a, b, d, k);
    FurthestIsReached(a, b, d, k);
    Clamp(a, b, d, x, x - k);
    var e := d - Excess(a, b, x, x - k);
    CornerHits(a, b, e);
    assert e >= d;
  }

  /** From any reached point, a script for the rest of both files is a path to the corner. */
  lemma {:induction false} ScriptIsPath(a: Lines, b: Lines, d: nat, x: nat, y: nat, s: seq<Item>)
    requires x <= |a| && y <= |b| && Reach(a, b, d, x, y)
    requires NothingIgnored(s) && OldText(s) == a[x..] && NewText(s) == b[y..]
    ensures Reach(a, b, d + Cost(s), |a|, |b|)
    decreases |s|
  {
    if s != [] {
      var i := s[0];
      var x' := if i.InOld() then x + 1 else x;
      var y' := if i.InNew() then y + 1 else y;
      assert OldText(s)[if i.InOld() then 1 else 0..] == OldText(s[1..]);
      assert NewText(s)[if i.InNew() then 1 else 0..] == NewText(s[1..]);
      assert i.InOld() ==> a[x..][0] == i.text;
      assert i.InNew() ==> b[y..][0] == i.text;
      var d' := if i.IsChange() then d + 1 else d;
      assert Reach(a, b, d', x', y');
      ScriptIsPath(a, b, d', x', y', s[1..]);
    }
  }

  /** Every script between the two files costs at least as many rounds as the sweep takes. */
  lemma RoundsAreMinimal(a: Lines, b: Lines, d: nat, s: seq<Item>)
    requires NoHitBefore(a, b, d)
    requires NothingIgnored(s) && OldText(s) == a && NewText(s) == b
    ensures d <= Cost(s)
  {
    ScriptIsPath(a, b, 0, 0, 0, s);
    CornerHits(a, b, Cost(s));
  }
}
