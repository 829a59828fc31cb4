/** The imperative `Diff`: forward sweep over one array of diagonals, backtrack over its saved copies. */
module Diff {
  import opened EditScript
  import opened Myers
  import opened Sequences

  /** A saved copy of the diagonal array holds what round d computed on the diagonals it visited. */
  ghost predicate RowHolds(a: Lines, b: Lines, row: seq<int>, d: nat) {
    && d <= |a| + |b|
    && |row| == 2 * (|a| + |b|) + 1
    && forall k | Visited(d, k) :: row[|a| + |b| + k] == Furthest(a, b, d, k)
  }

  /** As `RowHolds`, for a round that has finished the diagonals below k, none of which ended the sweep. */
  ghost predicate RowBelow(a: Lines, b: Lines, row: seq<int>, d: nat, k: int) {
    && d <= |a| + |b|
    && |row| == 2 * (|a| + |b|) + 1
    && forall j | Visited(d, j) && j < k :: row[|a| + |b| + j] == Furthest(a, b, d, j) && !Hit(a, b, d, j)
  }

  /** The row that round d reads. */
  ghost predicate Previous(a: Lines, b: Lines, row: seq<int>, d: nat) {
    if d == 0 then 0 < |a| + |b| && |row| == 2 * (|a| + |b|) + 1 && row[|a| + |b| + 1] == 0
    else RowHolds(a, b, row, d - 1)
  }

  /** Writing the entry of one diagonal leaves the entries of the other parity alone. */
  lemma RecordKeepsPrevious(a: Lines, b: Lines, row: seq<int>, d: nat, k: int, x: int)
    requires d <= |a| + |b| && Visited(d, k) && Previous(a, b, row, d)
    ensures Previous(a, b, row[|a| + |b| + k := x], d)
  {
    if d > 0 {
      var e := d - 1;
      forall j | Visited(e, j)
        ensures row[|a| + |b| + k := x][|a| + |b| + j] == Furthest(a, b, e, j)
      {
        assert row[|a| + |b| + j] == Furthest(a, b, e, j);
      }
    }
  }

  /** Writing the entry of a diagonal that does not end the sweep finishes it. */
  lemma RecordAdvances(a: Lines, b: Lines, row: seq<int>, d: nat, k: int, x: int)
    requires Visited(d, k) && RowBelow(a, b, row, d, k) && x == Furthest(a, b, d, k) && !Hit(a, b, d, k)
    ensures RowBelow(a, b, row[|a| + |b| + k := x], d, k + 2)
  {
    hide Furthest, Hit;
    forall j | Visited(d, j) && j < k + 2
      ensures row[|a| + |b| + k := x][|a| + |b| + j] == Furthest(a, b, d, j) && !Hit(a, b, d, j)
    {
      EntryHolds(a, b, row, d, k, x, j);
    }
  }

  lemma EntryHolds(a: Lines, b: Lines, row: seq<int>, d: nat, k: int, x: int, j: int)
    requires Visited(d, k) && RowBelow(a, b, row, d, k) && x == Furthest(a, b, d, k) && !Hit(a, b, d, k)
    requires Visited(d, j) && j < k + 2
    ensures row[|a| + |b| + k := x][|a| + |b| + j] == Furthest(a, b, d, j) && !Hit(a, b, d, j)
  {
    VisitedRange(d, j, k);
    VisitedRange(d, k, k);
    hide Furthest, Hit, Visited;
    if j < k {
      assert row[|a| + |b| + j] == Furthest(a, b, d, j);
    }
  }

  lemma VisitedRange(d: nat, j: int, k: int)
    requires Visited(d, j) && Visited(d, k) && j < k + 2
    ensures 0 - d <= j <= d && j <= k
  {
  }

  /** Follows matching lines forward along diagonal k. */
  method Slide(a: Lines, b: Lines, x0: nat, k: int) returns (x: nat)
    requires x0 >= k
    ensures x == Snake(a, b, x0, x0 - k)
  {
    x := x0;
    var y := x - k;
    while x < |a| && y < |b| && a[x] == b[y]
      invariant 0 <= y == x - k
      invariant Snake(a, b, x, y) == Snake(a, b, x0, x0 - k)
    {
      x := x + 1;
      y := y + 1;
    }
  }

  /** Where round d enters diagonal k, read off the row of the round before. */
  method Enter(a: Lines, b: Lines, d: nat, k: int, v: array<int>) returns (x: int)
    requires v.Length == 2 * (|a| + |b|) + 1 && 0 < |a| + |b| && d <= |a| + |b|
    requires Visited(d, k) && Previous(a, b, v[..], d)
    ensures x == Start(a, b, d, k)
  {
    var maxD := |a| + |b|;
    assert d > 0 && k != 0 - d ==> v[..][maxD + k - 1] == Furthest(a, b, d - 1, k - 1);
    assert d > 0 && k != d ==> v[..][maxD + k + 1] == Furthest(a, b, d - 1, k + 1);
    if k == 0 - d || (k != d && v[maxD + k - 1] < v[maxD + k + 1]) {
      x := v[maxD + k + 1];
    } else {
      x := v[maxD + k - 1] + 1;
    }
  }

  /** One round of the sweep: updates the diagonals of d's parity in place, reading the others. */
  method Round(a: Lines, b: Lines, d: nat, v: array<int>) returns (stop: bool)
    requires 0 < |a| + |b| && d <= |a| + |b| && v.Length == 2 * (|a| + |b|) + 1
    requires Previous(a, b, v[..], d)
    requires NoHitBefore(a, b, d)
    modifies v
    ensures stop ==> Visited(d, |a| - |b|) && Furthest(a, b, d, |a| - |b|) == |a|
    ensures !stop ==> RowHolds(a, b, v[..], d) && NoHitBefore(a, b, d + 1)
  {
    var maxD := |a| + |b|;
    var k := 0 - d;
    while k <= d
      invariant 0 - d <= k <= d + 2 && (d - k) % 2 == 0
      invariant RowBelow(a, b, v[..], d, k) && Previous(a, b, v[..], d)
    {
      var x0 := Enter(a, b, d, k, v);
      var x := Slide(a, b, x0, k);
      RecordKeepsPrevious(a, b, v[..], d, k, x);
      ghost var row := v[..];
      v[maxD + k] := x;
      assert v[..] == row[maxD + k := x];
      if x >= |a| && x - k >= |b| {
        FirstHitIsCorner(a, b, d, k);
        return true;
      }
      RecordAdvances(a, b, row, d, k, x);
      k := k + 2;
    }
    return false;
  }

  /** The forward sweep: it always stops, and it stops at the corner (n, m). */
  method Sweep(a: Lines, b: Lines) returns (d: nat, trace: seq<seq<int>>)
    requires 0 < |a| + |b|
    ensures d <= |a| + |b| && Visited(d, |a| - |b|) && Furthest(a, b, d, |a| - |b|) == |a|
    ensures NoHitBefore(a, b, d)
    ensures |trace| == d + 1 && forall e | 0 <= e < d :: RowHolds(a, b, trace[e], e)
  {
    var maxD := |a| + |b|;
    var v := new int[2 * maxD + 1](_ => 0);
    trace := [];
    d := 0;
    while d <= maxD
      invariant d <= maxD + 1 && |trace| == d
      invariant Previous(a, b, v[..], d)
      invariant forall e | 0 <= e < d :: RowHolds(a, b, trace[e], e)
      invariant NoHitBefore(a, b, d)
    {
      var stop := Round(a, b, d, v);
      trace := trace + [v[..]];
      if stop {
        return;
      }
      d := d + 1;
    }
    ReachByInserting(a, b, |a|, |b|);
    CornerHits(a, b, maxD);
    assert false;
  }

  /** What a script under construction, last item first, already covers. */
  ghost predicate Covers(a: Lines, b: Lines, x: int, y: int, cost: nat, script: seq<Item>) {
    && 0 <= x <= |a| && 0 <= y <= |b|
    && NothingIgnored(script)
    && OldText(Reversed(script)) == a[x..]
    && NewText(Reversed(script)) == b[y..]
    && Cost(Reversed(script)) == cost
  }

  /** Appending one item to the reversed script extends what it covers by one step back. */
  lemma Push(a: Lines, b: Lines, x: int, y: int, cost: nat, script: seq<Item>, i: Item)
    requires Covers(a, b, x, y, cost, script)
    requires i.op.Eq? || i.op.Del? || i.op.Ins?
    requires i.InOld() ==> 0 < x && i.text == a[x - 1]
    requires i.InNew() ==> 0 < y && i.text == b[y - 1]
    ensures Covers(a, b, if i.InOld() then x - 1 else x, if i.InNew() then y - 1 else y,
                   if i.IsChange() then cost + 1 else cost, script + [i])
  {
    ReversedPush(script, i);
    var r := Reversed(script);
    assert ([i] + r)[1..] == r;
    assert i.InOld() ==> [a[x - 1]] + a[x..] == a[x - 1..];
    assert i.InNew() ==> [b[y - 1]] + b[y..] == b[y - 1..];
  }

  /** Walks matching lines back from (x, y) to column `start`. */
  method BackUp(a: Lines, b: Lines, x0: nat, y0: nat, start: nat, ghost cost: nat, script0: seq<Item>)
    returns (x: nat, y: nat, script: seq<Item>)
    requires Covers(a, b, x0, y0, cost, script0)
    requires start <= x0 && x0 - start <= y0
    requires forall i | start <= i < x0 :: a[i] == b[i - x0 + y0]
    ensures x == start && y == start - x0 + y0 && Covers(a, b, x, y, cost, script)
  {
    x, y, script := x0, y0, script0;
    while x > start
      invariant start <= x <= x0 && y == x - x0 + y0
      invariant Covers(a, b, x, y, cost, script)
    {
      Push(a, b, x, y, cost, script, Item(Eq, a[x - 1]));
      x := x - 1;
      y := y - 1;
      script := script + [Item(Eq, a[x])];
    }
  }

  /** Between the entry point and the recorded point of a diagonal, all lines match. */
  lemma EnteredByMatches(a: Lines, b: Lines, d: nat, k: int)
    requires Visited(d, k)
    ensures Start(a, b, d, k) <= Furthest(a, b, d, k)
    ensures forall i | Start(a, b, d, k) <= i < Furthest(a, b, d, k) :: i < |a| && i - k < |b| && a[i] == b[i - k]
  {
    FurthestIsSnake(a, b, d, k);
    hide Furthest, Start, Snake;
    SnakeMatches(a, b, Start(a, b, d, k), k);
  }

  lemma CoversInRange(a: Lines, b: Lines, x: int, y: int, cost: nat, script: seq<Item>)
    requires Covers(a, b, x, y, cost, script)
    ensures 0 <= x <= |a| && 0 <= y <= |b|
  {
  }

  /** The point of the round before from which round d entered diagonal k. */
  method Predecessor(a: Lines, b: Lines, d: nat, k: int, row: seq<int>) returns (prevX: int, isDel: bool)
    requires d > 0 && Visited(d, k) && RowHolds(a, b, row, d - 1)
    ensures Start(a, b, d, k) == if isDel then prevX + 1 else prevX
    ensures var prevK := if isDel then k - 1 else k + 1;
      Visited(d - 1, prevK) && prevX == Furthest(a, b, d - 1, prevK)
  {
    var maxD := |a| + |b|;
    assert k != 0 - d ==> row[maxD + k - 1] == Furthest(a, b, d - 1, k - 1);
    assert k != d ==> row[maxD + k + 1] == Furthest(a, b, d - 1, k + 1);
    var prevK: int;
    if k == 0 - d || (k != d && row[maxD + k - 1] < row[maxD + k + 1]) {
      prevK := k + 1;
    } else {
      prevK := k - 1;
    }
    prevX := row[maxD + prevK];
    isDel := prevK == k - 1;
  }

  /** One round of the backtrack: a run of matching lines, then the one edit that entered it. */
  method StepBack(a: Lines, b: Lines, d: nat, row: seq<int>, x0: nat, y0: nat, ghost cost: nat, script0: seq<Item>)
    returns (x: nat, y: nat, script: seq<Item>)
    requires d > 0 && RowHolds(a, b, row, d - 1)
    requires Visited(d, x0 - y0) && Furthest(a, b, d, x0 - y0) == x0
    requires Covers(a, b, x0, y0, cost, script0)
    ensures Visited(d - 1, x - y) && Furthest(a, b, d - 1, x - y) == x
    ensures Covers(a, b, x, y, cost + 1, script)
  {
    hide Covers, Furthest, Start, RowHolds;
    var k := x0 - y0;
    var prevX, isDel := Predecessor(a, b, d, k, row);
    var startX := if isDel then prevX + 1 else prevX;
    EnteredByMatches(a, b, d, k);
    CoversInRange(a, b, x0, y0, cost, script0);
    x, y, script := BackUp(a, b, x0, y0, startX, cost, script0);
    if isDel {
      Push(a, b, x, y, cost, script, Item(Del, a[x - 1]));
      x := x - 1;
      script := script + [Item(Del, a[x])];
    } else {
      Push(a, b, x, y, cost, script, Item(Ins, b[y - 1]));
      y := y - 1;
      script := script + [Item(Ins, b[y])];
    }
  }

  lemma NothingCovered(a: Lines, b: Lines)
    ensures Covers(a, b, |a|, |b|, 0, [])
  {
  }

  /** Round zero is one run of matching lines from the origin. */
  lemma RoundZeroMatches(a: Lines, b: Lines, x: nat, y: nat)
    requires Visited(0, x - y) && Furthest(a, b, 0, x - y) == x
    ensures x == y && x <= |a| && x <= |b| && a[..x] == b[..x]
  {
    SnakeMatches(a, b, 0, 0);
    assert x > 0 ==> a[x - 1] == b[x - 1];
  }

  /** The backtrack: one edit per round, read off the saved rows. */
  method Backtrack(a: Lines, b: Lines, rounds: nat, trace: seq<seq<int>>) returns (script: seq<Item>)
    requires rounds <= |a| + |b|
    requires Visited(rounds, |a| - |b|) && Furthest(a, b, rounds, |a| - |b|) == |a|
    requires rounds <= |trace| && forall e | 0 <= e < rounds :: RowHolds(a, b, trace[e], e)
    ensures Covers(a, b, 0, 0, rounds, script)
  {
    hide Covers, Furthest, RowHolds, Visited;
    var x: nat, y: nat, d := |a|, |b|, rounds;
    script := [];
    NothingCovered(a, b);
    while d > 0
      invariant 0 <= d <= rounds
      invariant Visited(d, x - y) && Furthest(a, b, d, x - y) == x
      invariant Covers(a, b, x, y, rounds - d, script)
    {
      x, y, script := StepBack(a, b, d, trace[d - 1], x, y, rounds - d, script);
      d := d - 1;
    }
    RoundZeroMatches(a, b, x, y);
    while x > 0 && y > 0
      invariant x == y && x <= |a| && x <= |b| && a[..x] == b[..x]
      invariant Covers(a, b, x, y, rounds, script)
    {
      assert a[x - 1] == a[..x][x - 1] == b[..x][x - 1];
      Push(a, b, x, y, rounds, script, Item(Eq, a[x - 1]));
      x := x - 1;
      y := y - 1;
      script := script + [Item(Eq, a[x])];
    }
  }

  /** The script turns the first file into the second, and no script does so with fewer edits. */
  method Diff(a: Lines, b: Lines) returns (script: seq<Item>)
    ensures NothingIgnored(script) && OldText(script) == a && NewText(script) == b
    ensures forall s | NothingIgnored(s) && OldText(s) == a && NewText(s) == b :: Cost(script) <= Cost(s)
  {
    if |a| + |b| == 0 {
      return [];
    }
    var d, trace := Sweep(a, b);
    var back := Backtrack(a, b, d, trace);
    script := Reverse(back);
    ReversedAt(back);
    forall s | NothingIgnored(s) && OldText(s) == a && NewText(s) == b
      ensures Cost(script) <= Cost(s)
    {
      RoundsAreMinimal(a, b, d, s);
    }
  }
}
