/** The hunks of a patch applied one after the other, first to last, as `Run` does. */
module PatchRun {
  import opened EditScript
  import opened Hunks
  import opened Patch
  import opened DiffPatch

  /** The file before the loop and after each accepted hunk; the first refusal ends the loop. */
  ghost predicate IsRun(hunks: seq<Hunk>, ignoreApplied: bool, states: seq<Lines>, applied: nat) {
    && |states| == applied + 1 && applied <= |hunks|
    && (forall i | 0 <= i < applied :: Outcome(states[i], hunks[i], ignoreApplied, states[i + 1], true))
    && (applied < |hunks| ==> Outcome(states[applied], hunks[applied], ignoreApplied, states[applied], false))
  }

  function Turned(hunks: seq<Hunk>, reverse: bool): (r: seq<Hunk>)
    ensures |r| == |hunks|
  {
    if reverse then seq(|hunks|, i requires 0 <= i < |hunks| => Reversed(hunks[i])) else hunks
  }

  /** A panic, which only a negative count can cause, ends the loop at the hunk that causes it. */
  method ApplyAll(lines0: Lines, hunks: seq<Hunk>, reverse: bool, ignoreApplied: bool)
    returns (lines: Lines, applied: nat, panicked: bool, ghost states: seq<Lines>)
    ensures |states| == applied + 1 && states[0] == lines0 && states[applied] == lines
    ensures !panicked ==> IsRun(Turned(hunks, reverse), ignoreApplied, states, applied)
    ensures panicked ==> applied < |hunks| && IsRun(Turned(hunks, reverse)[..applied], ignoreApplied, states, applied)
    ensures panicked ==> Panics(lines, Turned(hunks, reverse)[applied])
  {
    hide Outcome, Panics;
    ghost var turned := Turned(hunks, reverse);
    lines, applied, panicked, states := lines0, 0, false, [lines0];
    for i := 0 to |hunks|
      invariant applied == i && |states| == i + 1 && states[0] == lines0 && states[i] == lines && !panicked
      invariant forall j | 0 <= j < i :: Outcome(states[j], turned[j], ignoreApplied, states[j + 1], true)
    {
      var h := hunks[i];
      if reverse {
        h := ReverseHunk(h);
      }
      var newLines, ok;
      newLines, ok, panicked := ApplyHunk(lines, h, ignoreApplied);
      if panicked {
        break;
      }
      if !ok {
        RefusedUnchanged(lines, h, ignoreApplied, newLines);
        break;
      }
      states := states + [newLines];
      lines, applied := newLines, applied + 1;
    }
  }

  lemma RefusedUnchanged(lines: Lines, h: Hunk, ignoreApplied: bool, result: Lines)
    requires Outcome(lines, h, ignoreApplied, result, false)
    ensures result == lines
  {
  }

  function Example(): seq<Item> {
    [Item(Del, "a"), Item(Eq, "b"), Item(Del, "x"), Item(Ins, "y"), Item(Eq, "x")]
  }

  /** The offset of the first hunk is not carried over to the second: on a file with two equal lines, patch
      changes the wrong one of them and reports success. */
  lemma OffsetIsNotCarried()
    ensures var script := Example();
      var hunks := [HunkOf(script, 0, 1), HunkOf(script, 2, 4)];
      var states := [["a", "b", "x", "x"], ["b", "x", "x"], ["b", "x", "y"]];
      && Partition(script, 0, [Span(0, 0, 0, 1), Span(2, 2, 3, 4)])
      && IsRun(hunks, false, states, 2)
      && states[0] == OldText(script) && NewText(script) == ["b", "y", "x"]
  {
    hide Outcome, Partition, OldText, NewText, HunkOf;
    ExampleTexts();
    ExampleHunks();
    ExampleSpans();
    ExampleFirst(HunkOf(Example(), 0, 1));
    ExampleSecond(HunkOf(Example(), 2, 4));
  }

  lemma Texts2(i: Item, j: Item)
    ensures OldText([i, j]) == OldText([i]) + OldText([j]) && NewText([i, j]) == NewText([i]) + NewText([j])
  {
    assert [i, j] == [i] + [j];
    AppendOld([i], [j]);
    AppendNew([i], [j]);
  }

  lemma ExampleParts()
    ensures OldText(Example()[..2]) == ["a", "b"] && NewText(Example()[..2]) == ["b"]
    ensures OldText(Example()[2..4]) == ["x"] && NewText(Example()[2..4]) == ["y"]
    ensures OldText(Example()[4..]) == ["x"] && NewText(Example()[4..]) == ["x"]
  {
    var s := Example();
    hide OldText, NewText;
    Single(s[0]);
    Single(s[1]);
    Single(s[2]);
    Single(s[3]);
    Single(s[4]);
    Texts2(s[0], s[1]);
    Texts2(s[2], s[3]);
    assert s[..2] == [s[0], s[1]] && s[2..4] == [s[2], s[3]] && s[4..] == [s[4]];
  }

  lemma ExampleTexts()
    ensures OldText(Example()) == ["a", "b", "x", "x"] && NewText(Example()) == ["b", "y", "x"]
  {
    hide OldText, NewText, Example;
    ExampleParts();
    assert |Example()| == 5 by {
      ExampleSize();
    }
    CutOld(Example(), 2, 4);
    CutNew(Example(), 2, 4);
  }

  lemma ExampleSize()
    ensures |Example()| == 5
  {
  }

  lemma ExampleLines()
    ensures HunkLines(Example()[0..1]) == ["-a"] && HunkLines(Example()[2..4]) == ["-x", "+y"]
  {
    var s := Example();
    assert "-" + "a" == "-a" && "-" + "x" == "-x" && "+" + "y" == "+y";
    assert |s[0..1]| == 1 && s[0..1][0] == s[0];
    assert |s[2..4]| == 2 && s[2..4][0] == s[2] && s[2..4][1] == s[3];
  }

  lemma ExampleHunks()
    ensures HunkOf(Example(), 0, 1) == Hunk(1, 1, 1, 0, ["-a"])
    ensures HunkOf(Example(), 2, 4) == Hunk(3, 1, 2, 1, ["-x", "+y"])
  {
    hide OldText, NewText, HunkLines;
    var s := Example();
    ExampleParts();
    ExampleLines();
    assert s[..0] == [] && s[0..1] == [s[0]];
    NoText();
    Single(s[0]);
  }

  lemma NoText()
    ensures OldText([]) == [] && NewText([]) == []
  {
  }

  lemma ExampleSpans()
    ensures Partition(Example(), 0, [Span(0, 0, 0, 1), Span(2, 2, 3, 4)])
  {
    var script := Example();
    assert NextChange(script, 0) == 0;
    assert NextChange(script, 1) == 2;
    assert NextChange(script, 3) == 3;
    assert NextChange(script, 4) == 5;
    assert SpanOk(script, 0, Span(0, 0, 0, 1));
    assert SpanOk(script, 0, Span(2, 2, 3, 4));
  }

  lemma ExampleFirst(h: Hunk)
    requires h == Hunk(1, 1, 1, 0, ["-a"])
    ensures Outcome(["a", "b", "x", "x"], h, false, ["b", "x", "x"], true)
  {
    var lines := ["a", "b", "x", "x"];
    assert h.lines[1..] == [];
    assert Expected(h.lines) == [];
    assert Verifies(lines, h.lines, 0);
    assert FirstFit(lines, h, 0);
    assert NewPart(h.lines) == [];
    assert Spliced(lines, h, 0) == ["b", "x", "x"];
  }

  lemma ExampleSecond(h: Hunk)
    requires h == Hunk(3, 1, 2, 1, ["-x", "+y"])
    ensures Outcome(["b", "x", "x"], h, false, ["b", "x", "y"], true)
  {
    var lines := ["b", "x", "x"];
    assert h.lines[1..] == ["+y"] && h.lines[1..][1..] == [];
    assert Expected(h.lines[1..]) == ["y"];
    assert Expected(h.lines) == ["y"];
    forall pos: nat
      ensures !FoundAt(lines, ["y"], pos)
    {
      assert pos + 1 <= |lines| ==> lines[pos..pos + 1] == [lines[pos]];
    }
    assert Verifies(lines, h.lines[1..], 3);
    assert Verifies(lines, h.lines, 2);
    assert FirstFit(lines, h, 2);
    assert NewPart(h.lines[1..]) == ["y"];
    assert NewPart(h.lines) == ["y"];
    assert Spliced(lines, h, 2) == ["b", "x", "y"];
  }

  // ---- When the hunks of a script rebuild its new file ----

  /** The file when the script has been carried out up to p. */
  function Partly(script: seq<Item>, p: nat): Lines
    requires p <= |script|
  {
    NewText(script[..p]) + OldText(script[p..])
  }

  /** Nothing changes between two positions without changes between them. */
  lemma PartlySame(script: seq<Item>, e: nat, p: nat)
    requires e <= p <= |script| && NothingIgnored(script) && forall j | e <= j < p :: !script[j].IsChange()
    ensures Partly(script, e) == Partly(script, p)
  {
    hide OldText, NewText;
    UnchangedText(script[e..p]);
    assert script[..p] == script[..e] + script[e..p] && script[e..] == script[e..p] + script[p..];
    AppendNew(script[..e], script[e..p]);
    AppendOld(script[e..p], script[p..]);
  }

  lemma PartlyEnds(script: seq<Item>)
    ensures Partly(script, 0) == OldText(script) && Partly(script, |script|) == NewText(script)
  {
    hide OldText, NewText;
    assert script[..0] == [] && script[0..] == script && script[..|script|] == script && script[|script|..] == [];
    NoText();
  }

  /** In the file as the hunks before it left it, a hunk verifies at its new start line, and applying it there
      carries the script out up to its end. */
  lemma ShiftedHunkFits(script: seq<Item>, s: nat, e: nat)
    requires s <= e <= |script|
    ensures var h, lines := HunkOf(script, s, e), Partly(script, s);
      && 0 <= h.newStart - 1 && h.newStart - 1 + h.oldCount <= |lines|
      && Verifies(lines, h.lines, h.newStart - 1)
      && Spliced(lines, h, h.newStart - 1) == Partly(script, e)
  {
    hide OldText, NewText, HunkLines, OldPart, NewPart, Verifies, Spliced;
    var h, lines := HunkOf(script, s, e), Partly(script, s);
    var before, mid, after := NewText(script[..s]), OldText(script[s..e]), OldText(script[e..]);
    PartsAreTexts(script[s..e]);
    assert script[s..] == script[s..e] + script[e..] && script[..e] == script[..s] + script[s..e];
    AppendOld(script[s..e], script[e..]);
    AppendNew(script[..s], script[s..e]);
    Middle(lines, before, mid, after, h);
  }

  lemma Middle(lines: Lines, before: Lines, mid: Lines, after: Lines, h: Hunk)
    requires lines == before + (mid + after) && OldPart(h.lines) == mid && h.oldCount == |mid|
    ensures Verifies(lines, h.lines, |before|)
    ensures Spliced(lines, h, |before|) == (before + NewPart(h.lines)) + after
  {
    hide OldPart, NewPart, Verifies;
    var n := |before|;
    assert lines[n..n + |mid|] == mid;
    VerifiesIsEquality(lines, h.lines, n);
    SplicedInside(lines, h, n);
    assert lines[..n] == before && lines[n + |mid|..] == after;
  }

  /** Applying the hunk at p does the same as at q: its new lines commute with what lies between. */
  ghost predicate SamePlace(lines: Lines, h: Hunk, p: int, q: int)
    requires 0 <= p && 0 <= q && 0 <= h.oldCount && q + h.oldCount <= |lines|
  {
    var n, lo, hi := h.oldCount, if p < q then p else q, if p < q then q else p;
    p + n <= |lines| && NewPart(h.lines) + lines[lo + n..hi + n] == lines[lo..hi] + NewPart(h.lines)
  }

  lemma SplicesAgree(lines: Lines, h: Hunk, p: nat, q: nat)
    requires 0 <= h.oldCount && q + h.oldCount <= |lines| && (h.oldCount > 0 || p == 0)
    ensures Spliced(lines, h, p) == Spliced(lines, h, q) <==> SamePlace(lines, h, p, q)
  {
    hide NewPart, Spliced;
    if p + h.oldCount > |lines| {
      SplicedInside(lines, h, q);
      SplicedOutside(lines, h, p);
      InsideSize(lines, NewPart(h.lines), q, h.oldCount);
    } else if p < q {
      SplicesInside(lines, h, p, q);
    } else {
      SplicesInside(lines, h, q, p);
    }
  }

  lemma SplicesInside(lines: Lines, h: Hunk, lo: nat, hi: nat)
    requires 0 <= h.oldCount && lo <= hi && hi + h.oldCount <= |lines|
    ensures Spliced(lines, h, lo) == Spliced(lines, h, hi) <==>
      NewPart(h.lines) + lines[lo + h.oldCount..hi + h.oldCount] == lines[lo..hi] + NewPart(h.lines)
  {
    hide NewPart, Spliced;
    SplicedInside(lines, h, lo);
    SplicedInside(lines, h, hi);
    Between(lines, NewPart(h.lines), lo, hi, h.oldCount);
  }

  lemma InsideSize(lines: Lines, added: Lines, q: nat, n: nat)
    requires q + n <= |lines|
    ensures |lines[..q] + added + lines[q + n..]| == |lines| - n + |added|
  {
  }

  lemma SplicedOutside(lines: Lines, h: Hunk, p: nat)
    requires 0 < h.oldCount && p + h.oldCount > |lines|
    ensures |Spliced(lines, h, p)| > |lines| - h.oldCount + |NewPart(h.lines)|
  {
    hide NewPart;
  }

  lemma Between(lines: Lines, added: Lines, lo: nat, hi: nat, n: nat)
    requires lo <= hi && hi + n <= |lines|
    ensures lines[..lo] + added + lines[lo + n..] == lines[..hi] + added + lines[hi + n..] <==>
      added + lines[lo + n..hi + n] == lines[lo..hi] + added
  {
    var x, y, u, v := lines[..lo], lines[hi + n..], added + lines[lo + n..hi + n], lines[lo..hi] + added;
    assert lines[lo + n..] == lines[lo + n..hi + n] + y;
    assert lines[..hi] == x + lines[lo..hi];
    assert lines[..lo] + added + lines[lo + n..] == x + (u + y);
    assert lines[..hi] + added + y == x + (v + y);
    SameMiddle(x, u, v, y);
  }

  lemma SameMiddle(x: Lines, u: Lines, v: Lines, y: Lines)
    requires |u| == |v|
    ensures x + (u + y) == x + (v + y) <==> u == v
  {
    if x + (u + y) == x + (v + y) {
      assert u + y == (x + (u + y))[|x|..] == (x + (v + y))[|x|..] == v + y;
      SameFront(u, v, y);
    }
  }

  /** The hunk, in its turn, will be put where it belongs, or where that makes no difference: at the top when it
      expects no lines, at its first fit otherwise, unless its result is found near its old start line. */
  ghost predicate RightInTurn(lines: Lines, h: Hunk)
    requires 0 <= h.oldCount && 1 <= h.newStart && h.newStart - 1 + h.oldCount <= |lines|
  {
    if h.oldCount == 0 then SamePlace(lines, h, 0, h.newStart - 1)
    else !Applied(lines, h) && exists pos :: FirstFit(lines, h, pos) && SamePlace(lines, h, pos, h.newStart - 1)
  }

  lemma FitIsUnique(lines: Lines, h: Hunk, p: int, q: int)
    requires FirstFit(lines, h, p) && FirstFit(lines, h, q)
    ensures p == q
  {
    hide Fits;
  }

  /** One hunk carries the script on exactly when it is right in its turn. */
  lemma HunkIsRightWhen(script: seq<Item>, s: nat, e: nat, next: Lines, ok: bool)
    requires s <= e <= |script|
    requires Outcome(Partly(script, s), HunkOf(script, s, e), false, next, ok)
    ensures var h := HunkOf(script, s, e); 0 <= h.oldCount && 1 <= h.newStart && h.newStart - 1 + h.oldCount <= |Partly(script, s)|
    ensures ok && next == Partly(script, e) <==> RightInTurn(Partly(script, s), HunkOf(script, s, e))
  {
    hide Applied, Verifies, Spliced, Partly, SamePlace;
    var h, lines := HunkOf(script, s, e), Partly(script, s);
    ShiftedHunkFits(script, s, e);
    var q := h.newStart - 1;
    if h.oldCount == 0 {
      SplicesAgree(lines, h, 0, q);
    } else if !Applied(lines, h) && ok {
      var pos :| FirstFit(lines, h, pos) && next == Spliced(lines, h, pos);
      SplicesAgree(lines, h, pos, q);
      if p :| FirstFit(lines, h, p) && SamePlace(lines, h, p, q) {
        FitIsUnique(lines, h, p, pos);
      }
    }
  }

  lemma Sizes(script: seq<Item>, spans: seq<Span>, hunks: seq<Hunk>, k: nat)
    requires AreHunksOf(script, spans, hunks) && k < |hunks|
    ensures var h := hunks[k]; spans[k].start <= |script| && 0 <= h.oldCount && 1 <= h.newStart
    ensures hunks[k].newStart - 1 + hunks[k].oldCount <= |Partly(script, spans[k].start)|
  {
    hide Partly, Verifies, Spliced;
    ShiftedHunkFits(script, spans[k].start, spans[k].end);
  }

  /** Hunk k carries the script on from where the hunks before it leave it. */
  ghost predicate RightAt(script: seq<Item>, spans: seq<Span>, hunks: seq<Hunk>, k: nat)
    requires AreHunksOf(script, spans, hunks) && k < |hunks|
  {
    Sizes(script, spans, hunks, k);
    RightInTurn(Partly(script, spans[k].start), hunks[k])
  }

  /** The run has followed the script up to the end of hunk n - 1. */
  ghost predicate OnScript(script: seq<Item>, spans: seq<Span>, states: seq<Lines>, n: nat)
    requires n <= |spans| && n < |states|
  {
    forall k | 0 <= k < n :: spans[k].end <= |script| && states[k + 1] == Partly(script, spans[k].end)
  }

  /** The file that hunk n finds. */
  lemma {:induction false} StateBefore(script: seq<Item>, context: nat, spans: seq<Span>, states: seq<Lines>, n: nat)
    requires NothingIgnored(script) && Chain(script, context, spans)
    requires n < |spans| && n < |states| && states[0] == OldText(script) && OnScript(script, spans, states, n)
    ensures spans[n].start <= |script| && states[n] == Partly(script, spans[n].start)
  {
    hide Chain, Partly, OldText;
    SpansAreDisjoint(script, context, spans, n);
    PartlyEnds(script);
    assert n > 0 ==> states[n - 1 + 1] == Partly(script, spans[n - 1].end);
    PartlySame(script, if n == 0 then 0 else spans[n - 1].end, spans[n].start);
  }

  /** A run that has followed the script so far follows it through hunk n exactly when that is right in its turn. */
  lemma NextHunk(script: seq<Item>, context: nat, spans: seq<Span>, hunks: seq<Hunk>, states: seq<Lines>, applied: nat, n: nat)
    requires NothingIgnored(script) && Chain(script, context, spans) && AreHunksOf(script, spans, hunks)
    requires IsRun(hunks, false, states, applied) && states[0] == OldText(script)
    requires n < |hunks| && n <= applied && OnScript(script, spans, states, n)
    ensures n < applied && OnScript(script, spans, states, n + 1) <==> RightAt(script, spans, hunks, n)
  {
    hide Chain, Outcome, Partly, HunkOf, OldText, RightInTurn;
    StateBefore(script, context, spans, states, n);
    var next, ok := if n < applied then states[n + 1] else states[n], n < applied;
    HunkIsRightWhen(script, spans[n].start, spans[n].end, next, ok);
  }

  /** The run follows the script through the first n hunks exactly when these are right in their turn. */
  lemma {:induction false} RunFollowsScript(script: seq<Item>, context: nat, spans: seq<Span>, hunks: seq<Hunk>,
                                            states: seq<Lines>, applied: nat, n: nat)
    requires NothingIgnored(script) && Chain(script, context, spans) && AreHunksOf(script, spans, hunks)
    requires IsRun(hunks, false, states, applied) && states[0] == OldText(script)
    requires n <= |hunks|
    ensures n <= applied && OnScript(script, spans, states, n) <==> forall k | 0 <= k < n :: RightAt(script, spans, hunks, k)
  {
    hide Chain, RightAt, HunkOf, IsRun, OldText, Partly;
    RunLength(hunks, states, applied);
    if n > 0 {
      RunFollowsScript(script, context, spans, hunks, states, applied, n - 1);
      if n - 1 <= applied && OnScript(script, spans, states, n - 1) {
        NextHunk(script, context, spans, hunks, states, applied, n - 1);
      }
    }
  }

  lemma RunLength(hunks: seq<Hunk>, states: seq<Lines>, applied: nat)
    requires IsRun(hunks, false, states, applied)
    ensures |states| == applied + 1 && applied <= |hunks|
  {
  }

  /** patch, hunk by hunk, follows the script that the hunks were cut from exactly when every hunk is right in its
      turn; and then it rebuilds the new file. */
  lemma PatchFollowsScriptWhen(script: seq<Item>, context: nat, spans: seq<Span>, hunks: seq<Hunk>, states: seq<Lines>, applied: nat)
    requires NothingIgnored(script) && Partition(script, context, spans) && AreHunksOf(script, spans, hunks)
    requires IsRun(hunks, false, states, applied) && states[0] == OldText(script)
    ensures applied == |hunks| && OnScript(script, spans, states, |hunks|) <==>
      forall k | 0 <= k < |hunks| :: RightAt(script, spans, hunks, k)
    ensures applied == |hunks| && OnScript(script, spans, states, |hunks|) ==> states[applied] == NewText(script)
  {
    hide Chain, Outcome, Partly, HunkOf, OldText, NewText, RightAt;
    RunFollowsScript(script, context, spans, hunks, states, applied, |hunks|);
    if applied == |hunks| && OnScript(script, spans, states, |hunks|) {
      SpansReachTheEnd(script, context, spans);
      var n := |spans|;
      assert n > 0 ==> states[n - 1 + 1] == Partly(script, spans[n - 1].end);
      PartlySame(script, if n == 0 then 0 else spans[n - 1].end, |script|);
      PartlyEnds(script);
    }
  }

  /** A hunk before which nothing grew is right in its turn exactly when its result is not found near its place. */
  lemma UnshiftedIsRight(script: seq<Item>, s: nat, e: nat)
    requires s <= e <= |script|
    requires var h := HunkOf(script, s, e); h.oldCount > 0 && h.newStart == h.oldStart
    ensures var h := HunkOf(script, s, e); 1 <= h.newStart && h.newStart - 1 + h.oldCount <= |Partly(script, s)|
    ensures RightInTurn(Partly(script, s), HunkOf(script, s, e)) <==> !Applied(Partly(script, s), HunkOf(script, s, e))
  {
    hide Applied, Verifies, Spliced, Partly;
    ShiftedHunkFits(script, s, e);
    var h, lines := HunkOf(script, s, e), Partly(script, s);
    assert FirstFit(lines, h, h.newStart - 1);
    HereIsHere(lines, h, h.newStart - 1);
  }

  lemma HereIsHere(lines: Lines, h: Hunk, p: nat)
    requires 0 <= h.oldCount && p + h.oldCount <= |lines|
    ensures SamePlace(lines, h, p, p)
  {
    assert lines[p..p] == [] && lines[p + h.oldCount..p + h.oldCount] == [];
  }

  /** When hunks replace lines by as many, patch rebuilds the new file exactly when no hunk's result is found
      near its place in the file that the hunks before it leave. */
  lemma EvenHunksRebuildWhen(script: seq<Item>, context: nat, spans: seq<Span>, hunks: seq<Hunk>, states: seq<Lines>, applied: nat)
    requires NothingIgnored(script) && Partition(script, context, spans) && AreHunksOf(script, spans, hunks)
    requires IsRun(hunks, false, states, applied) && states[0] == OldText(script)
    requires forall k | 0 <= k < |hunks| :: hunks[k].oldCount == hunks[k].newCount > 0
    ensures applied == |hunks| && states[applied] == NewText(script) <==>
      forall k | 0 <= k < |hunks| :: !Applied(Partly(script, spans[k].start), hunks[k])
  {
    hide Chain, Outcome, RightInTurn, Partly, HunkOf, OldText, NewText, Applied, OnScript;
    forall k | 0 <= k < |hunks|
      ensures RightAt(script, spans, hunks, k) <==> !Applied(Partly(script, spans[k].start), hunks[k])
    {
      StartsDifferByGrowth(script, context, spans, hunks, k);
      NoGrowth(hunks, k);
      UnshiftedIsRight(script, spans[k].start, spans[k].end);
    }
    if forall k | 0 <= k < |hunks| :: !Applied(Partly(script, spans[k].start), hunks[k]) {
      PatchFollowsScriptWhen(script, context, spans, hunks, states, applied);
    } else {
      var k := FirstApplied(script, spans, hunks);
      RunFollowsScript(script, context, spans, hunks, states, applied, k);
      StateBefore(script, context, spans, states, k);
      if k < applied {
        AppliedIsRefused(states[k], hunks[k], states[k + 1], true);
      }
    }
  }

  lemma AppliedIsRefused(lines: Lines, h: Hunk, next: Lines, ok: bool)
    requires h.oldCount > 0 && Applied(lines, h) && Outcome(lines, h, false, next, ok)
    ensures !ok
  {
  }

  lemma {:induction false} NoGrowth(hunks: seq<Hunk>, n: nat)
    requires n <= |hunks| && forall k | 0 <= k < n :: hunks[k].oldCount == hunks[k].newCount
    ensures Growth(hunks, n) == 0
  {
    if n > 0 {
      NoGrowth(hunks, n - 1);
    }
  }

  lemma FirstApplied(script: seq<Item>, spans: seq<Span>, hunks: seq<Hunk>) returns (k: nat)
    requires |spans| == |hunks| && forall n | 0 <= n < |spans| :: spans[n].start <= |script|
    requires exists n | 0 <= n < |hunks| :: Applied(Partly(script, spans[n].start), hunks[n])
    ensures k < |hunks| && Applied(Partly(script, spans[k].start), hunks[k])
    ensures forall n | 0 <= n < k :: !Applied(Partly(script, spans[n].start), hunks[n])
  {
    hide Applied, Partly;
    k := 0;
    while !Applied(Partly(script, spans[k].start), hunks[k])
      invariant k < |hunks|
      invariant forall n | 0 <= n < k :: !Applied(Partly(script, spans[n].start), hunks[n])
      decreases |hunks| - k
    {
      k := k + 1;
    }
  }
}
