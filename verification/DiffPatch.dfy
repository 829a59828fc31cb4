/** Hunks cut from a script, applied to the script's own old file. */
module DiffPatch {
  import opened EditScript
  import opened Hunks
  import opened Patch
  import GD = GenerateDiff

  /** A hunk's lines expect the old text of their items and put the new text in place. */
  lemma {:induction false} PartsAreTexts(s: seq<Item>)
    ensures OldPart(HunkLines(s)) == OldText(s)
    ensures NewPart(HunkLines(s)) == NewText(s)
  {
    if s != [] {
      assert HunkLines(s)[1..] == HunkLines(s[1..]);
      assert Body(Prefixed(s[0])) == s[0].text;
      PartsAreTexts(s[1..]);
    }
  }

  lemma Cut(s: seq<Item>, i: nat, j: nat)
    requires i <= j <= |s|
    ensures s == s[..j] + s[j..] && s[..j] == s[..i] + s[i..j]
  {
  }

  lemma CutOld(s: seq<Item>, i: nat, j: nat)
    requires i <= j <= |s|
    ensures OldText(s) == OldText(s[..i]) + OldText(s[i..j]) + OldText(s[j..])
  {
    Cut(s, i, j);
    AppendOld(s[..j], s[j..]);
    AppendOld(s[..i], s[i..j]);
  }

  lemma CutNew(s: seq<Item>, i: nat, j: nat)
    requires i <= j <= |s|
    ensures NewText(s) == NewText(s[..i]) + NewText(s[i..j]) + NewText(s[j..])
  {
    Cut(s, i, j);
    AppendNew(s[..j], s[j..]);
    AppendNew(s[..i], s[i..j]);
  }

  /** A hunk's header counts are right, it verifies at its own position in its own old file,
      and applying it there replaces exactly its items. */
  lemma OwnHunkFits(script: seq<Item>, start: nat, end: nat)
    requires start <= end <= |script|
    ensures var h := HunkOf(script, start, end);
      var lines := OldText(script);
      && CountsMatch(h) && Anchor(h) == h.oldStart - 1 && Anchor(h) + h.oldCount <= |lines|
      && Verifies(lines, h.lines, Anchor(h))
      && Spliced(lines, h, Anchor(h))
         == OldText(script[..start]) + NewText(script[start..end]) + OldText(script[end..])
  {
    var h := HunkOf(script, start, end);
    var lines := OldText(script);
    PartsAreTexts(script[start..end]);
    CutOld(script, start, end);
    var pos := Anchor(h);
    assert lines[pos..pos + h.oldCount] == OldText(script[start..end]);
    VerifiesIsEquality(lines, h.lines, pos);
    SplicedInside(lines, h, pos);
    assert lines[..pos] == OldText(script[..start]);
    assert lines[pos + h.oldCount..] == OldText(script[end..]);
  }

  /** The search never prefers another position to a hunk's own. */
  lemma OwnHunkIsFirstChoice(script: seq<Item>, start: nat, end: nat, pos: int)
    requires start <= end <= |script|
    requires FirstFit(OldText(script), HunkOf(script, start, end), pos)
    ensures pos == Anchor(HunkOf(script, start, end))
  {
    var h := HunkOf(script, start, end);
    OwnHunkFits(script, start, end);
    assert Fits(OldText(script), h, Anchor(h));
  }

  /** patch accepts a hunk on the very file it was made from exactly when its result is not found nearby
      already, and then replaces exactly its items. */
  lemma OwnHunkAccepted(script: seq<Item>, start: nat, end: nat, result: Lines, ok: bool)
    requires start <= end <= |script| && HunkOf(script, start, end).oldCount > 0
    requires Outcome(OldText(script), HunkOf(script, start, end), false, result, ok)
    ensures ok <==> !Applied(OldText(script), HunkOf(script, start, end))
    ensures ok ==> result == OldText(script[..start]) + NewText(script[start..end]) + OldText(script[end..])
    ensures !ok ==> result == OldText(script)
  {
    hide Applied, Verifies, Spliced, HunkLines;
    var h, lines := HunkOf(script, start, end), OldText(script);
    OwnHunkFits(script, start, end);
    assert Fits(lines, h, Anchor(h));
    if ok && !Applied(lines, h) {
      var pos :| FirstFit(lines, h, pos) && result == Spliced(lines, h, pos);
      OwnHunkIsFirstChoice(script, start, end, pos);
    }
  }

  /** A hunk that only deletes lines above its context is refused on the file it was made from,
      because that context is taken for its result. */
  lemma FreshDeletionRefused(del: string, keep: string)
    ensures var script := [Item(Del, del), Item(Eq, keep)];
      var h := HunkOf(script, 0, 2);
      h.oldCount == 2 && Applied(OldText(script), h) && NewText(script) == [keep]
  {
    var script := [Item(Del, del), Item(Eq, keep)];
    var h := HunkOf(script, 0, 2);
    assert script[0..2] == script;
    assert script[1..] == [Item(Eq, keep)];
    Single(script[0]);
    Single(script[1]);
    AppendOld([script[0]], [script[1]]);
    AppendNew([script[0]], [script[1]]);
    assert script == [script[0]] + [script[1]];
    hide OldText, NewText;
    var ls := h.lines;
    assert ls == ["-" + del, " " + keep];
    assert ls[1..] == [" " + keep] && ls[1..][1..] == [];
    assert Expected(ls[1..]) == [keep];
    assert Expected(ls) == [keep];
    assert FoundAt(OldText(script), [keep], 1);
  }

  /** A hunk that expects no lines is put at the top, which is wrong for lines appended below others. */
  lemma AppendedLineGoesToTop()
    ensures var script := [Item(Eq, "a"), Item(Ins, "x")];
      var h := HunkOf(script, 1, 2);
      h.oldCount == 0 && Spliced(OldText(script), h, 0) == ["x", "a"] && NewText(script) == ["a", "x"]
  {
    var script := [Item(Eq, "a"), Item(Ins, "x")];
    assert script[..1] == [script[0]] && script[1..2] == [script[1]] && script == [script[0]] + [script[1]];
    Single(script[0]);
    Single(script[1]);
    AppendOld([script[0]], [script[1]]);
    AppendNew([script[0]], [script[1]]);
    hide OldText, NewText, HunkLines;
    PartsAreTexts(script[1..2]);
    SplicedAtTop(OldText(script), HunkOf(script, 1, 2));
  }

  /** Such a hunk is always accepted, and does what it stands for exactly when its lines commute with the
      lines above it. */
  lemma InsertionIsRightWhen(script: seq<Item>, start: nat, end: nat, ignoreApplied: bool, result: Lines, ok: bool)
    requires start <= end <= |script| && HunkOf(script, start, end).oldCount == 0
    requires Outcome(OldText(script), HunkOf(script, start, end), ignoreApplied, result, ok)
    ensures ok && result == NewText(script[start..end]) + OldText(script)
    ensures var above, added := OldText(script[..start]), NewText(script[start..end]);
      result == above + added + OldText(script[end..]) <==> added + above == above + added
  {
    hide OldText, NewText, HunkLines, NewPart, Applied, Spliced;
    PartsAreTexts(script[start..end]);
    CutOld(script, start, end);
    SplicedAtTop(OldText(script), HunkOf(script, start, end));
    assert OldText(script[start..end]) == [];
    TopCommutes(OldText(script[..start]), NewText(script[start..end]), OldText(script[end..]), OldText(script), result);
  }

  lemma SplicedAtTop(lines: Lines, h: Hunk)
    requires h.oldCount == 0
    ensures Spliced(lines, h, 0) == NewPart(h.lines) + lines
  {
    hide NewPart;
    assert lines[..0] == [] && lines[0..] == lines;
  }

  lemma TopCommutes(above: Lines, added: Lines, below: Lines, lines: Lines, result: Lines)
    requires lines == above + [] + below && result == added + lines
    ensures result == above + added + below <==> added + above == above + added
  {
    assert result == (added + above) + below;
    SameFront(added + above, above + added, below);
  }

  lemma SameFront(p: Lines, q: Lines, r: Lines)
    requires |p| == |q|
    ensures p + r == q + r <==> p == q
  {
    if p + r == q + r {
      assert p == (p + r)[..|p|] == (q + r)[..|q|] == q;
    }
  }

  // ---- All hunks of a script ----

  /** Applies hunks from the last to the first, each at its own position. */
  function PatchedBackwards(lines: Lines, hunks: seq<Hunk>): Lines
    requires forall h | h in hunks :: 1 <= h.oldStart && 0 <= h.oldCount
    decreases |hunks|
  {
    if hunks == [] then lines
    else
      var h := hunks[|hunks| - 1];
      PatchedBackwards(Spliced(lines, h, h.oldStart - 1), hunks[..|hunks| - 1])
  }

  lemma {:induction false} UnchangedText(s: seq<Item>)
    requires NothingIgnored(s) && forall i | 0 <= i < |s| :: !s[i].IsChange()
    ensures OldText(s) == NewText(s)
  {
    if s != [] {
      UnchangedText(s[1..]);
    }
  }

  /** The first n spans end at or before p, and nothing changes between the last of them and p. */
  ghost predicate CoversUpTo(script: seq<Item>, spans: seq<Span>, n: nat, p: nat) {
    && n <= |spans| && p <= |script|
    && var e := if n == 0 then 0 else spans[n - 1].end;
      e <= p && forall j | e <= j < p :: !script[j].IsChange()
  }

  lemma Link(script: seq<Item>, context: nat, spans: seq<Span>, n: nat)
    requires Chain(script, context, spans) && n < |spans|
    ensures SpanOk(script, context, spans[n]) && spans[n].first == After(script, spans, n)
  {
    hide SpanOk, After;
  }

  /** Hunks come in script order, never touch, and no change falls between two of them. */
  lemma SpansAreDisjoint(script: seq<Item>, context: nat, spans: seq<Span>, n: nat)
    requires Chain(script, context, spans) && n < |spans|
    ensures n > 0 ==> spans[n - 1].end < spans[n].start
    ensures CoversUpTo(script, spans, n, spans[n].start)
  {
    hide Chain, SpanOk;
    Link(script, context, spans, n);
    SpanBounds(script, context, spans[n]);
    if n > 0 {
      Link(script, context, spans, n - 1);
      SpanBounds(script, context, spans[n - 1]);
    }
  }

  /** No change follows the last hunk. */
  lemma SpansReachTheEnd(script: seq<Item>, context: nat, spans: seq<Span>)
    requires Partition(script, context, spans)
    ensures CoversUpTo(script, spans, |spans|, |script|)
  {
    hide Chain;
    if |spans| > 0 {
      Link(script, context, spans, |spans| - 1);
    }
  }

  /** Every change lies inside some hunk. */
  lemma {:induction false} ChangesAreCovered(script: seq<Item>, context: nat, spans: seq<Span>, n: nat, j: nat) returns (m: nat)
    requires Partition(script, context, spans) && n <= |spans|
    requires j < |script| && script[j].IsChange() && After(script, spans, n) <= j
    ensures m < |spans| && spans[m].first <= j <= spans[m].last
    decreases |spans| - n
  {
    hide Chain, SpanOk;
    assert n < |spans|;
    Link(script, context, spans, n);
    SpanBounds(script, context, spans[n]);
    if j <= spans[n].last {
      m := n;
    } else {
      m := ChangesAreCovered(script, context, spans, n + 1, j);
    }
  }

  lemma OldTextOfPrefix(script: seq<Item>, s: nat, e: nat, p: nat)
    requires s <= e <= p <= |script|
    ensures OldText(script[..p]) == OldText(script[..s]) + OldText(script[s..e]) + OldText(script[e..p])
    ensures NewText(script[..p]) == NewText(script[..s]) + NewText(script[s..e]) + NewText(script[e..p])
  {
    var q := script[..p];
    CutOld(q, s, e);
    CutNew(q, s, e);
    assert q[..s] == script[..s] && q[s..e] == script[s..e] && q[e..] == script[e..p];
  }

  /** Applying the first n hunks backwards to a file whose part up to p is old turns that part into new. */
  lemma {:induction false} BackwardsUpTo(script: seq<Item>, context: nat, spans: seq<Span>, hunks: seq<Hunk>, n: nat, p: nat, tail: Lines)
    requires NothingIgnored(script) && Chain(script, context, spans) && AreHunksOf(script, spans, hunks)
    requires CoversUpTo(script, spans, n, p)
    ensures PatchedBackwards(OldText(script[..p]) + tail, hunks[..n]) == NewText(script[..p]) + tail
    decreases n
  {
    hide Chain, Spliced, OldText, NewText, HunkOf;
    if n == 0 {
      UnchangedText(script[..p]);
    } else {
      hide PatchedBackwards;
      Headers(script, spans, hunks);
      var h := hunks[n - 1];
      var s, e := spans[n - 1].start, spans[n - 1].end;
      BackwardsStep(script, s, e, p, tail);
      var rest := NewText(script[s..p]) + tail;
      LastHunk(OldText(script[..p]) + tail, OldText(script[..s]) + rest, hunks[..n], hunks[..n - 1], h);
      SpansAreDisjoint(script, context, spans, n - 1);
      BackwardsUpTo(script, context, spans, hunks, n - 1, s, rest);
      JoinNew(script, s, p, tail);
    }
  }

  lemma Headers(script: seq<Item>, spans: seq<Span>, hunks: seq<Hunk>)
    requires AreHunksOf(script, spans, hunks)
    ensures forall h | h in hunks :: 1 <= h.oldStart && 0 <= h.oldCount
  {
  }

  lemma LastHunk(lines: Lines, next: Lines, hunks: seq<Hunk>, front: seq<Hunk>, h: Hunk)
    requires forall h | h in hunks :: 1 <= h.oldStart && 0 <= h.oldCount
    requires hunks == front + [h] && next == Spliced(lines, h, h.oldStart - 1)
    ensures PatchedBackwards(lines, hunks) == PatchedBackwards(next, front)
  {
    assert hunks[|hunks| - 1] == h && hunks[..|hunks| - 1] == front;
  }

  lemma JoinNew(script: seq<Item>, s: nat, p: nat, tail: Lines)
    requires s <= p <= |script|
    ensures NewText(script[..s]) + (NewText(script[s..p]) + tail) == NewText(script[..p]) + tail
  {
    assert script[..p] == script[..s] + script[s..p];
    AppendNew(script[..s], script[s..p]);
  }

  /** One hunk of the backward pass. */
  lemma BackwardsStep(script: seq<Item>, s: nat, e: nat, p: nat, tail: Lines)
    requires s <= e <= p <= |script| && NothingIgnored(script)
    requires forall j | e <= j < p :: !script[j].IsChange()
    ensures var h := HunkOf(script, s, e);
      Spliced(OldText(script[..p]) + tail, h, h.oldStart - 1) == OldText(script[..s]) + (NewText(script[s..p]) + tail)
  {
    hide OldText, NewText, OldPart, NewPart;
    var h := HunkOf(script, s, e);
    OldTextOfPrefix(script, s, e, p);
    UnchangedText(script[e..p]);
    PartsAreTexts(script[s..e]);
    var before, after := OldText(script[..s]), OldText(script[e..p]) + tail;
    var lines := OldText(script[..p]) + tail;
    assert lines == before + OldText(script[s..e]) + after;
    SpliceMiddle(lines, before, OldText(script[s..e]), after, h);
    assert script[s..p] == script[s..e] + script[e..p];
    AppendNew(script[s..e], script[e..p]);
    assert before + NewText(script[s..e]) + after == before + (NewText(script[s..p]) + tail);
  }

  lemma SpliceMiddle(lines: Lines, before: Lines, mid: Lines, after: Lines, h: Hunk)
    requires lines == before + mid + after && h.oldStart == |before| + 1 && h.oldCount == |mid|
    ensures Spliced(lines, h, h.oldStart - 1) == before + NewPart(h.lines) + after
  {
    hide NewPart;
    SplicedInside(lines, h, |before|);
    assert lines[..|before|] == before;
    assert lines[|before| + |mid|..] == after;
  }

  /** The hunks of a script, applied last to first, turn its old file into its new file. */
  lemma HunksRebuildNewFile(script: seq<Item>, context: nat, spans: seq<Span>, hunks: seq<Hunk>)
    requires NothingIgnored(script) && Partition(script, context, spans) && AreHunksOf(script, spans, hunks)
    ensures forall h | h in hunks :: 1 <= h.oldStart && 0 <= h.oldCount
    ensures PatchedBackwards(OldText(script), hunks) == NewText(script)
  {
    hide Chain, PatchedBackwards, OldText, NewText;
    SpansReachTheEnd(script, context, spans);
    BackwardsUpTo(script, context, spans, hunks, |spans|, |script|, []);
    assert script[..|script|] == script && hunks[..|spans|] == hunks;
    assert OldText(script) + [] == OldText(script) && NewText(script) + [] == NewText(script);
  }

  /** How many lines the first n hunks add. */
  function Growth(hunks: seq<Hunk>, n: nat): int
    requires n <= |hunks|
  {
    if n == 0 then 0 else Growth(hunks, n - 1) + hunks[n - 1].newCount - hunks[n - 1].oldCount
  }

  /** A hunk's two start lines differ by the net growth of the hunks before it. */
  lemma {:induction false} StartsDifferByGrowth(script: seq<Item>, context: nat, spans: seq<Span>, hunks: seq<Hunk>, n: nat)
    requires NothingIgnored(script) && Chain(script, context, spans) && AreHunksOf(script, spans, hunks)
    requires n < |hunks|
    ensures hunks[n].newStart - hunks[n].oldStart == Growth(hunks, n)
  {
    hide Chain, OldText, NewText;
    SpansAreDisjoint(script, context, spans, n);
    var start := spans[n].start;
    if n == 0 {
      UnchangedText(script[..start]);
    } else {
      StartsDifferByGrowth(script, context, spans, hunks, n - 1);
      OldTextOfPrefix(script, spans[n - 1].start, spans[n - 1].end, start);
      UnchangedText(script[spans[n - 1].end..start]);
    }
  }

  /** diff without -B: applied last to first, its hunks turn the first file into the second,
      up to what -b or -w ignores. */
  method GenerateDiff(norm: string -> string, lines1: Lines, lines2: Lines, context: nat)
    returns (differ: bool, hunks: seq<Hunk>)
    ensures differ <==> GD.Normalized(norm, lines1) != GD.Normalized(norm, lines2)
    ensures forall h | h in hunks :: 1 <= h.oldStart && 0 <= h.oldCount
    ensures GD.Normalized(norm, PatchedBackwards(lines1, hunks)) == GD.Normalized(norm, lines2)
    ensures (forall l :: norm(l) == l) ==> PatchedBackwards(lines1, hunks) == lines2
  {
    var script;
    differ, script := GD.GenerateScript(norm, lines1, lines2);
    ghost var spans;
    hunks, spans := BuildHunks(script, context);
    HunksRebuildNewFile(script, context, spans, hunks);
  }
}
