/** patch -R on a whole patch: the reversed hunks are the hunks of the exchanged script. */
module PatchReverse {
  import opened EditScript
  import opened Hunks
  import opened Patch
  import opened DiffPatch
  import opened PatchRun

  // ---- The script that leads back ----

  function Flip(i: Item): Item {
    match i.op
    case Eq => i
    case Del => Item(Ins, i.text)
    case Ins => Item(Del, i.text)
    case IgnoredDel => Item(IgnoredIns, i.text)
    case IgnoredIns => Item(IgnoredDel, i.text)
  }

  function Flipped(s: seq<Item>): (r: seq<Item>)
    ensures |r| == |s| && forall i | 0 <= i < |s| :: r[i] == Flip(s[i])
  {
    seq(|s|, i requires 0 <= i < |s| => Flip(s[i]))
  }

  lemma {:induction false} FlippedTexts(s: seq<Item>)
    ensures OldText(Flipped(s)) == NewText(s) && NewText(Flipped(s)) == OldText(s)
  {
    if s != [] {
      assert Flipped(s)[1..] == Flipped(s[1..]);
      FlippedTexts(s[1..]);
    }
  }

  lemma FlippedSlice(s: seq<Item>, i: nat, j: nat)
    requires i <= j <= |s|
    ensures Flipped(s)[i..j] == Flipped(s[i..j]) && Flipped(s)[..i] == Flipped(s[..i])
  {
  }

  lemma FlippedLines(s: seq<Item>)
    ensures HunkLines(Flipped(s)) == ReversedLines(HunkLines(s))
  {
    var p, q := HunkLines(Flipped(s)), ReversedLines(HunkLines(s));
    forall i | 0 <= i < |s|
      ensures p[i] == q[i]
    {
      FlippedLine(s[i]);
    }
  }

  lemma FlippedLine(i: Item)
    ensures Prefixed(Flip(i)) == ReversedLine(Prefixed(i))
  {
    var l := Prefixed(i);
    assert l[1..] == i.text;
  }

  /** Reversing a hunk gives the hunk of the exchanged script. */
  lemma FlippedHunk(script: seq<Item>, s: nat, e: nat)
    requires s <= e <= |script|
    ensures HunkOf(Flipped(script), s, e) == Reversed(HunkOf(script, s, e))
  {
    hide OldText, NewText, HunkLines, ReversedLines, Flipped;
    assert |Flipped(script)| == |script|;
    FlippedSlice(script, s, e);
    FlippedTexts(script[..s]);
    FlippedTexts(script[s..e]);
    FlippedLines(script[s..e]);
  }

  // ---- It is cut into the same spans ----

  ghost predicate SameChanges(s: seq<Item>, t: seq<Item>) {
    |s| == |t| && forall i | 0 <= i < |s| :: s[i].IsChange() == t[i].IsChange()
  }

  lemma {:induction false} NextChangeSame(s: seq<Item>, t: seq<Item>, i: nat)
    requires SameChanges(s, t) && i <= |s|
    ensures NextChange(s, i) == NextChange(t, i)
    decreases |s| - i
  {
    if i < |s| && !s[i].IsChange() {
      NextChangeSame(s, t, i + 1);
    }
  }

  lemma {:induction false} SpanSame(s: seq<Item>, t: seq<Item>, context: nat, p: Span)
    requires SameChanges(s, t) && SpanOk(s, context, p)
    ensures SpanOk(t, context, p)
  {
    hide NextChange;
    NextChangeSame(s, t, p.last + 1);
    forall j | p.first <= j < p.last && t[j].IsChange()
      ensures NextChange(t, j + 1) - j - 1 <= 2 * context
    {
      NextChangeSame(s, t, j + 1);
      assert s[j].IsChange();
    }
  }

  lemma {:induction false} AfterSame(s: seq<Item>, t: seq<Item>, spans: seq<Span>, n: nat)
    requires SameChanges(s, t) && n <= |spans|
    ensures After(s, spans, n) == After(t, spans, n)
  {
    hide NextChange;
    if n == 0 {
      NextChangeSame(s, t, 0);
    } else if spans[n - 1].last < |s| {
      NextChangeSame(s, t, spans[n - 1].last + 1);
    }
  }

  lemma {:induction false} PartitionSame(s: seq<Item>, t: seq<Item>, context: nat, spans: seq<Span>)
    requires SameChanges(s, t) && Partition(s, context, spans)
    ensures Partition(t, context, spans)
  {
    hide SpanOk, After;
    forall n | 0 <= n < |spans|
      ensures SpanOk(t, context, spans[n])
    {
      SpanSame(s, t, context, spans[n]);
    }
    forall n | 0 <= n < |spans|
      ensures spans[n].first == After(t, spans, n)
    {
      AfterSame(s, t, spans, n);
    }
    AfterSame(s, t, spans, |spans|);
  }

  // ---- Whole patches ----

  /** The reversed hunks of a script are the hunks of the exchanged script. */
  lemma {:induction false} FlippedHunks(script: seq<Item>, context: nat, spans: seq<Span>, hunks: seq<Hunk>)
    requires NothingIgnored(script) && Partition(script, context, spans) && AreHunksOf(script, spans, hunks)
    ensures NothingIgnored(Flipped(script)) && Partition(Flipped(script), context, spans)
    ensures AreHunksOf(Flipped(script), spans, Turned(hunks, true))
  {
    hide HunkOf, Partition, Reversed;
    PartitionSame(script, Flipped(script), context, spans);
    forall n | 0 <= n < |spans|
      ensures Turned(hunks, true)[n] == HunkOf(Flipped(script), spans[n].start, spans[n].end)
    {
      FlippedHunk(script, spans[n].start, spans[n].end);
    }
  }

  /** The reversed hunks, applied last to first, turn the new file back into the old one. */
  lemma {:induction false} ReversedHunksRestoreOldFile(script: seq<Item>, context: nat, spans: seq<Span>, hunks: seq<Hunk>)
    requires NothingIgnored(script) && Partition(script, context, spans) && AreHunksOf(script, spans, hunks)
    ensures forall h | h in Turned(hunks, true) :: 1 <= h.oldStart && 0 <= h.oldCount
    ensures PatchedBackwards(NewText(script), Turned(hunks, true)) == OldText(script)
  {
    hide PatchedBackwards, Partition, AreHunksOf, OldText, NewText, Turned, Flipped;
    FlippedHunks(script, context, spans, hunks);
    FlippedTexts(script);
    HunksRebuildNewFile(Flipped(script), context, spans, Turned(hunks, true));
  }

  /** patch -R, first to last, leads back along the script exactly when every reversed hunk is right in its turn,
      and then restores the old file. */
  lemma {:induction false} ReverseRunRestoresWhen(script: seq<Item>, context: nat, spans: seq<Span>, hunks: seq<Hunk>, states: seq<Lines>, applied: nat)
    requires NothingIgnored(script) && Partition(script, context, spans) && AreHunksOf(script, spans, hunks)
    requires IsRun(Turned(hunks, true), false, states, applied) && states[0] == NewText(script)
    ensures AreHunksOf(Flipped(script), spans, Turned(hunks, true))
    ensures applied == |hunks| && OnScript(Flipped(script), spans, states, |hunks|) <==>
      forall k | 0 <= k < |hunks| :: RightAt(Flipped(script), spans, Turned(hunks, true), k)
    ensures applied == |hunks| && OnScript(Flipped(script), spans, states, |hunks|) ==> states[applied] == OldText(script)
  {
    hide Partition, HunkOf, OldText, NewText, Reversed, RightAt, Outcome, Partly;
    FlippedHunks(script, context, spans, hunks);
    FlippedTexts(script);
    PatchFollowsScriptWhen(Flipped(script), context, spans, Turned(hunks, true), states, applied);
  }
}
