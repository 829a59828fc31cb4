/** Cutting an edit script into unified-diff hunks, as `BuildHunks` does. */
module Hunks {
  import opened EditScript

  datatype Hunk = Hunk(oldStart: int, oldCount: int, newStart: int, newCount: int, lines: seq<string>)

  /** The stretch [start, end) of a script that becomes one hunk; `first` and `last` are its outermost changes. */
  datatype Span = Span(start: nat, first: nat, last: nat, end: nat)

  /** The next change at or after position i. */
  function NextChange(script: seq<Item>, i: nat): (r: nat)
    requires i <= |script|
    ensures i <= r <= |script|
    ensures r < |script| ==> script[r].IsChange()
    ensures forall j | i <= j < r :: !script[j].IsChange()
    decreases |script| - i
  {
    if i == |script| || script[i].IsChange() then i else NextChange(script, i + 1)
  }

  /** A span starts and ends `context` items outside its outermost changes, joins changes that at most
      2 * context items separate, and stops where the next change is further away than that. */
  ghost predicate SpanOk(script: seq<Item>, context: nat, p: Span) {
    && p.first <= p.last < |script| && script[p.first].IsChange() && script[p.last].IsChange()
    && p.start == (if p.first < context then 0 else p.first - context)
    && p.end == (if |script| < p.last + 1 + context then |script| else p.last + 1 + context)
    && (forall j | p.first <= j < p.last && script[j].IsChange() :: NextChange(script, j + 1) - j - 1 <= 2 * context)
    && Apart(script, context, p.last)
  }

  /** No change follows position j within 2 * context items. */
  ghost predicate Apart(script: seq<Item>, context: nat, j: nat)
    requires j < |script|
  {
    NextChange(script, j + 1) == |script| || NextChange(script, j + 1) - j - 1 > 2 * context
  }

  /** Where the change after the first n spans is. */
  ghost function After(script: seq<Item>, spans: seq<Span>, n: nat): nat
    requires n <= |spans|
  {
    if n == 0 then NextChange(script, 0)
    else if spans[n - 1].last < |script| then NextChange(script, spans[n - 1].last + 1)
    else |script|
  }

  /** The spans follow each other from the first change of the script on, without skipping a change. */
  ghost predicate Chain(script: seq<Item>, context: nat, spans: seq<Span>) {
    && (forall n | 0 <= n < |spans| :: SpanOk(script, context, spans[n]))
    && (forall n | 0 <= n < |spans| :: spans[n].first == After(script, spans, n))
  }

  /** A chain that reaches the end of the script. */
  ghost predicate Partition(script: seq<Item>, context: nat, spans: seq<Span>) {
    Chain(script, context, spans) && After(script, spans, |spans|) == |script|
  }

  function Prefixed(i: Item): string {
    match i.op
    case Eq => " " + i.text
    case Del => "-" + i.text
    case Ins => "+" + i.text
    case IgnoredDel => "-" + i.text
    case IgnoredIns => "+" + i.text
  }

  function HunkLines(s: seq<Item>): seq<string> {
    seq(|s|, i requires 0 <= i < |s| => Prefixed(s[i]))
  }

  /** The hunk that stands for the items [start, end) of a script. */
  function HunkOf(script: seq<Item>, start: nat, end: nat): Hunk
    requires start <= end <= |script|
  {
    Hunk(1 + |OldText(script[..start])|, |OldText(script[start..end])|,
         1 + |NewText(script[..start])|, |NewText(script[start..end])|,
         HunkLines(script[start..end]))
  }

  ghost predicate AreHunksOf(script: seq<Item>, spans: seq<Span>, hunks: seq<Hunk>) {
    && |hunks| == |spans|
    && forall n | 0 <= n < |spans| ::
         && spans[n].start <= spans[n].end <= |script|
         && hunks[n] == HunkOf(script, spans[n].start, spans[n].end)
  }

  // ---- The loops ----

  method SkipUnchanged(script: seq<Item>, i0: nat) returns (i: nat)
    requires i0 <= |script|
    ensures i == NextChange(script, i0)
  {
    i := i0;
    while i < |script| && !script[i].IsChange()
      invariant i <= |script| && NextChange(script, i) == NextChange(script, i0)
    {
      i := i + 1;
    }
  }

  /** Runs over a block of changes; `last` is the last of them. */
  method SkipChanges(script: seq<Item>, i0: nat) returns (i: nat)
    requires i0 < |script| && script[i0].IsChange()
    ensures i0 < i <= |script| && (i < |script| ==> !script[i].IsChange())
    ensures forall j | i0 <= j < i :: script[j].IsChange()
  {
    i := i0;
    while i < |script| && script[i].IsChange()
      invariant i0 <= i <= |script| && forall j | i0 <= j < i :: script[j].IsChange()
    {
      i := i + 1;
    }
  }

  /** Finds where the hunk whose first change is at `first` ends. */
  method FindEnd(script: seq<Item>, context: nat, first: nat) returns (endIdx: nat, ghost last: nat)
    requires first < |script| && script[first].IsChange()
    ensures first <= last < |script|
    ensures SpanOk(script, context, Span(if first < context then 0 else first - context, first, last, endIdx))
  {
    endIdx := first;
    while true
      invariant first <= endIdx < |script| && script[endIdx].IsChange()
      invariant forall j | first <= j < endIdx && script[j].IsChange() ::
          NextChange(script, j + 1) - j - 1 <= 2 * context
      decreases |script| - endIdx
    {
      var run := SkipChanges(script, endIdx);
      last := run - 1;
      var nextDiff := SkipUnchanged(script, run);
      var eqCount := nextDiff - run;
      forall j | endIdx <= j < last && script[j].IsChange()
        ensures NextChange(script, j + 1) - j - 1 <= 2 * context
      {
        assert script[j + 1].IsChange();
      }
      if nextDiff >= |script| {
        if eqCount > context {
          endIdx := nextDiff - eqCount + context;
        } else {
          endIdx := |script|;
        }
        return;
      }
      if eqCount > 2 * context {
        endIdx := nextDiff - eqCount + context;
        return;
      }
      endIdx := nextDiff;
    }
  }

  lemma {:induction false} PrefixTexts(script: seq<Item>, lo: nat, j: nat)
    requires lo <= j < |script|
    ensures OldText(script[lo..j + 1]) == OldText(script[lo..j]) + if script[j].InOld() then [script[j].text] else []
    ensures NewText(script[lo..j + 1]) == NewText(script[lo..j]) + if script[j].InNew() then [script[j].text] else []
  {
    assert script[lo..j + 1] == script[lo..j] + [script[j]];
    AppendOld(script[lo..j], [script[j]]);
    AppendNew(script[lo..j], [script[j]]);
    Single(script[j]);
  }

  /** Counts the lines before the hunk and collects its own lines. */
  method MakeHunk(script: seq<Item>, startIdx: nat, endIdx: nat) returns (hunk: Hunk)
    requires startIdx <= endIdx <= |script|
    ensures hunk == HunkOf(script, startIdx, endIdx)
  {
    var hunkOld, hunkNew := 1, 1;
    for j := 0 to startIdx
      invariant hunkOld == 1 + |OldText(script[0..j])| && hunkNew == 1 + |NewText(script[0..j])|
    {
      PrefixTexts(script, 0, j);
      if script[j].InOld() {
        hunkOld := hunkOld + 1;
      }
      if script[j].InNew() {
        hunkNew := hunkNew + 1;
      }
    }
    var oldLines, newLines, lines := 0, 0, [];
    for j := startIdx to endIdx
      invariant oldLines == |OldText(script[startIdx..j])| && newLines == |NewText(script[startIdx..j])|
      invariant lines == HunkLines(script[startIdx..j])
    {
      PrefixTexts(script, startIdx, j);
      lines := lines + [Prefixed(script[j])];
      if script[j].InOld() {
        oldLines := oldLines + 1;
      }
      if script[j].InNew() {
        newLines := newLines + 1;
      }
    }
    assert script[0..startIdx] == script[..startIdx];
    hunk := Hunk(hunkOld, oldLines, hunkNew, newLines, lines);
  }

  /** Items inside the trailing context of a span do not hide the next change. */
  lemma {:induction false} NextChangeSkips(script: seq<Item>, i: nat, j: nat)
    requires i <= |script| && i <= j <= NextChange(script, i)
    ensures NextChange(script, j) == NextChange(script, i)
    decreases j - i
  {
    if i < j {
      NextChangeSkips(script, i + 1, j);
    }
  }

  lemma AfterOfPrefix(script: seq<Item>, spans: seq<Span>, p: Span, n: nat)
    requires n <= |spans|
    ensures After(script, spans + [p], n) == After(script, spans, n)
  {
    assert n > 0 ==> (spans + [p])[n - 1] == spans[n - 1];
  }

  lemma ChainGrows(script: seq<Item>, context: nat, spans: seq<Span>, p: Span)
    requires Chain(script, context, spans) && SpanOk(script, context, p)
    requires p.first == After(script, spans, |spans|)
    ensures Chain(script, context, spans + [p])
  {
    hide After, SpanOk;
    var next := spans + [p];
    forall n | 0 <= n < |next|
      ensures SpanOk(script, context, next[n])
    {
      if n < |spans| {
        assert next[n] == spans[n];
      }
    }
    forall n | 0 <= n < |next|
      ensures next[n].first == After(script, next, n)
    {
      AfterOfPrefix(script, spans, p, n);
      if n < |spans| {
        assert next[n] == spans[n];
      }
    }
  }

  lemma HunksGrow(script: seq<Item>, spans: seq<Span>, hunks: seq<Hunk>, p: Span, h: Hunk)
    requires AreHunksOf(script, spans, hunks)
    requires p.start <= p.end <= |script| && h == HunkOf(script, p.start, p.end)
    ensures AreHunksOf(script, spans + [p], hunks + [h])
  {
    hide HunkOf;
  }

  lemma SpanBounds(script: seq<Item>, context: nat, p: Span)
    requires SpanOk(script, context, p)
    ensures p.start <= p.first <= p.last < p.end <= NextChange(script, p.last + 1) <= |script|
    ensures p.start == (if p.first < context then 0 else p.first - context)
    ensures p.end <= p.last + 1 + context && Apart(script, context, p.last)
  {
  }

  lemma NoSpans(script: seq<Item>, context: nat)
    ensures Chain(script, context, []) && AreHunksOf(script, [], [])
  {
  }

  method BuildHunks(script: seq<Item>, context: nat) returns (hunks: seq<Hunk>, ghost spans: seq<Span>)
    ensures Partition(script, context, spans)
    ensures AreHunksOf(script, spans, hunks)
  {
    hide HunkOf, Chain, AreHunksOf, SpanOk;
    hunks, spans := [], [];
    NoSpans(script, context);
    var i := 0;
    while i < |script|
      invariant i <= |script|
      invariant Chain(script, context, spans) && AreHunksOf(script, spans, hunks)
      invariant NextChange(script, i) == After(script, spans, |spans|)
      decreases |script| - i
    {
      ghost var i0 := i;
      i := SkipUnchanged(script, i);
      if i >= |script| {
        break;
      }
      var startIdx := if i - context < 0 then 0 else i - context;
      var endIdx, last := FindEnd(script, context, i);
      ghost var span := Span(startIdx, i, last, endIdx);
      SpanBounds(script, context, span);
      var hunk := MakeHunk(script, startIdx, endIdx);
      NextChangeSkips(script, last + 1, endIdx);
      ChainGrows(script, context, spans, span);
      HunksGrow(script, spans, hunks, span, hunk);
      hunks := hunks + [hunk];
      spans := spans + [span];
      i := endIdx;
    }
  }

  // ---- What the spans mean for the changes ----

  /** The first n spans take in every change before the place where the search goes on. */
  lemma {:induction false} ChangesCovered(
    script: seq<Item>, context: nat, spans: seq<Span>, n: nat, i: nat) returns (k: nat)
    requires Chain(script, context, spans) && n <= |spans|
    requires i < |script| && script[i].IsChange() && i < After(script, spans, n)
    ensures k < n && spans[k].first <= i <= spans[k].last
    decreases n
  {
    hide After, Chain, NextChange;
    SpanOrder(script, context, spans, n);
    if i < spans[n - 1].first {
      k := ChangesCovered(script, context, spans, n - 1, i);
    } else {
      k := n - 1;
    }
  }

  lemma SpanOrder(script: seq<Item>, context: nat, spans: seq<Span>, n: nat)
    requires Chain(script, context, spans) && n <= |spans|
    ensures n > 0 ==> spans[n - 1].first <= spans[n - 1].last < |script|
    ensures n > 0 ==> spans[n - 1].first == After(script, spans, n - 1)
    ensures n > 0 ==> forall j | spans[n - 1].last < j < After(script, spans, n) :: !script[j].IsChange()
    ensures n == 0 ==> forall j | 0 <= j < After(script, spans, n) :: !script[j].IsChange()
  {
    if n > 0 {
      assert SpanOk(script, context, spans[n - 1]);
    }
  }

  /** Two neighbouring changes go into one hunk exactly when at most twice the context separates them. */
  lemma NeighboursShareHunk(script: seq<Item>, context: nat, spans: seq<Span>, i: nat, j: nat)
    requires Partition(script, context, spans)
    requires i < j < |script| && script[i].IsChange() && script[j].IsChange()
    requires forall k | i < k < j :: !script[k].IsChange()
    ensures (exists n | 0 <= n < |spans| :: spans[n].first <= i && j <= spans[n].last) <==> j - i - 1 <= 2 * context
  {
    assert NextChange(script, i + 1) == j;
    if n :| 0 <= n < |spans| && spans[n].first <= i && j <= spans[n].last {
      assert SpanOk(script, context, spans[n]);
    }
    if j - i - 1 <= 2 * context {
      var n := ChangesCovered(script, context, spans, |spans|, i);
      assert SpanOk(script, context, spans[n]);
      assert i != spans[n].last;
      assert j <= spans[n].last;
    }
  }

  /** A hunk shows as many unchanged items before its first change and after its last as the context asks for, or all
      there are, and nothing but those. */
  lemma ContextIsExact(script: seq<Item>, context: nat, spans: seq<Span>, n: nat)
    requires Partition(script, context, spans) && n < |spans|
    ensures var p := spans[n];
      && p.start <= p.first <= p.last < p.end <= |script|
      && (p.first - p.start == context || (p.start == 0 && p.first < context))
      && (p.end - p.last - 1 == context || (p.end == |script| && p.end - p.last - 1 < context))
      && (forall j | p.start <= j < p.first || p.last < j < p.end :: !script[j].IsChange())
  {
    hide Chain, NextChange;
    SpanReach(script, context, spans, n);
    SpanOrder(script, context, spans, n);
    SpanOrder(script, context, spans, n + 1);
  }

  /** Where a span starts and ends, and how far the changes around it are away. */
  lemma SpanReach(script: seq<Item>, context: nat, spans: seq<Span>, n: nat)
    requires Chain(script, context, spans) && n < |spans|
    ensures var p := spans[n];
      && p.first <= p.last < |script|
      && p.start == (if p.first < context then 0 else p.first - context)
      && p.end == (if |script| < p.last + 1 + context then |script| else p.last + 1 + context)
      && p.end <= After(script, spans, n + 1)
      && (n > 0 ==> spans[n - 1].last < p.start)
  {
    assert SpanOk(script, context, spans[n]);
    if n > 0 {
      assert SpanOk(script, context, spans[n - 1]);
    }
  }
}
