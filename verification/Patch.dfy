/** Applying and reversing hunks, as patch does. */
module Patch {
  import opened EditScript
  import opened Hunks

  predicate HasPrefix(l: string, c: char) { l != "" && l[0] == c }

  /** A hunk line that must be present in the target: context, or an empty line standing for empty context. */
  predicate IsContext(l: string) { l == "" || l[0] == ' ' }

  function Body(l: string): string { if l == "" then "" else l[1..] }

  /** What the hunk expects to find: its deletions and context. */
  function OldPart(ls: Lines): Lines {
    if ls == [] then []
    else (if HasPrefix(ls[0], '-') || IsContext(ls[0]) then [Body(ls[0])] else []) + OldPart(ls[1..])
  }

  /** What the hunk puts in place: its insertions and context. */
  function NewPart(ls: Lines): Lines {
    if ls == [] then []
    else (if HasPrefix(ls[0], '+') || IsContext(ls[0]) then [Body(ls[0])] else []) + NewPart(ls[1..])
  }

  lemma Regrouped(p: Lines, q: Lines, r: Lines)
    ensures p + (q + r) == (p + q) + r
  {
  }

  lemma {:induction false} NewPartPush(ls: Lines, l: string)
    ensures NewPart(ls + [l]) == NewPart(ls) + if HasPrefix(l, '+') || IsContext(l) then [Body(l)] else []
  {
    hide HasPrefix, IsContext, Body;
    if ls == [] {
      assert ls + [l] == [l] && [l][1..] == [];
    } else {
      assert (ls + [l])[1..] == ls[1..] + [l] && (ls + [l])[0] == ls[0];
      NewPartPush(ls[1..], l);
      Regrouped(if HasPrefix(ls[0], '+') || IsContext(ls[0]) then [Body(ls[0])] else [], NewPart(ls[1..]),
                if HasPrefix(l, '+') || IsContext(l) then [Body(l)] else []);
    }
  }

  // ---- applyAt ----

  /** The file with `oldCount` lines from pos on replaced by what the hunk puts in place. */
  function Spliced(lines: Lines, h: Hunk, pos: int): Lines
    requires 0 <= pos && 0 <= pos + h.oldCount
  {
    (if pos < |lines| then lines[..pos] else lines)
    + NewPart(h.lines)
    + (if pos + h.oldCount < |lines| then lines[pos + h.oldCount..] else [])
  }

  method ApplyAt(lines: Lines, h: Hunk, pos: int) returns (result: Lines)
    requires 0 <= pos && 0 <= pos + h.oldCount
    ensures result == Spliced(lines, h, pos)
  {
    result := if pos < |lines| then lines[..pos] else lines;
    ghost var before := result;
    for i := 0 to |h.lines|
      invariant result == before + NewPart(h.lines[..i])
    {
      var l := h.lines[i];
      assert h.lines[..i + 1] == h.lines[..i] + [l];
      NewPartPush(h.lines[..i], l);
      if HasPrefix(l, '+') {
        result := result + [l[1..]];
      } else if IsContext(l) {
        if |l| > 0 {
          result := result + [l[1..]];
        } else {
          result := result + [""];
        }
      }
    }
    assert h.lines[..|h.lines|] == h.lines;
    var afterPos := pos + h.oldCount;
    if afterPos < |lines| {
      result := result + lines[afterPos..];
    }
  }

  // ---- verifyHunk ----

  /** The target agrees with the hunk at pos; past the end of the file only deletions and empty context pass. */
  ghost predicate Verifies(lines: Lines, ls: Lines, pos: int)
    decreases |ls|
  {
    ls == [] ||
    var l := ls[0];
    if HasPrefix(l, '-') then
      (pos < |lines| ==> 0 <= pos && lines[pos] == Body(l)) && Verifies(lines, ls[1..], pos + 1)
    else if IsContext(l) then
      (if pos < |lines| then 0 <= pos && lines[pos] == Body(l) else Body(l) == "") && Verifies(lines, ls[1..], pos + 1)
    else Verifies(lines, ls[1..], pos)
  }

  method VerifyHunk(lines: Lines, h: Hunk, pos: int) returns (ok: bool)
    ensures ok <==> 0 <= pos && Verifies(lines, h.lines, pos)
  {
    if pos < 0 {
      return false;
    }
    var off := pos;
    for i := 0 to |h.lines|
      invariant 0 <= off
      invariant Verifies(lines, h.lines[i..], off) <==> Verifies(lines, h.lines, pos)
    {
      var l := h.lines[i];
      assert h.lines[i..][0] == l && h.lines[i..][1..] == h.lines[i + 1..];
      if HasPrefix(l, '-') {
        if off < |lines| && lines[off] != l[1..] {
          return false;
        }
        off := off + 1;
      } else if IsContext(l) {
        var expected := "";
        if |l| > 0 {
          expected := l[1..];
        }
        if off < |lines| && lines[off] != expected {
          return false;
        }
        if off >= |lines| && expected != "" {
          return false;
        }
        off := off + 1;
      }
    }
    return true;
  }

  /** Inside the file, verification is equality of the expected lines with the lines present. */
  lemma {:induction false} VerifiesIsEquality(lines: Lines, ls: Lines, pos: nat)
    requires pos + |OldPart(ls)| <= |lines|
    ensures Verifies(lines, ls, pos) <==> lines[pos..pos + |OldPart(ls)|] == OldPart(ls)
    decreases |ls|
  {
    if ls != [] {
      if HasPrefix(ls[0], '-') || IsContext(ls[0]) {
        VerifiesIsEquality(lines, ls[1..], pos + 1);
        var n := |OldPart(ls)|;
        assert lines[pos..pos + n] == [lines[pos]] + lines[pos + 1..pos + n];
        assert OldPart(ls)[1..] == OldPart(ls[1..]);
        assert lines[pos..pos + n][1..] == lines[pos + 1..pos + n];
      } else {
        VerifiesIsEquality(lines, ls[1..], pos);
      }
    }
  }

  // ---- reverseHunk ----

  function ReversedLine(l: string): string {
    if HasPrefix(l, '+') then "-" + l[1..] else if HasPrefix(l, '-') then "+" + l[1..] else l
  }

  function ReversedLines(ls: Lines): Lines {
    seq(|ls|, i requires 0 <= i < |ls| => ReversedLine(ls[i]))
  }

  function Reversed(h: Hunk): Hunk {
    Hunk(h.newStart, h.newCount, h.oldStart, h.oldCount, ReversedLines(h.lines))
  }

  method ReverseHunk(h: Hunk) returns (r: Hunk)
    ensures r == Reversed(h)
  {
    var lines := [];
    for i := 0 to |h.lines|
      invariant |lines| == i && forall j | 0 <= j < i :: lines[j] == ReversedLine(h.lines[j])
    {
      var l := h.lines[i];
      if HasPrefix(l, '+') {
        lines := lines + ["-" + l[1..]];
      } else if HasPrefix(l, '-') {
        lines := lines + ["+" + l[1..]];
      } else {
        lines := lines + [l];
      }
    }
    r := Hunk(h.newStart, h.newCount, h.oldStart, h.oldCount, lines);
  }

  /** Reversing swaps what a hunk expects with what it puts in place. */
  lemma {:induction false} ReversedSwaps(ls: Lines)
    ensures OldPart(ReversedLines(ls)) == NewPart(ls)
    ensures NewPart(ReversedLines(ls)) == OldPart(ls)
  {
    if ls != [] {
      assert ReversedLines(ls)[1..] == ReversedLines(ls[1..]);
      assert Body(ReversedLine(ls[0])) == Body(ls[0]);
      ReversedSwaps(ls[1..]);
    }
  }

  lemma ReversedTwice(h: Hunk)
    ensures Reversed(Reversed(h)) == h
  {
    var twice := ReversedLines(ReversedLines(h.lines));
    forall i | 0 <= i < |h.lines|
      ensures twice[i] == h.lines[i]
    {
      var l := h.lines[i];
      assert HasPrefix(l, '+') || HasPrefix(l, '-') ==> [l[0]] + l[1..] == l;
    }
    assert twice == h.lines;
  }

  /** The counts in the hunk's header are those of its lines. */
  ghost predicate CountsMatch(h: Hunk) {
    h.oldCount == |OldPart(h.lines)| && h.newCount == |NewPart(h.lines)|
  }

  /** patch -R undoes patch: the reversed hunk verifies in the patched file and restores the original. */
  lemma ReverseRestores(lines: Lines, h: Hunk, pos: nat)
    requires CountsMatch(h) && pos + h.oldCount <= |lines| && Verifies(lines, h.lines, pos)
    ensures var patched := Spliced(lines, h, pos);
      && CountsMatch(Reversed(h))
      && pos + Reversed(h).oldCount <= |patched|
      && Verifies(patched, Reversed(h).lines, pos)
      && Spliced(patched, Reversed(h), pos) == lines
  {
    var r := Reversed(h);
    var patched := Spliced(lines, h, pos);
    ReversedSwaps(h.lines);
    VerifiesIsEquality(lines, h.lines, pos);
    SplicedInside(lines, h, pos);
    assert patched[pos..pos + r.oldCount] == NewPart(h.lines);
    VerifiesIsEquality(patched, r.lines, pos);
    SplicedInside(patched, r, pos);
    assert patched[..pos] == lines[..pos];
    assert patched[pos + r.oldCount..] == lines[pos + h.oldCount..];
  }

  lemma SplicedInside(lines: Lines, h: Hunk, pos: nat)
    requires 0 <= h.oldCount && pos + h.oldCount <= |lines|
    ensures Spliced(lines, h, pos) == lines[..pos] + NewPart(h.lines) + lines[pos + h.oldCount..]
  {
  }

  // ---- applyHunk ----

  /** What `alreadyApplied` looks for: unlike `NewPart` it leaves out empty context lines
      and keeps marker lines such as a missing-newline note. */
  function Expected(ls: Lines): Lines {
    if ls == [] then []
    else (if !HasPrefix(ls[0], '-') && ls[0] != "" then [ls[0][1..]] else []) + Expected(ls[1..])
  }

  lemma {:induction false} ExpectedPush(ls: Lines, l: string)
    ensures Expected(ls + [l]) == Expected(ls) + if !HasPrefix(l, '-') && l != "" then [l[1..]] else []
  {
    if ls == [] {
      assert ls + [l] == [l] && [l][1..] == [];
    } else {
      assert (ls + [l])[1..] == ls[1..] + [l];
      ExpectedPush(ls[1..], l);
    }
  }

  /** Where the hunk's header places it. */
  function Anchor(h: Hunk): nat { if h.oldStart - 1 < 0 then 0 else h.oldStart - 1 }

  ghost predicate FoundAt(lines: Lines, e: Lines, pos: nat) {
    pos + |e| <= |lines| && lines[pos..pos + |e|] == e
  }

  /** The hunk's result occurs at its anchor or up to ten lines further down. */
  ghost predicate Applied(lines: Lines, h: Hunk) {
    var e := Expected(h.lines);
    e != [] && exists pos: nat :: Anchor(h) <= pos <= Anchor(h) + 10 && FoundAt(lines, e, pos)
  }

  method AlreadyApplied(lines: Lines, h: Hunk) returns (found: bool)
    ensures found <==> Applied(lines, h)
  {
    var expected := [];
    for i := 0 to |h.lines|
      invariant expected == Expected(h.lines[..i])
    {
      var l := h.lines[i];
      assert h.lines[..i + 1] == h.lines[..i] + [l];
      ExpectedPush(h.lines[..i], l);
      if HasPrefix(l, '+') {
        expected := expected + [l[1..]];
      } else if !HasPrefix(l, '-') && l != "" {
        expected := expected + [l[1..]];
      }
    }
    assert h.lines[..|h.lines|] == h.lines;
    if |expected| == 0 {
      return false;
    }
    var start := Anchor(h);
    var end := start + |expected| + 10;
    if end > |lines| {
      end := |lines|;
    }
    var pos := start;
    while pos + |expected| <= end && pos + |expected| <= |lines|
      invariant start <= pos
      invariant forall q: nat | start <= q < pos :: !FoundAt(lines, expected, q)
    {
      var matches := lines[pos..pos + |expected|] == expected;
      if matches {
        assert FoundAt(lines, expected, pos);
        return true;
      }
      pos := pos + 1;
    }
    return false;
  }

  /** A position that `applyHunk` tries. */
  predicate Candidate(lines: Lines, h: Hunk, pos: int) {
    && 0 <= pos && Anchor(h) - |lines| <= pos <= Anchor(h) + |lines|
    && (pos < Anchor(h) || pos + h.oldCount <= |lines|)
  }

  ghost predicate Fits(lines: Lines, h: Hunk, pos: int) {
    Candidate(lines, h, pos) && Verifies(lines, h.lines, pos)
  }

  /** The order in which positions are tried: the anchor, then one up, one down, two up, two down, ... */
  function Turn(h: Hunk, pos: int): nat {
    if pos < Anchor(h) then 2 * (Anchor(h) - pos) - 1 else 2 * (pos - Anchor(h))
  }

  /** The search: the first position of the order at which the hunk fits. */
  method Search(lines: Lines, h: Hunk) returns (found: bool, pos: nat)
    ensures found ==> Fits(lines, h, pos) && forall q | Fits(lines, h, q) :: Turn(h, pos) <= Turn(h, q)
    ensures !found ==> forall q :: !Fits(lines, h, q)
  {
    hide Verifies;
    pos := Anchor(h);
    var anchor := pos;
    if anchor + h.oldCount <= |lines| {
      var here := VerifyHunk(lines, h, anchor);
      if here {
        return true, anchor;
      }
    }
    var offset := 1;
    while offset <= |lines|
      invariant 1 <= offset <= |lines| + 1
      invariant forall q | Fits(lines, h, q) :: 2 * offset - 1 <= Turn(h, q)
    {
      if anchor - offset >= 0 {
        var up := VerifyHunk(lines, h, anchor - offset);
        if up {
          return true, anchor - offset;
        }
      }
      if anchor + offset + h.oldCount <= |lines| {
        var down := VerifyHunk(lines, h, anchor + offset);
        if down {
          forall q | Fits(lines, h, q) ensures 2 * offset <= Turn(h, q) {
            assert Turn(h, q) == 2 * offset - 1 ==> q == anchor - offset;
          }
          return true, anchor + offset;
        }
      }
      forall q | Fits(lines, h, q) ensures 2 * offset + 1 <= Turn(h, q) {
        assert Turn(h, q) == 2 * offset - 1 ==> q == anchor - offset;
        assert Turn(h, q) == 2 * offset ==> q == anchor + offset;
      }
      offset := offset + 1;
    }
    return false, 0;
  }

  /** The position that the search settles on. */
  ghost predicate FirstFit(lines: Lines, h: Hunk, pos: int) {
    Fits(lines, h, pos) && forall q | Fits(lines, h, q) :: Turn(h, pos) <= Turn(h, q)
  }

  /** What `applyHunk` may answer. A hunk that expects no lines goes to the top of the file; one whose result is
      found near its place is refused or skipped; any other goes to its first fit, and is refused without one. */
  ghost predicate Outcome(lines: Lines, h: Hunk, ignoreApplied: bool, result: Lines, ok: bool) {
    if h.oldCount == 0 then ok && result == Spliced(lines, h, 0)
    else if Applied(lines, h) then result == lines && ok == ignoreApplied
    else if ok then exists pos :: FirstFit(lines, h, pos) && 0 <= pos + h.oldCount && result == Spliced(lines, h, pos)
    else result == lines && forall q :: !Fits(lines, h, q)
  }

  /** A header with a negative count of old lines can send the hunk to a place that ends before the file starts,
      and the slice taken there panics. */
  ghost predicate Panics(lines: Lines, h: Hunk) {
    h.oldCount < 0 && !Applied(lines, h) && exists pos :: FirstFit(lines, h, pos) && pos + h.oldCount < 0
  }

  /** Applies the hunk at the first position at which it fits, unless its result is already there. */
  method ApplyHunk(lines: Lines, h: Hunk, ignoreApplied: bool) returns (result: Lines, ok: bool, panicked: bool)
    ensures panicked <==> Panics(lines, h)
    ensures !panicked ==> Outcome(lines, h, ignoreApplied, result, ok)
  {
    if h.oldCount == 0 {
      result := ApplyAt(lines, h, 0);
      return result, true, false;
    }
    var applied := AlreadyApplied(lines, h);
    if applied {
      return lines, ignoreApplied, false;
    }
    var found, pos := Search(lines, h);
    if found {
      assert FirstFit(lines, h, pos);
      if pos + h.oldCount < 0 {
        return lines, false, true;
      }
      OnlyFit(lines, h, pos);
      result := ApplyAt(lines, h, pos);
      return result, true, false;
    }
    return lines, false, false;
  }

  lemma OnlyFit(lines: Lines, h: Hunk, pos: int)
    requires FirstFit(lines, h, pos)
    ensures forall q | FirstFit(lines, h, q) :: q == pos
  {
    hide Fits;
  }

  /** It does for a header that takes away one line before the first. */
  lemma NegativeCountPanics()
    ensures Panics(["a"], Hunk(1, -1, 1, 0, []))
  {
    var lines, h := ["a"], Hunk(1, -1, 1, 0, []);
    assert Expected(h.lines) == [];
    assert FirstFit(lines, h, 0);
  }

  /** Counts that are not negative never panic. */
  lemma CountedNeverPanics(lines: Lines, h: Hunk)
    requires 0 <= h.oldCount
    ensures !Panics(lines, h)
  {
  }
}
