/** Where patch puts a hunk, and what it does with one that it has applied before. */
module PatchPlaces {
  import opened EditScript
  import opened Hunks
  import opened Patch

  /** Every line carries one of the three marks. */
  predicate AllMarked(ls: Lines) {
    forall i | 0 <= i < |ls| :: HasPrefix(ls[i], '+') || HasPrefix(ls[i], '-') || HasPrefix(ls[i], ' ')
  }

  lemma {:induction false} MarkedExpected(ls: Lines)
    requires AllMarked(ls)
    ensures Expected(ls) == NewPart(ls)
  {
    if ls != [] {
      assert HasPrefix(ls[0], '+') || HasPrefix(ls[0], '-') || HasPrefix(ls[0], ' ');
      MarkedExpected(ls[1..]);
    }
  }

  /** A hunk that was put at its anchor or up to ten lines below is recognised: a second application leaves the
      file alone, and succeeds exactly when hunks already applied are to be ignored. */
  lemma AppliedTwice(lines: Lines, h: Hunk, pos: nat, ignoreApplied: bool, result: Lines, ok: bool)
    requires h.oldCount > 0 && AllMarked(h.lines) && NewPart(h.lines) != []
    requires h.oldStart - 1 <= pos <= (if h.oldStart > 0 then h.oldStart - 1 else 0) + 10
    requires pos + h.oldCount <= |lines|
    requires Outcome(Spliced(lines, h, pos), h, ignoreApplied, result, ok)
    ensures !Panics(Spliced(lines, h, pos), h)
    ensures result == Spliced(lines, h, pos) && ok == ignoreApplied
  {
    hide FirstFit, Fits, NewPart, Expected;
    var patched := Spliced(lines, h, pos);
    MarkedExpected(h.lines);
    SplicedInside(lines, h, pos);
    assert patched[pos..pos + |NewPart(h.lines)|] == NewPart(h.lines);
    assert FoundAt(patched, Expected(h.lines), pos);
    assert Applied(patched, h);
  }

  /** Exactly when a hunk is taken for applied: what it puts in place stands at its anchor or up to ten lines below. */
  lemma RecognisedWhen(lines: Lines, h: Hunk)
    requires h.oldCount > 0 && AllMarked(h.lines) && NewPart(h.lines) != []
    ensures (forall ignoreApplied, result, ok :: Outcome(lines, h, ignoreApplied, result, ok) ==>
               result == lines && ok == ignoreApplied) <==>
      exists pos: nat :: Anchor(h) <= pos <= Anchor(h) + 10 && FoundAt(lines, NewPart(h.lines), pos)
  {
    hide NewPart, Expected, FoundAt, FirstFit, Spliced;
    MarkedExpected(h.lines);
    if !Applied(lines, h) {
      NotRecognised(lines, h);
    }
  }

  /** Otherwise it is refused even where applied hunks are to be ignored, or goes in even where they are not. */
  lemma NotRecognised(lines: Lines, h: Hunk)
    requires h.oldCount > 0 && !Applied(lines, h)
    ensures Outcome(lines, h, true, lines, false) || exists result :: Outcome(lines, h, false, result, true)
  {
    hide Applied, Verifies, NewPart;
    if forall q :: !Fits(lines, h, q) {
      assert Outcome(lines, h, true, lines, false);
    } else {
      var q :| Fits(lines, h, q);
      var pos := FirstOf(lines, h, q);
      assert Outcome(lines, h, false, Spliced(lines, h, pos), true);
    }
  }

  /** Some place at which the hunk fits comes first in the order of the search. */
  lemma {:induction false} FirstOf(lines: Lines, h: Hunk, q: int) returns (pos: int)
    requires Fits(lines, h, q)
    ensures FirstFit(lines, h, pos) && 0 <= pos
    decreases Patch.Turn(h, q)
  {
    hide Verifies;
    if r :| Fits(lines, h, r) && Patch.Turn(h, r) < Patch.Turn(h, q) {
      pos := FirstOf(lines, h, r);
    } else {
      pos := q;
    }
  }

  function Swap(start: int): Hunk { Hunk(start, 1, start, 1, ["-x", "+y"]) }

  lemma SwapParts(start: int)
    ensures Expected(Swap(start).lines) == ["y"] && NewPart(Swap(start).lines) == ["y"]
  {
    var ls := ["-x", "+y"];
    assert ls[1..] == ["+y"] && ls[1..][1..] == [];
    assert "+y"[1..] == "y";
  }

  lemma SwapVerifies(lines: Lines, start: int, pos: nat)
    ensures Verifies(lines, Swap(start).lines, pos) <==> (pos < |lines| ==> lines[pos] == "x")
  {
    var ls := ["-x", "+y"];
    assert ls[1..] == ["+y"] && ls[1..][1..] == [];
    assert Body("-x") == "x";
  }

  /** The only place at which the line x stands. */
  lemma SwapGoesTo(lines: Lines, start: int, pos: nat)
    requires pos < |lines| && lines[pos] == "x" && (forall i | 0 <= i < |lines| && i != pos :: lines[i] != "x")
    requires 1 <= start <= |lines|
    ensures FirstFit(lines, Swap(start), pos)
  {
    hide Verifies;
    SwapVerifies(lines, start, pos);
    forall q | Fits(lines, Swap(start), q)
      ensures q == pos
    {
      SwapVerifies(lines, start, q);
    }
  }

  /** Eleven lines below its anchor an application is no longer seen, and the hunk goes in a second time. */
  lemma ElevenBelowIsRepeated(result: Lines, ok: bool)
    requires Outcome(seq(11, i => "a") + ["y", "x"], Swap(1), false, result, ok)
    ensures ok && result == seq(11, i => "a") + ["y", "y"]
  {
    hide FirstFit, Fits, Verifies, NewPart, Expected;
    var front: Lines := seq(11, i => "a");
    var lines := front + ["y", "x"];
    SwapParts(1);
    assert lines[11] == "y" && lines[12] == "x";
    assert !Applied(lines, Swap(1)) by {
      forall pos: nat | 0 <= pos <= 10
        ensures !FoundAt(lines, ["y"], pos)
      {
        assert lines[pos..pos + 1][0] == "a";
      }
    }
    SwapGoesTo(lines, 1, 12);
    OnlyFit(lines, Swap(1), 12);
    if !ok {
      FitIsCandidate(lines, Swap(1), 12);
      assert false;
    }
    SplicedInside(lines, Swap(1), 12);
    assert lines[..12] == front + ["y"] && lines[13..] == [];
    assert front + ["y"] + ["y"] + [] == front + ["y", "y"];
  }

  lemma FitIsCandidate(lines: Lines, h: Hunk, pos: int)
    requires FirstFit(lines, h, pos)
    ensures Fits(lines, h, pos)
  {
  }

  /** Above its anchor it is not seen either. */
  lemma AboveIsRepeated(result: Lines, ok: bool)
    requires Outcome(["y", "a", "x"], Swap(2), false, result, ok)
    ensures ok && result == ["y", "a", "y"]
  {
    hide FirstFit, Fits, Verifies, NewPart, Expected;
    var lines := ["y", "a", "x"];
    SwapParts(2);
    assert !Applied(lines, Swap(2)) by {
      forall pos: nat | 1 <= pos <= 11
        ensures !FoundAt(lines, ["y"], pos)
      {
        if pos + 1 <= |lines| {
          assert lines[pos..pos + 1][0] == lines[pos];
        }
      }
    }
    SwapGoesTo(lines, 2, 2);
    OnlyFit(lines, Swap(2), 2);
    if !ok {
      FitIsCandidate(lines, Swap(2), 2);
      assert false;
    }
    SplicedInside(lines, Swap(2), 2);
  }

  function Distance(h: Hunk, pos: int): nat {
    var anchor := if h.oldStart > 0 then h.oldStart - 1 else 0;
    if pos < anchor then anchor - pos else pos - anchor
  }

  /** Wherever the file holds what the hunk expects, no further from the anchor than the file is long, a hunk that is
      not taken for an applied one goes in: there or nearer, and of two places equally near in the upper one. */
  lemma NearestPlaceWins(lines: Lines, h: Hunk, ignoreApplied: bool, result: Lines, ok: bool, q: nat) returns (pos: nat)
    requires CountsMatch(h) && h.oldCount > 0 && !Applied(lines, h)
    requires Outcome(lines, h, ignoreApplied, result, ok)
    requires q + h.oldCount <= |lines| && lines[q..q + h.oldCount] == OldPart(h.lines) && Distance(h, q) <= |lines|
    ensures ok && result == Spliced(lines, h, pos) && Verifies(lines, h.lines, pos)
    ensures Distance(h, pos) < Distance(h, q) || pos == q || (Distance(h, pos) == Distance(h, q) && pos < q)
  {
    hide Verifies, Applied, OldPart;
    VerifiesIsEquality(lines, h.lines, q);
    assert Fits(lines, h, q);
    var p :| FirstFit(lines, h, p) && 0 <= p + h.oldCount && result == Spliced(lines, h, p);
    pos := p;
  }

  /** Behind the end of the file a hunk still fits when its context there is empty; deletions are not looked at. */
  lemma {:induction false} PastEndVerifies(lines: Lines, ls: Lines, pos: nat)
    requires pos >= |lines|
    ensures Verifies(lines, ls, pos) <==> forall i | 0 <= i < |ls| && IsContext(ls[i]) :: |ls[i]| <= 1
    decreases |ls|
  {
    if ls != [] {
      PastEndVerifies(lines, ls[1..], pos);
      PastEndVerifies(lines, ls[1..], pos + 1);
      var rest := ls[1..];
      assert forall i | 0 < i < |ls| :: ls[i] == rest[i - 1];
      assert forall i | 0 <= i < |rest| :: rest[i] == ls[i + 1];
    }
  }

  function Blanked(): Hunk { Hunk(1, 2, 1, 3, ["-x", "+y", "", "+z"]) }

  lemma BlankedParts()
    ensures NewPart(Blanked().lines) == ["y", "", "z"] && Expected(Blanked().lines) == ["y", "z"]
  {
    var ls := Blanked().lines;
    assert ls[1..] == ["+y", "", "+z"] && ls[1..][1..] == ["", "+z"] && ls[1..][1..][1..] == ["+z"];
    assert ["+z"][1..] == [];
    assert "+y"[1..] == "y" && "+z"[1..] == "z";
    assert NewPart(["+z"]) == ["z"] && Expected(["+z"]) == ["z"];
    assert NewPart(["", "+z"]) == ["", "z"] && Expected(["", "+z"]) == ["z"];
    assert NewPart(["+y", "", "+z"]) == ["y", "", "z"] && Expected(["+y", "", "+z"]) == ["y", "z"];
  }

  lemma BlankedNowhere(q: int)
    ensures !Fits(["y", "", "z"], Blanked(), q)
  {
    var ls, lines := Blanked().lines, ["y", "", "z"];
    assert ls[0] == "-x" && Body("-x") == "x";
    assert Candidate(lines, Blanked(), q) ==> 0 <= q <= 1;
  }

  /** A context line that lost its blank keeps a hunk from being recognised: it is refused even where applied hunks are
      to be ignored. */
  lemma EmptyContextHidesResult(result: Lines, ok: bool)
    requires Outcome(Spliced(["x", ""], Blanked(), 0), Blanked(), true, result, ok)
    ensures Spliced(["x", ""], Blanked(), 0) == ["y", "", "z"]
    ensures !ok && result == ["y", "", "z"]
  {
    hide NewPart, Expected, Fits;
    BlankedParts();
    var lines := ["y", "", "z"];
    assert Spliced(["x", ""], Blanked(), 0) == lines;
    assert !Applied(lines, Blanked()) by {
      forall pos: nat | pos + 2 <= |lines|
        ensures !FoundAt(lines, ["y", "z"], pos)
      {
        assert lines[pos..pos + 2][0] == lines[pos] && lines[pos..pos + 2][1] == lines[pos + 1];
      }
    }
    forall q ensures !Fits(lines, Blanked(), q) {
      BlankedNowhere(q);
    }
  }
}
