/** expand and unexpand: columns, tab stops, and the two rewritings of a line. */
module Tabs {
  import NumberTheory

  type u8 = x: int | 0 <= x < 256
  type Bytes = seq<u8>

  /** The bytes of one decoded character, or one byte that does not belong to any. */
  type Glyph = Bytes

  const SPACE: Glyph := [32]
  const TAB: Glyph := [9]

  // ---- UTF-8 ----

  predicate IsBlank(b: u8) { b == 32 || b == 9 }

  predicate Continues(s: Bytes, i: nat) { i < |s| && 0x80 <= s[i] <= 0xBF }

  /** The second byte of a three-byte or four-byte form has a narrower range after some first bytes. */
  predicate SecondOk(s: Bytes) {
    Continues(s, 1) &&
    (s[0] == 0xE0 ==> s[1] >= 0xA0) && (s[0] == 0xED ==> s[1] <= 0x9F) &&
    (s[0] == 0xF0 ==> s[1] >= 0x90) && (s[0] == 0xF4 ==> s[1] <= 0x8F)
  }

  /** How many bytes the first character takes; 1 also for a byte that starts no valid character. */
  function Size(s: Bytes): (n: nat)
    requires s != []
    ensures 1 <= n <= |s|
  {
    if 0xC2 <= s[0] <= 0xDF && Continues(s, 1) then 2
    else if 0xE0 <= s[0] <= 0xEF && SecondOk(s) && Continues(s, 2) then 3
    else if 0xF0 <= s[0] <= 0xF4 && SecondOk(s) && Continues(s, 2) && Continues(s, 3) then 4
    else 1
  }

  /** The first byte starts no valid character. */
  predicate Invalid(s: Bytes)
    requires s != []
  {
    s[0] >= 0x80 && Size(s) == 1
  }

  function Glyphs(s: Bytes): seq<Glyph>
    decreases |s|
  {
    if s == [] then [] else [s[..Size(s)]] + Glyphs(s[Size(s)..])
  }

  function Flat(gs: seq<Glyph>): Bytes {
    if gs == [] then [] else gs[0] + Flat(gs[1..])
  }

  predicate Blank(g: Glyph) { g == SPACE || g == TAB }

  // ---- Columns ----

  /** The column after a character. */
  function Advance(col: nat, g: Glyph, w: nat): nat
    requires w > 0
  {
    if g == TAB then col + w - col % w else col + 1
  }

  function Column(col: nat, gs: seq<Glyph>, w: nat): (r: nat)
    requires w > 0
    ensures r >= col + |gs|
    decreases gs
  {
    if gs == [] then col else Column(Advance(col, gs[0], w), gs[1..], w)
  }

  function Spaces(n: nat): Bytes { seq(n, _ => 32) }

  /** A line with every tab replaced by blanks up to the next tab stop. */
  function Expand(gs: seq<Glyph>, col: nat, w: nat): Bytes
    requires w > 0
    decreases gs
  {
    if gs == [] then []
    else (if gs[0] == TAB then Spaces(w - col % w) else gs[0]) + Expand(gs[1..], Advance(col, gs[0], w), w)
  }

  /** The blanks that `unexpand` puts between two columns. */
  function BlanksToTabs(start: nat, end: nat, w: nat): seq<Glyph>
    requires w > 0 && start <= end
    decreases end - start
  {
    if start == end then []
    else if start + w - start % w <= end then [TAB] + BlanksToTabs(start + w - start % w, end, w)
    else [SPACE] + BlanksToTabs(start + 1, end, w)
  }

  predicate AllBlank(gs: seq<Glyph>) { forall i | 0 <= i < |gs| :: Blank(gs[i]) }

  /** The number of blanks a line starts with. */
  function Run(gs: seq<Glyph>): (n: nat)
    ensures n <= |gs| && AllBlank(gs[..n]) && (n < |gs| ==> !Blank(gs[n]))
  {
    if gs == [] || !Blank(gs[0]) then 0
    else
      assert forall i | 0 <= i < Run(gs[1..]) :: Blank(gs[1..][..Run(gs[1..])][i]);
      1 + Run(gs[1..])
  }

  predicate RunHasTab(gs: seq<Glyph>) { TAB in gs[..Run(gs)] }

  /** A line with blanks rewritten: all runs, or only the leading run and runs that contain a tab. */
  function Unexpand(gs: seq<Glyph>, col: nat, w: nat, all: bool): seq<Glyph>
    requires w > 0
    decreases |gs|
  {
    if gs == [] then []
    else if Blank(gs[0]) && (all || col == 0 || RunHasTab(gs)) then
      var n := Run(gs);
      var end := Column(col, gs[..n], w);
      BlanksToTabs(col, end, w) + Unexpand(gs[n..], end, w, all)
    else [gs[0]] + Unexpand(gs[1..], Advance(col, gs[0], w), w, all)
  }

  // ---- Columns are preserved ----

  lemma {:induction false} ColumnConcat(col: nat, p: seq<Glyph>, q: seq<Glyph>, w: nat)
    requires w > 0
    ensures Column(col, p + q, w) == Column(Column(col, p, w), q, w)
    decreases p
  {
    if p == [] {
      assert p + q == q;
    } else {
      assert (p + q)[1..] == p[1..] + q;
      ColumnConcat(Advance(col, p[0], w), p[1..], q, w);
    }
  }

  /** The rewritten blanks span the same columns. */
  lemma {:induction false} BlanksSpan(start: nat, end: nat, w: nat)
    requires w > 0 && start <= end
    ensures Column(start, BlanksToTabs(start, end, w), w) == end
    ensures AllBlank(BlanksToTabs(start, end, w))
    decreases end - start
  {
    if start < end {
      var next := if start + w - start % w <= end then start + w - start % w else start + 1;
      BlanksSpan(next, end, w);
      assert BlanksToTabs(start, end, w)[1..] == BlanksToTabs(next, end, w);
    }
  }

  /** Expanding a run of blanks fills its columns. */
  lemma {:induction false} ExpandBlanks(blanks: seq<Glyph>, rest: seq<Glyph>, col: nat, w: nat)
    requires w > 0 && AllBlank(blanks)
    ensures Expand(blanks + rest, col, w) == Spaces(Column(col, blanks, w) - col) + Expand(rest, Column(col, blanks, w), w)
    decreases blanks
  {
    if blanks == [] {
      assert blanks + rest == rest;
    } else {
      assert Blank(blanks[0]);
      assert (blanks + rest)[1..] == blanks[1..] + rest;
      ExpandBlanks(blanks[1..], rest, Advance(col, blanks[0], w), w);
    }
  }

  /** Expanding an unexpanded line is expanding the line. */
  lemma {:induction false} ExpandUnexpand(gs: seq<Glyph>, col: nat, w: nat, all: bool)
    requires w > 0
    ensures Expand(Unexpand(gs, col, w, all), col, w) == Expand(gs, col, w)
    decreases |gs|
  {
    if gs != [] {
      if Blank(gs[0]) && (all || col == 0 || RunHasTab(gs)) {
        var n := Run(gs);
        var end := Column(col, gs[..n], w);
        var tabs := BlanksToTabs(col, end, w);
        BlanksSpan(col, end, w);
        ExpandBlanks(tabs, Unexpand(gs[n..], end, w, all), col, w);
        ExpandBlanks(gs[..n], gs[n..], col, w);
        assert gs[..n] + gs[n..] == gs;
        ExpandUnexpand(gs[n..], end, w, all);
      } else {
        var next := Advance(col, gs[0], w);
        ExpandUnexpand(gs[1..], next, w, all);
        assert ([gs[0]] + Unexpand(gs[1..], next, w, all))[1..] == Unexpand(gs[1..], next, w, all);
      }
    }
  }

  // ---- Unexpanding is idempotent ----

  lemma {:induction false} RunOf(blanks: seq<Glyph>, rest: seq<Glyph>)
    requires AllBlank(blanks) && (rest == [] || !Blank(rest[0]))
    ensures Run(blanks + rest) == |blanks|
  {
    if blanks == [] {
      assert blanks + rest == rest;
    } else {
      assert Blank(blanks[0]);
      assert (blanks + rest)[1..] == blanks[1..] + rest;
      RunOf(blanks[1..], rest);
    }
  }

  /** A run that crosses a tab stop is rewritten with a tab. */
  lemma {:induction false} CrossingHasTab(start: nat, end: nat, w: nat, gs: seq<Glyph>)
    requires w > 0 && AllBlank(gs) && TAB in gs && end == Column(start, gs, w)
    ensures TAB in BlanksToTabs(start, end, w)
  {
    TabReachesStop(start, gs, w);
  }

  lemma {:induction false} TabReachesStop(col: nat, gs: seq<Glyph>, w: nat)
    requires w > 0 && TAB in gs
    ensures Column(col, gs, w) >= col + w - col % w
    decreases gs
  {
    if gs[0] != TAB {
      TabReachesStop(col + 1, gs[1..], w);
      NextStop(col, w);
    }
  }

  lemma NextStop(col: nat, w: nat)
    requires w > 0
    ensures (col + 1) + w - (col + 1) % w >= col + w - col % w
  {
    if (col + 1) % w != 0 {
      ModStep(col, w);
    }
  }

  lemma ModStep(col: nat, w: nat)
    requires w > 0
    ensures (col + 1) % w == 0 || (col + 1) % w == col % w + 1
  {
    var q, r := col / w, col % w;
    assert col + 1 == q * w + (r + 1);
    if r + 1 < w {
      NumberTheory.DivModUnique(col + 1, q, r + 1, w);
    } else {
      assert col + 1 == (q + 1) * w + 0;
      NumberTheory.DivModUnique(col + 1, q + 1, 0, w);
    }
  }

  lemma UnexpandStart(gs: seq<Glyph>, col: nat, w: nat, all: bool)
    requires w > 0 && (gs == [] || !Blank(gs[0]))
    ensures var u := Unexpand(gs, col, w, all); u == [] || !Blank(u[0])
  {
  }

  /** Past column 0, a run without tabs that is not rewritten stays a run without tabs. */
  lemma {:induction false} KeptRun(gs: seq<Glyph>, col: nat, w: nat)
    requires w > 0 && col > 0 && !RunHasTab(gs)
    ensures !RunHasTab(Unexpand(gs, col, w, false))
    decreases |gs|
  {
    if gs == [] || !Blank(gs[0]) {
      UnexpandStart(gs, col, w, false);
    } else {
      RunRest(gs);
      var u := Unexpand(gs[1..], col + 1, w, false);
      KeptRun(gs[1..], col + 1, w);
      assert gs[0] == SPACE;
      assert ([gs[0]] + u)[1..] == u;
      RunRest([gs[0]] + u);
    }
  }

  lemma RunRest(gs: seq<Glyph>)
    requires gs != [] && Blank(gs[0])
    ensures RunHasTab(gs) <==> gs[0] == TAB || RunHasTab(gs[1..])
  {
    var n := Run(gs);
    assert gs[..n] == [gs[0]] + gs[1..][..n - 1];
  }

  lemma {:induction false} Idempotent(gs: seq<Glyph>, col: nat, w: nat, all: bool)
    requires w > 0
    ensures Unexpand(Unexpand(gs, col, w, all), col, w, all) == Unexpand(gs, col, w, all)
    decreases |gs|
  {
    if gs != [] {
      if Blank(gs[0]) && (all || col == 0 || RunHasTab(gs)) {
        IdempotentRun(gs, col, w, all);
      } else {
        var next := Advance(col, gs[0], w);
        var u := Unexpand(gs[1..], next, w, all);
        var v := [gs[0]] + u;
        Idempotent(gs[1..], next, w, all);
        assert v[1..] == u;
        if Blank(gs[0]) {
          RunRest(gs);
          KeptRun(gs[1..], next, w);
          RunRest(v);
        }
      }
    }
  }

  lemma {:induction false} IdempotentRun(gs: seq<Glyph>, col: nat, w: nat, all: bool)
    requires w > 0 && gs != [] && Blank(gs[0]) && (all || col == 0 || RunHasTab(gs))
    ensures Unexpand(Unexpand(gs, col, w, all), col, w, all) == Unexpand(gs, col, w, all)
    decreases |gs|, 0
  {
    var n := Run(gs);
    var end := Column(col, gs[..n], w);
    var tabs := BlanksToTabs(col, end, w);
    var u := Unexpand(gs[n..], end, w, all);
    BlanksSpan(col, end, w);
    UnexpandStart(gs[n..], end, w, all);
    RunOf(tabs, u);
    var v := tabs + u;
    assert v[..|tabs|] == tabs && v[|tabs|..] == u;
    assert tabs != [] && Blank(v[0]) by {
      assert Blank(tabs[0]);
    }
    if RunHasTab(gs) {
      CrossingHasTab(col, end, w, gs[..n]);
    }
    Idempotent(gs[n..], end, w, all);
  }

  // ---- The rewritten blanks are the fewest ----

  /** Among all blank strings that span the same columns, the rewritten one is shortest. */
  lemma {:induction false} FewestBlanks(start: nat, gs: seq<Glyph>, w: nat)
    requires w > 0 && AllBlank(gs)
    ensures |BlanksToTabs(start, Column(start, gs, w), w)| <= |gs|
    decreases gs
  {
    if gs != [] {
      assert Blank(gs[0]);
      var next := Advance(start, gs[0], w);
      var end := Column(start, gs, w);
      FewestBlanks(next, gs[1..], w);
      if gs[0] == SPACE {
        OneColumnLess(start, end, w);
      }
    }
  }

  lemma StopSame(col: nat, w: nat)
    requires w > 0
    ensures col + 1 <= col + w - col % w
    ensures col + 1 < col + w - col % w ==> (col + 1) + w - (col + 1) % w == col + w - col % w
  {
    var q, r := col / w, col % w;
    if r + 1 < w {
      assert col + 1 == q * w + (r + 1);
      NumberTheory.DivModUnique(col + 1, q, r + 1, w);
    }
  }

  lemma OneColumnLess(start: nat, end: nat, w: nat)
    requires w > 0 && start < end
    ensures |BlanksToTabs(start, end, w)| <= 1 + |BlanksToTabs(start + 1, end, w)|
  {
    StopSame(start, w);
    var stop := start + w - start % w;
    if stop <= end {
      var rest := BlanksToTabs(stop, end, w);
      assert BlanksToTabs(start, end, w) == [TAB] + rest;
      assert start + 1 < stop ==> BlanksToTabs(start + 1, end, w) == [TAB] + rest;
    }
  }
}
