/** What expand and unexpand do to a line, seen by its columns and its other characters. */
module TabColumns {
  import NumberTheory
  import opened Tabs
  import opened TabLines

  /** After a tab the column is the next multiple of the tab width. */
  lemma TabGoesToStop(gs: seq<Glyph>, w: nat)
    requires w > 0
    ensures var before, after := Column(0, gs, w), Column(0, gs + [TAB], w);
      after % w == 0 && before < after <= before + w
  {
    ColumnConcat(0, gs, [TAB], w);
    assert [TAB][1..] == [];
    var col := Column(0, gs, w);
    assert Column(col, [TAB], w) == Advance(col, TAB, w);
    StopIsMultiple(col, w);
  }

  lemma StopIsMultiple(col: nat, w: nat)
    requires w > 0
    ensures (col + w - col % w) % w == 0
  {
    var q, r := col / w, col % w;
    assert col == q * w + r;
    assert col + w - r == (q + 1) * w;
    NumberTheory.MultipleMod(q + 1, w);
  }

  /** The expanded line, character by character. */
  function Widened(gs: seq<Glyph>, col: nat, w: nat): seq<Glyph>
    requires w > 0
    decreases gs
  {
    if gs == [] then []
    else (if gs[0] == TAB then Blanks(w - col % w) else [gs[0]]) + Widened(gs[1..], Advance(col, gs[0], w), w)
  }

  function Blanks(n: nat): seq<Glyph> { seq(n, i => SPACE) }

  lemma {:induction false} FlatConcat(p: seq<Glyph>, q: seq<Glyph>)
    ensures Flat(p + q) == Flat(p) + Flat(q)
  {
    if p == [] {
      assert p + q == q;
    } else {
      FlatConcat(p[1..], q);
      assert (p + q)[1..] == p[1..] + q && (p + q)[0] == p[0];
      Regrouped(p[0], Flat(p[1..]), Flat(q));
    }
  }

  lemma {:induction false} FlatBlanksAre(n: nat)
    ensures Flat(Blanks(n)) == Spaces(n)
  {
    if n > 0 {
      assert Blanks(n)[1..] == Blanks(n - 1);
      FlatBlanksAre(n - 1);
      assert Spaces(n) == SPACE + Spaces(n - 1);
    }
  }

  lemma {:induction false} WidenedIsExpand(gs: seq<Glyph>, col: nat, w: nat)
    requires w > 0
    ensures Flat(Widened(gs, col, w)) == Expand(gs, col, w)
    decreases gs
  {
    if gs != [] {
      var rest := Widened(gs[1..], Advance(col, gs[0], w), w);
      WidenedIsExpand(gs[1..], Advance(col, gs[0], w), w);
      if gs[0] == TAB {
        FlatConcat(Blanks(w - col % w), rest);
        FlatBlanksAre(w - col % w);
      } else {
        var one: seq<Glyph> := [gs[0]];
        FlatConcat(one, rest);
        assert one[1..] == [];
        assert Flat(one) == gs[0] + Flat([]);
      }
    }
  }

  /** The characters that are not blanks. */
  function Ink(gs: seq<Glyph>): seq<Glyph> {
    if gs == [] then [] else (if Blank(gs[0]) then [] else [gs[0]]) + Ink(gs[1..])
  }

  lemma RegroupedGlyphs(p: seq<Glyph>, q: seq<Glyph>, r: seq<Glyph>)
    ensures p + (q + r) == (p + q) + r
  {
  }

  lemma {:induction false} InkConcat(p: seq<Glyph>, q: seq<Glyph>)
    ensures Ink(p + q) == Ink(p) + Ink(q)
  {
    hide Blank;
    if p == [] {
      assert p + q == q;
    } else {
      InkConcat(p[1..], q);
      assert (p + q)[1..] == p[1..] + q && (p + q)[0] == p[0];
      RegroupedGlyphs(if Blank(p[0]) then [] else [p[0]], Ink(p[1..]), Ink(q));
    }
  }

  lemma {:induction false} NoInk(gs: seq<Glyph>)
    requires AllBlank(gs)
    ensures Ink(gs) == []
  {
    if gs != [] {
      assert Blank(gs[0]);
      NoInk(gs[1..]);
    }
  }

  lemma {:induction false} WidenedShape(gs: seq<Glyph>, col: nat, w: nat)
    requires w > 0
    ensures |Widened(gs, col, w)| == Column(col, gs, w) - col
    ensures TAB !in Widened(gs, col, w) && Ink(Widened(gs, col, w)) == Ink(gs)
    decreases gs
  {
    if gs != [] {
      var next := Advance(col, gs[0], w);
      var rest := Widened(gs[1..], next, w);
      WidenedShape(gs[1..], next, w);
      if gs[0] == TAB {
        InkConcat(Blanks(w - col % w), rest);
        NoInk(Blanks(w - col % w));
      } else {
        var one: seq<Glyph> := [gs[0]];
        InkConcat(one, rest);
        assert one[1..] == [];
        assert Ink(one) == (if Blank(gs[0]) then [] else one) + Ink([]);
      }
    }
  }

  lemma {:induction false} WidenedSplits(gs: seq<Glyph>, col: nat, w: nat)
    requires w > 0 && Split(gs)
    ensures Split(Widened(gs, col, w)) && Head(Flat(Widened(gs, col, w))) == Head(Flat(gs))
    decreases gs
  {
    hide Size, Head;
    if gs != [] {
      var next := Advance(col, gs[0], w);
      var rest := Widened(gs[1..], next, w);
      WidenedSplits(gs[1..], next, w);
      if gs[0] == TAB {
        SplitBlanks(Blanks(w - col % w), rest);
        BlankHead(gs);
        assert Widened(gs, col, w)[0] == SPACE;
        BlankHead(Widened(gs, col, w));
      } else {
        CopySplits(gs[0], gs[1..], rest);
        assert [gs[0]] + gs[1..] == gs;
      }
    }
  }

  /** An expanded line has no tab, is as wide as the line was, and has the same other characters in the same order. */
  lemma ExpandedShape(line: Bytes, w: nat)
    requires w > 0
    ensures var gs, es := Glyphs(line), Glyphs(Expanded(line, w));
      TAB !in es && |es| == Column(0, gs, w) && Ink(es) == Ink(gs)
  {
    hide Size, Column, Widened, Expand, Split;
    var gs := Glyphs(line);
    GlyphsSplit(line);
    WidenedSplits(gs, 0, w);
    WidenedIsExpand(gs, 0, w);
    SplitDecodes(Widened(gs, 0, w));
    WidenedShape(gs, 0, w);
  }

  /** With -i, what follows the leading blanks stays as it is. */
  lemma {:induction false} InitialOnlyKeepsRest(blanks: Bytes, rest: Bytes, col: nat, w: nat)
    requires w > 0 && (forall i | 0 <= i < |blanks| :: IsBlank(blanks[i]))
    requires rest == [] || (!IsBlank(rest[0]) && !Invalid(rest))
    ensures ExpandFrom(blanks + rest, col, w, true) == ExpandFrom(blanks, col, w, false) + rest
    decreases |blanks|
  {
    if blanks == [] {
      assert blanks + rest == rest;
    } else {
      var s := blanks + rest;
      assert s[0] == blanks[0] && s[1..] == blanks[1..] + rest;
      InitialOnlyKeepsRest(blanks[1..], rest, Advance(col, [blanks[0]], w), w);
      assert Size(s) == 1 && Size(blanks) == 1;
      assert s[..1] == [blanks[0]] && blanks[..1] == [blanks[0]];
    }
  }

  lemma {:induction false} LaterBlanksKept(gs: seq<Glyph>, col: nat, w: nat)
    requires w > 0 && col > 0 && TAB !in gs
    ensures Unexpand(gs, col, w, false) == gs
    decreases |gs|
  {
    if gs != [] {
      assert !RunHasTab(gs);
      LaterBlanksKept(gs[1..], Advance(col, gs[0], w), w);
    }
  }

  /** Without -a a line in ASCII that has no tab and does not start with a blank stays as it is. */
  lemma OnlyLeadingBlanksChange(line: Bytes, w: nat)
    requires w > 0 && !HasHigh(line) && TAB !in Glyphs(line) && (line == [] || !IsBlank(line[0]))
    ensures Unexpanded(line, w, false) == line
  {
    hide Size;
    GlyphsSplit(line);
    var gs := Glyphs(line);
    if line != [] {
      FirstGlyph(line);
      assert [gs[0]] + gs[1..] == gs;
      LaterBlanksKept(gs[1..], Advance(0, gs[0], w), w);
    }
  }
}
