/** expand and unexpand on the bytes of a line: the loops of the two utilities and their laws. */
module TabLines {
  import opened Tabs

  // ---- Decoding is not disturbed by rewriting blanks ----

  /** The bytes before the first blank. */
  function Head(s: Bytes): (h: Bytes)
    ensures h <= s && (forall i | 0 <= i < |h| :: !IsBlank(h[i])) && (|h| < |s| ==> IsBlank(s[|h|]))
  {
    if s == [] || IsBlank(s[0]) then [] else [s[0]] + Head(s[1..])
  }

  lemma HeadUnique(s: Bytes, n: nat)
    requires n <= |s| && (forall i | 0 <= i < n :: !IsBlank(s[i])) && (n < |s| ==> IsBlank(s[n]))
    ensures Head(s) == s[..n]
  {
    var h := Head(s);
    assert |h| >= n;
    assert forall i | 0 <= i < |h| :: s[i] == h[i];
    assert |h| <= n;
  }

  lemma HeadConcat(g: Bytes, s: Bytes)
    requires forall i | 0 <= i < |g| :: !IsBlank(g[i])
    ensures Head(g + s) == g + Head(s)
  {
    var n := |Head(s)|;
    assert forall i | |g| <= i < |g| + n :: (g + s)[i] == Head(s)[i - |g|];
    HeadUnique(g + s, |g| + n);
  }

  /** A blank ends a character, so only the bytes before it decide how many bytes the character takes. */
  lemma SizeByHead(s: Bytes)
    requires s != [] && !IsBlank(s[0])
    ensures Head(s) != [] && Size(s) == Size(Head(s))
  {
    var h := Head(s);
    assert forall i | 0 <= i < |h| :: h[i] == s[i];
    assert forall i: nat | i < |h| :: Continues(s, i) == Continues(h, i);
    assert |h| < |s| ==> !Continues(s, |h|);
    assert h[0] == s[0];
  }

  /** The pieces are the characters that decoding their bytes gives. */
  predicate Split(gs: seq<Glyph>) {
    gs == [] || (gs[0] != [] && Size(gs[0] + Flat(gs[1..])) == |gs[0]| && Split(gs[1..]))
  }

  lemma {:induction false} SplitDecodes(gs: seq<Glyph>)
    requires Split(gs)
    ensures Glyphs(Flat(gs)) == gs
  {
    if gs != [] {
      var s := gs[0] + Flat(gs[1..]);
      assert s[..|gs[0]|] == gs[0] && s[|gs[0]|..] == Flat(gs[1..]);
      SplitDecodes(gs[1..]);
    }
  }

  lemma {:induction false} GlyphsSplit(s: Bytes)
    ensures Flat(Glyphs(s)) == s && Split(Glyphs(s))
    decreases |s|
  {
    if s != [] {
      var n := Size(s);
      GlyphsSplit(s[n..]);
      var gs := Glyphs(s);
      assert gs[1..] == Glyphs(s[n..]) && gs[0] == s[..n];
      assert s[..n] + s[n..] == s;
    }
  }

  lemma {:induction false} SplitDrop(gs: seq<Glyph>, n: nat)
    requires Split(gs) && n <= |gs|
    ensures Split(gs[n..])
    decreases n
  {
    if n > 0 {
      SplitDrop(gs[1..], n - 1);
      assert gs[1..][n - 1..] == gs[n..];
    } else {
      assert gs[0..] == gs;
    }
  }

  lemma {:induction false} SplitBlanks(blanks: seq<Glyph>, gs: seq<Glyph>)
    requires AllBlank(blanks) && Split(gs)
    ensures Split(blanks + gs)
  {
    if blanks == [] {
      assert blanks + gs == gs;
    } else {
      assert Blank(blanks[0]);
      assert (blanks + gs)[1..] == blanks[1..] + gs;
      SplitBlanks(blanks[1..], gs);
    }
  }

  /** A character that is not a blank contains no blank byte. */
  lemma GlyphHasNoBlank(g: Glyph, rest: Bytes)
    requires g != [] && Size(g + rest) == |g| && !Blank(g)
    ensures forall i | 0 <= i < |g| :: !IsBlank(g[i])
  {
    var s := g + rest;
    assert forall i | 0 <= i < |g| :: s[i] == g[i];
    assert IsBlank(g[0]) ==> |g| == 1;
    assert |g| == 1 ==> g == [g[0]];
    assert |g| >= 2 ==> Continues(s, 1);
    assert |g| >= 3 ==> Continues(s, 2);
    assert |g| >= 4 ==> Continues(s, 3);
  }

  lemma BlankHead(gs: seq<Glyph>)
    requires gs != [] && Blank(gs[0])
    ensures Head(Flat(gs)) == []
  {
    assert Flat(gs)[0] == gs[0][0];
  }

  /** Unexpanding keeps the other characters apart as they were. */
  lemma {:induction false} UnexpandSplits(gs: seq<Glyph>, col: nat, w: nat, all: bool)
    requires w > 0 && Split(gs)
    ensures Split(Unexpand(gs, col, w, all)) && Head(Flat(Unexpand(gs, col, w, all))) == Head(Flat(gs))
    decreases |gs|
  {
    hide Size, Head;
    if gs != [] {
      if Blank(gs[0]) && (all || col == 0 || RunHasTab(gs)) {
        var n := Run(gs);
        var end := Column(col, gs[..n], w);
        var tabs := BlanksToTabs(col, end, w);
        SplitDrop(gs, n);
        UnexpandSplits(gs[n..], end, w, all);
        BlanksSpan(col, end, w);
        SplitBlanks(tabs, Unexpand(gs[n..], end, w, all));
        BlankHead(gs);
        assert Blank(tabs[0]);
        BlankHead(Unexpand(gs, col, w, all));
      } else {
        var next := Advance(col, gs[0], w);
        var u := Unexpand(gs[1..], next, w, all);
        UnexpandSplits(gs[1..], next, w, all);
        CopySplits(gs[0], gs[1..], u);
        assert [gs[0]] + gs[1..] == gs;
      }
    }
  }

  lemma CopySplits(g: Glyph, gs: seq<Glyph>, u: seq<Glyph>)
    requires Split([g] + gs) && Split(u) && Head(Flat(u)) == Head(Flat(gs))
    ensures Split([g] + u) && Head(Flat([g] + u)) == Head(Flat([g] + gs))
  {
    assert ([g] + gs)[1..] == gs && ([g] + u)[1..] == u;
    if Blank(g) {
      BlankHead([g] + gs);
      BlankHead([g] + u);
    } else {
      GlyphHasNoBlank(g, Flat(gs));
      hide Size;
      HeadConcat(g, Flat(gs));
      HeadConcat(g, Flat(u));
      SizeByHead(g + Flat(gs));
      SizeByHead(g + Flat(u));
    }
  }

  // ---- High bytes ----

  predicate HasHigh(s: Bytes) { exists i :: 0 <= i < |s| && s[i] >= 0x80 }

  lemma HighConcat(p: Bytes, q: Bytes)
    ensures HasHigh(p + q) <==> HasHigh(p) || HasHigh(q)
  {
    if i :| 0 <= i < |p| && p[i] >= 0x80 {
      assert (p + q)[i] >= 0x80;
    }
    if i :| 0 <= i < |q| && q[i] >= 0x80 {
      assert (p + q)[|p| + i] >= 0x80;
    }
  }

  lemma {:induction false} HighOfBlanks(blanks: seq<Glyph>, gs: seq<Glyph>)
    requires AllBlank(blanks)
    ensures HasHigh(Flat(blanks + gs)) <==> HasHigh(Flat(gs))
  {
    if blanks == [] {
      assert blanks + gs == gs;
    } else {
      assert Blank(blanks[0]);
      assert (blanks + gs)[1..] == blanks[1..] + gs;
      HighOfBlanks(blanks[1..], gs);
      HighConcat(blanks[0], Flat(blanks[1..] + gs));
    }
  }

  lemma {:induction false} HighUnexpand(gs: seq<Glyph>, col: nat, w: nat, all: bool)
    requires w > 0
    ensures HasHigh(Flat(Unexpand(gs, col, w, all))) <==> HasHigh(Flat(gs))
    decreases |gs|
  {
    hide HasHigh;
    if gs != [] {
      if Blank(gs[0]) && (all || col == 0 || RunHasTab(gs)) {
        var n := Run(gs);
        var end := Column(col, gs[..n], w);
        var tabs := BlanksToTabs(col, end, w);
        BlanksSpan(col, end, w);
        HighUnexpand(gs[n..], end, w, all);
        HighOfBlanks(tabs, Unexpand(gs[n..], end, w, all));
        HighOfBlanks(gs[..n], gs[n..]);
        assert gs[..n] + gs[n..] == gs;
      } else {
        var next := Advance(col, gs[0], w);
        var u := Unexpand(gs[1..], next, w, all);
        HighUnexpand(gs[1..], next, w, all);
        HighConcat(gs[0], Flat(gs[1..]));
        HighConcat(gs[0], Flat(u));
        assert ([gs[0]] + u)[1..] == u;
      }
    }
  }

  // ---- The utilities ----

  /** A line as `expand` prints it. */
  function Expanded(line: Bytes, w: nat): Bytes
    requires w > 0
  {
    Expand(Glyphs(line), 0, w)
  }

  /** A line as `unexpand` prints it; a byte above 127 switches to rewriting all blanks. */
  function Unexpanded(line: Bytes, w: nat, all: bool): Bytes
    requires w > 0
  {
    Flat(Unexpand(Glyphs(line), 0, w, all || HasHigh(line)))
  }

  /** unexpand followed by expand is expand. */
  lemma ExpandAfterUnexpand(line: Bytes, w: nat, all: bool)
    requires w > 0
    ensures Expanded(Unexpanded(line, w, all), w) == Expanded(line, w)
  {
    var gs := Glyphs(line);
    var a := all || HasHigh(line);
    GlyphsSplit(line);
    UnexpandSplits(gs, 0, w, a);
    SplitDecodes(Unexpand(gs, 0, w, a));
    ExpandUnexpand(gs, 0, w, a);
  }

  /** unexpand changes nothing the second time. */
  lemma UnexpandTwice(line: Bytes, w: nat, all: bool)
    requires w > 0
    ensures Unexpanded(Unexpanded(line, w, all), w, all) == Unexpanded(line, w, all)
  {
    var gs := Glyphs(line);
    var a := all || HasHigh(line);
    GlyphsSplit(line);
    UnexpandSplits(gs, 0, w, a);
    SplitDecodes(Unexpand(gs, 0, w, a));
    HighUnexpand(gs, 0, w, a);
    Idempotent(gs, 0, w, a);
  }

  /** `expand` from a position on; with -i it copies the line from the first non-blank on. */
  function ExpandFrom(s: Bytes, col: nat, w: nat, initialOnly: bool): Bytes
    requires w > 0
    decreases |s|
  {
    if s == [] then []
    else if Invalid(s) then [s[0]] + ExpandFrom(s[1..], col + 1, w, initialOnly)
    else if s[0] == 9 then Spaces(w - col % w) + ExpandFrom(s[1..], col + (w - col % w), w, initialOnly)
    else
      var n := Size(s);
      if initialOnly && s[0] != 32 then s
      else s[..n] + ExpandFrom(s[n..], col + 1, w, initialOnly)
  }

  lemma {:induction false} ExpandFromIsExpand(s: Bytes, col: nat, w: nat)
    requires w > 0
    ensures ExpandFrom(s, col, w, false) == Expand(Glyphs(s), col, w)
    decreases |s|
  {
    if s != [] {
      var n := Size(s);
      assert Glyphs(s)[0] == s[..n] && Glyphs(s)[1..] == Glyphs(s[n..]);
      assert s[0] == 9 <==> s[..n] == TAB by {
        assert s[..n][0] == s[0];
      }
      ExpandFromIsExpand(s[n..], Advance(col, s[..n], w), w);
    }
  }

  /** One turn of the loop of `expand`: what it writes, how far it moves, and the next column. */
  method ExpandOne(rest: Bytes, col: nat, w: nat, initialOnly: bool) returns (out: Bytes, size: nat, next: nat, stop: bool)
    requires w > 0 && rest != []
    ensures 1 <= size <= |rest|
    ensures stop ==> ExpandFrom(rest, col, w, initialOnly) == out + rest[size..]
    ensures !stop ==> ExpandFrom(rest, col, w, initialOnly) == out + ExpandFrom(rest[size..], next, w, initialOnly)
  {
    stop := false;
    size := Size(rest);
    if Invalid(rest) {
      out, next := [rest[0]], col + 1;
    } else if rest[0] == 9 {
      TabIsOneByte(rest);
      var spaces := w - col % w;
      out, next := Spaces(spaces), col + spaces;
    } else {
      out, next := rest[..size], col + 1;
      assert rest[..size] + rest[size..] == rest;
      stop := initialOnly && rest[0] != 32;
    }
  }

  lemma ExpandedIsExpandFrom(line: Bytes, w: nat)
    requires w > 0
    ensures ExpandFrom(line, 0, w, false) == Expanded(line, w)
  {
    ExpandFromIsExpand(line, 0, w);
  }

  lemma Regrouped(p: Bytes, q: Bytes, r: Bytes)
    ensures p + (q + r) == (p + q) + r
  {
  }

  method ExpandLine(line: Bytes, w: nat, initialOnly: bool) returns (result: Bytes)
    requires w > 0
    ensures result == ExpandFrom(line, 0, w, initialOnly)
    ensures !initialOnly ==> result == Expanded(line, w)
  {
    hide Size, ExpandFrom, Expanded;
    ExpandedIsExpandFrom(line, w);
    result := [];
    var col, i := 0, 0;
    assert line[0..] == line;
    while i < |line|
      invariant 0 <= i <= |line| && 0 <= col
      invariant result + ExpandFrom(line[i..], col, w, initialOnly) == ExpandFrom(line, 0, w, initialOnly)
      decreases |line| - i
    {
      var out, size, next, stop := ExpandOne(line[i..], col, w, initialOnly);
      assert line[i..][size..] == line[i + size..];
      Regrouped(result, out, if stop then line[i + size..] else ExpandFrom(line[i + size..], next, w, initialOnly));
      result := result + out;
      col := next;
      i := i + size;
      if stop {
        return result + line[i..];
      }
    }
    assert line[i..] == [];
    ExpandNothing(col, w, initialOnly);
  }

  lemma ExpandNothing(col: nat, w: nat, initialOnly: bool)
    requires w > 0
    ensures ExpandFrom([], col, w, initialOnly) == []
  {
  }

  lemma TabIsOneByte(s: Bytes)
    requires s != [] && s[0] < 0x80
    ensures Size(s) == 1 && s[..1] == [s[0]]
  {
  }

  /** The minimal blanks between two columns. */
  method BlanksLoop(startCol: nat, endCol: nat, w: nat) returns (result: Bytes)
    requires w > 0 && startCol <= endCol
    ensures result == Flat(BlanksToTabs(startCol, endCol, w))
  {
    hide BlanksToTabs;
    result := [];
    var col := startCol;
    while col < endCol
      invariant startCol <= col <= endCol
      invariant result + Flat(BlanksToTabs(col, endCol, w)) == Flat(BlanksToTabs(startCol, endCol, w))
    {
      FlatBlanks(col, endCol, w);
      var nextTabStop := col + w - col % w;
      if nextTabStop <= endCol {
        result := result + [9];
        col := nextTabStop;
      } else {
        result := result + [32];
        col := col + 1;
      }
    }
    NoBlanks(endCol, w);
  }

  lemma NoBlanks(col: nat, w: nat)
    requires w > 0
    ensures Flat(BlanksToTabs(col, col, w)) == []
  {
  }

  lemma FlatBlanks(col: nat, end: nat, w: nat)
    requires w > 0 && col < end
    ensures col < col + w - col % w
    ensures var next := col + w - col % w;
      Flat(BlanksToTabs(col, end, w)) ==
      if next <= end then [9] + Flat(BlanksToTabs(next, end, w)) else [32] + Flat(BlanksToTabs(col + 1, end, w))
  {
    var blanks := BlanksToTabs(col, end, w);
    var next := col + w - col % w;
    if next <= end {
      assert blanks[0] == TAB && blanks[1..] == BlanksToTabs(next, end, w);
    } else {
      assert blanks[0] == SPACE && blanks[1..] == BlanksToTabs(col + 1, end, w);
    }
  }

  lemma FirstGlyph(s: Bytes)
    requires s != []
    ensures Glyphs(s) != [] && Glyphs(s)[0] == s[..Size(s)] && Glyphs(s)[1..] == Glyphs(s[Size(s)..])
    ensures IsBlank(s[0]) <==> Blank(Glyphs(s)[0])
    ensures IsBlank(s[0]) ==> Size(s) == 1 && Glyphs(s)[0] == [s[0]]
  {
    assert s[..Size(s)][0] == s[0];
  }

  /** Whether the run of blanks a string starts with contains a tab. */
  method BlankRunContainsTab(s: Bytes) returns (found: bool)
    ensures found <==> RunHasTab(Glyphs(s))
  {
    hide Size, Glyphs, RunHasTab;
    var i := 0;
    assert s[0..] == s;
    while i < |s|
      invariant 0 <= i <= |s|
      invariant RunHasTab(Glyphs(s[i..])) <==> RunHasTab(Glyphs(s))
    {
      var rest := s[i..];
      FirstGlyph(rest);
      if !IsBlank(rest[0]) {
        NoRun(Glyphs(rest));
        return false;
      }
      RunRest(Glyphs(rest));
      if rest[0] == 9 {
        return true;
      }
      assert rest[1..] == s[i + 1..];
      i := i + 1;
    }
    EmptyHasNoTab();
    return false;
  }

  lemma NoRun(gs: seq<Glyph>)
    requires gs != [] && !Blank(gs[0])
    ensures !RunHasTab(gs) && Run(gs) == 0
  {
  }

  lemma EmptyHasNoTab()
    ensures Glyphs([]) == [] && !RunHasTab(Glyphs([])) && Run(Glyphs([])) == 0
  {
  }

  /** Runs over a whole run of blanks, keeping the column. */
  method SkipRun(line: Bytes, i0: nat, col0: nat, w: nat) returns (i: nat, col: nat)
    requires w > 0 && i0 < |line| && IsBlank(line[i0])
    ensures i0 < i <= |line|
    ensures var gs := Glyphs(line[i0..]);
      col == Column(col0, gs[..Run(gs)], w) && Glyphs(line[i..]) == gs[Run(gs)..]
  {
    hide Size, Glyphs, Column;
    i, col := i0, col0;
    ghost var gs := Glyphs(line[i0..]);
    ghost var k := 0;
    StartRun(gs, col0, w);
    while i < |line| && IsBlank(line[i])
      invariant i0 <= i <= |line| && (i == i0 ==> IsBlank(line[i]))
      invariant 0 <= k <= Run(gs) && Glyphs(line[i..]) == gs[k..]
      invariant col == Column(col0, gs[..k], w)
    {
      var rest := line[i..];
      FirstGlyph(rest);
      OneMore(gs, k, col0, w);
      col := Advance(col, [line[i]], w);
      assert rest[1..] == line[i + 1..];
      i := i + 1;
      k := k + 1;
    }
    if i < |line| {
      FirstGlyph(line[i..]);
    } else {
      assert line[i..] == [];
      EmptyHasNoTab();
    }
    assert k == Run(gs);
  }

  lemma StartRun(gs: seq<Glyph>, col: nat, w: nat)
    requires w > 0
    ensures gs[0..] == gs && Column(col, gs[..0], w) == col
  {
  }

  lemma OneMore(gs: seq<Glyph>, k: nat, col: nat, w: nat)
    requires w > 0 && k <= Run(gs) && k < |gs| && Blank(gs[k..][0])
    ensures k < Run(gs) && gs[k..][1..] == gs[k + 1..] && gs[k..][0] == gs[k]
    ensures Column(col, gs[..k + 1], w) == Advance(Column(col, gs[..k], w), gs[k], w)
  {
    assert gs[..k + 1] == gs[..k] + [gs[k]];
    ColumnConcat(col, gs[..k], [gs[k]], w);
    var one: seq<Glyph> := [gs[k]];
    assert one[1..] == [];
    assert Column(Column(col, gs[..k], w), one, w) == Column(Advance(Column(col, gs[..k], w), gs[k], w), [], w);
  }

  /** One turn of the loop of `unexpand`: a run of blanks is rewritten, or one character copied. */
  method UnexpandOne(line: Bytes, i0: nat, col0: nat, w: nat, all: bool) returns (out: Bytes, i: nat, col: nat)
    requires w > 0 && i0 < |line|
    ensures i0 < i <= |line|
    ensures Flat(Unexpand(Glyphs(line[i0..]), col0, w, all)) == out + Flat(Unexpand(Glyphs(line[i..]), col, w, all))
  {
    hide Size, Glyphs, Column, Unexpand, Flat;
    var rest := line[i0..];
    var size := Size(rest);
    FirstGlyph(rest);
    var convert := false;
    if IsBlank(line[i0]) {
      var containsTab := BlankRunContainsTab(rest);
      convert := all || col0 == 0 || containsTab;
    }
    if convert {
      i, col := SkipRun(line, i0, col0, w);
      ConvertRun(Glyphs(rest), Glyphs(line[i..]), col0, col, w, all);
      out := BlanksLoop(col0, col, w);
    } else {
      CopyOne(Glyphs(rest), col0, w, all);
      col := Advance(col0, rest[..size], w);
      i := i0 + size;
      assert rest[size..] == line[i..];
      out := rest[..size];
    }
  }

  method UnexpandLine(line: Bytes, w: nat, allBlanks: bool) returns (result: Bytes)
    requires w > 0
    ensures result == Unexpanded(line, w, allBlanks)
  {
    hide Size, Glyphs, Column, HasHigh, Unexpand, Flat;
    UnexpandNothing(w);
    if |line| == 0 {
      return line;
    }
    var high := FindHigh(line);
    var all := allBlanks || high;
    result := [];
    var col, i := 0, 0;
    assert line[0..] == line;
    while i < |line|
      invariant 0 <= i <= |line| && 0 <= col
      invariant result + Flat(Unexpand(Glyphs(line[i..]), col, w, all)) == Unexpanded(line, w, allBlanks)
      decreases |line| - i
    {
      var out;
      out, i, col := UnexpandOne(line, i, col, w, all);
      result := result + out;
    }
    assert line[i..] == [];
  }

  lemma UnexpandNothing(w: nat)
    requires w > 0
    ensures forall col: nat, all :: Flat(Unexpand(Glyphs([]), col, w, all)) == []
  {
  }

  method FindHigh(line: Bytes) returns (found: bool)
    ensures found <==> HasHigh(line)
  {
    for i := 0 to |line|
      invariant forall j | 0 <= j < i :: line[j] < 0x80
    {
      if line[i] >= 0x80 {
        return true;
      }
    }
    return false;
  }

  lemma ConvertRun(gs: seq<Glyph>, rest: seq<Glyph>, col: nat, end: nat, w: nat, all: bool)
    requires w > 0 && gs != [] && Blank(gs[0]) && (all || col == 0 || RunHasTab(gs))
    requires end == Column(col, gs[..Run(gs)], w) && rest == gs[Run(gs)..]
    ensures col <= end && Flat(Unexpand(gs, col, w, all)) == Flat(BlanksToTabs(col, end, w)) + Flat(Unexpand(rest, end, w, all))
  {
    FlatConcat(BlanksToTabs(col, end, w), Unexpand(rest, end, w, all));
  }

  lemma CopyOne(gs: seq<Glyph>, col: nat, w: nat, all: bool)
    requires w > 0 && gs != [] && !(Blank(gs[0]) && (all || col == 0 || RunHasTab(gs)))
    ensures Flat(Unexpand(gs, col, w, all)) == gs[0] + Flat(Unexpand(gs[1..], Advance(col, gs[0], w), w, all))
  {
    var u := Unexpand(gs[1..], Advance(col, gs[0], w), w, all);
    assert ([gs[0]] + u)[1..] == u;
  }

  lemma {:induction false} FlatConcat(p: seq<Glyph>, q: seq<Glyph>)
    ensures Flat(p + q) == Flat(p) + Flat(q)
  {
    if p == [] {
      assert p + q == q;
    } else {
      assert (p + q)[1..] == p[1..] + q;
      FlatConcat(p[1..], q);
    }
  }
}
