/** How dc takes its input apart: string literals, numerals and register names. */
module DcLexer {
  import opened DcText
  import Digits

  // ---- String literals ----

  predicate IsBracket(c: char) { c == '[' || c == ']' }

  /** The text read at a bracket depth, and how many characters it took. */
  function Literal(s: string, depth: nat): (r: (string, nat))
    ensures r.1 <= |s|
    decreases |s|
  {
    if s == "" || depth == 0 then ("", 0)
    else if s[0] == '[' then
      var r := Literal(s[1..], depth + 1);
      ("[" + r.0, 1 + r.1)
    else if s[0] == ']' then
      var r := Literal(s[1..], depth - 1);
      ((if depth > 1 then "]" else "") + r.0, 1 + r.1)
    else if s[0] == '\\' && |s| > 1 && !IsBracket(s[1]) then
      var r := Literal(s[2..], depth);
      (s[..2] + r.0, 2 + r.1)
    else
      var r := Literal(s[1..], depth);
      ([s[0]] + r.0, 1 + r.1)
  }

  /** What one turn of the reading loop takes and adds. */
  function Taken(s: string): (n: nat)
    requires s != ""
    ensures 1 <= n <= |s|
  {
    if s[0] == '\\' && |s| > 1 && !IsBracket(s[1]) then 2 else 1
  }

  function Deeper(c: char, depth: nat): nat
    requires depth > 0
  {
    if c == '[' then depth + 1 else if c == ']' then depth - 1 else depth
  }

  function Added(s: string, depth: nat): string
    requires s != ""
  {
    if s[0] == ']' && depth == 1 then "" else s[..Taken(s)]
  }

  lemma LiteralStep(s: string, depth: nat)
    requires s != "" && depth > 0
    ensures var r := Literal(s[Taken(s)..], Deeper(s[0], depth));
      Literal(s, depth) == (Added(s, depth) + r.0, Taken(s) + r.1)
  {
    hide Literal;
    assert s[..1] == [s[0]];
    if s[0] == '[' || s[0] == ']' {
      LiteralBracket(s, depth);
    } else if Taken(s) == 2 {
      LiteralEscape(s, depth);
    } else {
      LiteralPlain(s, depth);
    }
  }

  lemma LiteralBracket(s: string, depth: nat)
    requires s != "" && depth > 0 && (s[0] == '[' || s[0] == ']')
    ensures var r := Literal(s[1..], if s[0] == '[' then depth + 1 else depth - 1);
      Literal(s, depth) == ((if s[0] == ']' && depth == 1 then "" else [s[0]]) + r.0, 1 + r.1)
  {
  }

  lemma LiteralEscape(s: string, depth: nat)
    requires |s| > 1 && depth > 0 && s[0] == '\\' && !IsBracket(s[1])
    ensures var r := Literal(s[2..], depth); Literal(s, depth) == (s[..2] + r.0, 2 + r.1)
  {
  }

  lemma LiteralPlain(s: string, depth: nat)
    requires s != "" && depth > 0 && s[0] != '[' && s[0] != ']' && Taken(s) == 1
    ensures var r := Literal(s[1..], depth); Literal(s, depth) == ([s[0]] + r.0, 1 + r.1)
  {
  }

  lemma LiteralEnds(s: string, depth: nat)
    requires s == "" || depth == 0
    ensures Literal(s, depth) == ("", 0)
  {
  }

  lemma Regrouped(p: string, q: string, r: string)
    ensures p + (q + r) == (p + q) + r
  {
  }

  method ReadLiteral(runes: string, start: nat) returns (text: string, next: nat)
    requires start <= |runes|
    ensures start <= next <= |runes|
    ensures (text, next - start) == Literal(runes[start..], 1)
  {
    hide Literal;
    next := start;
    var sb := "";
    var depth := 1;
    while next < |runes| && depth > 0
      invariant start <= next <= |runes| && depth >= 0
      invariant sb + Literal(runes[next..], depth).0 == Literal(runes[start..], 1).0
      invariant next - start + Literal(runes[next..], depth).1 == Literal(runes[start..], 1).1
      decreases |runes| - next
    {
      ghost var here := runes[next..];
      LiteralStep(here, depth);
      assert here[Taken(here)..] == runes[next + Taken(here)..];
      Regrouped(sb, Added(here, depth), Literal(runes[next + Taken(here)..], Deeper(here[0], depth)).0);
      var c := runes[next];
      assert here[..1] == [c];
      next := next + 1;
      if c == '[' {
        depth := depth + 1;
        sb := sb + [c];
      } else if c == ']' {
        depth := depth - 1;
        if depth > 0 {
          sb := sb + [c];
        }
      } else if c == '\\' && next < |runes| && !IsBracket(runes[next]) {
        assert here[..2] == ['\\'] + [runes[next]];
        sb := sb + (['\\'] + [runes[next]]);
        next := next + 1;
      } else {
        sb := sb + [c];
      }
    }
    text := sb;
    LiteralEnds(runes[next..], depth);
    assert sb + "" == sb;
  }

  /** The bracket depth after a text; zero once it was closed. */
  function Level(s: string, depth: nat): nat
    decreases |s|
  {
    if s == "" || depth == 0 then depth
    else Level(s[1..], if s[0] == '[' then depth + 1 else if s[0] == ']' then depth - 1 else depth)
  }

  /** A text with matching brackets, quoted, is read back unchanged, backslashes included. */
  lemma {:induction false} QuotedTextReadsBack(s: string, depth: nat, rest: string)
    requires Level(s, depth) == 1
    ensures Literal(s + "]" + rest, depth) == (s, |s| + 1)
    decreases |s|
  {
    var whole := s + "]" + rest;
    if s == "" {
      assert whole == "]" + rest;
      assert whole[1..] == rest;
      assert Literal(rest, 0) == ("", 0);
      assert "" + "" == "";
    } else {
      assert depth > 0;
      assert whole[0] == s[0] && whole[1..] == s[1..] + "]" + rest;
      if s[0] == '\\' && !IsBracket(whole[1]) {
        assert whole[1] == s[1] && |s| >= 2;
        assert whole[2..] == s[2..] + "]" + rest && s[1..][1..] == s[2..] && whole[..2] == s[..2];
        QuotedTextReadsBack(s[2..], depth, rest);
        assert s[..2] + s[2..] == s;
      } else {
        QuotedTextReadsBack(s[1..], if s[0] == '[' then depth + 1 else if s[0] == ']' then depth - 1 else depth, rest);
        assert [s[0]] + s[1..] == s;
      }
    }
  }

  // ---- Numerals ----

  predicate IsDigit(c: char) { '0' <= c <= '9' }

  function DigitsEnd(s: string, i: nat): (e: nat)
    requires i <= |s|
    ensures i <= e <= |s| && Decimals(s[i..e])
    ensures e < |s| ==> !IsDigit(s[e])
    decreases |s| - i
  {
    if i < |s| && IsDigit(s[i]) then
      var e := DigitsEnd(s, i + 1);
      assert s[i..e] == [s[i]] + s[i + 1..e];
      e
    else i
  }

  method SkipDigits(runes: string, start: nat) returns (i: nat)
    requires start <= |runes|
    ensures i == DigitsEnd(runes, start)
  {
    i := start;
    while i < |runes| && IsDigit(runes[i])
      invariant start <= i <= |runes| && DigitsEnd(runes, i) == DigitsEnd(runes, start)
    {
      i := i + 1;
    }
  }

  /** Where the numeral at a position ends; the position itself when there is none. */
  function NumeralEnd(s: string, pos: nat): (e: nat)
    requires pos < |s|
    ensures pos <= e <= |s|
  {
    var start := if s[pos] == '_' then pos + 1 else pos;
    var i := DigitsEnd(s, start);
    var e := if i < |s| && s[i] == '.' then DigitsEnd(s, i + 1) else i;
    var d := if start < |s| && s[start] == '.' then start + 1 else start;
    if e > d && d < |s| && IsDigit(s[d]) then e else pos
  }

  /** Only digits and one point, digits following it. */
  predicate Lexed(s: string) {
    Decimals(s[..Digits.Point(s)]) && (Digits.Point(s) < |s| ==> Decimals(s[Digits.Point(s) + 1..]))
  }

  lemma {:induction false} LexedStripped(s: string)
    requires Lexed(s) && s != ""
    ensures Lexed(WithoutLeadingZeros(s)) && WithoutLeadingZeros(s) != ""
    decreases |s|
  {
    if |s| > 1 && s[0] == '0' && s[1] != '.' {
      var t := s[1..];
      var i := Digits.Point(s);
      assert Digits.Point(t) == i - 1;
      assert t[..i - 1] == s[..i][1..];
      assert i < |s| ==> t[i..] == s[i + 1..];
      LexedStripped(t);
    }
  }

  lemma LexedReads(s: string)
    requires Lexed(s) && s != ""
    ensures Magnitude(OrZero(WithoutLeadingZeros(s))).Read?
  {
    hide WithoutLeadingZeros, Magnitude, Lexed;
    LexedStripped(s);
    var t := WithoutLeadingZeros(s);
    if t == "." {
      SingleZero();
    } else if Digits.Point(t) == |t| {
      WholeReads(t);
    } else {
      PointedReads(t);
    }
  }

  lemma WholeReads(t: string)
    requires Lexed(t) && t != "" && Digits.Point(t) == |t|
    ensures Magnitude(t).Read?
  {
    hide Digits.Value;
    assert t[..|t|] == t;
  }

  lemma ZeroIsDecimal(s: string)
    requires Decimals(s)
    ensures Decimals(PartOrZero(s))
  {
  }

  lemma PointedReads(t: string)
    requires Lexed(t) && Digits.Point(t) < |t|
    ensures Magnitude(t).Read?
  {
    hide Digits.Value, Decimals, PartOrZero, Magnitude;
    var i := Digits.Point(t);
    MagnitudeAt(t, i);
    ZeroIsDecimal(t[..i]);
    ZeroIsDecimal(t[i + 1..]);
    BothDecimal(PartOrZero(t[..i]), PartOrZero(t[i + 1..]));
  }

  lemma BothDecimal(p: string, q: string)
    requires Decimals(p) && Decimals(q)
    ensures Decimals(p + q)
  {
  }

  lemma SingleZero()
    ensures Magnitude("0").Read?
  {
    assert Digits.Point("0") == 1;
  }

  lemma NumeralReads(negative: bool, s: string)
    requires Lexed(s) && s != ""
    ensures Parse((if negative then "_" else "") + s).Read?
  {
    hide Magnitude, WithoutLeadingZeros, OrZero;
    LexedReads(s);
    var text := (if negative then "_" else "") + s;
    assert IsDigit(s[0]) || s[0] == '.' by {
      FirstCharacter(s);
    }
    assert Unblanked(text) == text;
    if negative {
      assert text[1..] == s;
    } else {
      assert text == s;
    }
    assert Unprefixed(text, '_') == s && Unprefixed(s, '-') == s;
  }

  lemma FirstCharacter(s: string)
    requires Lexed(s) && s != ""
    ensures IsDigit(s[0]) || s[0] == '.'
  {
    var i := Digits.Point(s);
    if i > 0 {
      assert s[..i][0] == s[0];
    }
  }

  lemma LexedParts(s: string, k: nat)
    requires k <= |s| && Decimals(s[..k]) && (k < |s| ==> s[k] == '.' && Decimals(s[k + 1..]))
    ensures Lexed(s)
  {
    assert forall j | 0 <= j < k :: s[j] == s[..k][j];
    assert Digits.Point(s) == k;
  }

  lemma Slices(s: string, start: nat, i: nat, e: nat)
    requires start <= i <= e <= |s|
    ensures s[start..e][..i - start] == s[start..i]
    ensures i < e ==> s[start..e][i - start] == s[i] && s[start..e][i - start + 1..] == s[i + 1..e]
  {
  }

  /** Every numeral the lexer accepts can be read: pushing it never fails. */
  lemma NumeralIsRead(s: string, pos: nat)
    requires pos < |s| && NumeralEnd(s, pos) > pos
    ensures Parse(s[pos..NumeralEnd(s, pos)]).Read?
  {
    hide Parse, Lexed, Decimals;
    var negative := s[pos] == '_';
    var start := if negative then pos + 1 else pos;
    var i, e := DigitsEnd(s, start), NumeralEnd(s, pos);
    var t := s[start..e];
    Slices(s, start, i, e);
    LexedParts(t, i - start);
    NumeralReads(negative, t);
    assert s[pos..e] == (if negative then "_" else "") + t;
  }

  method ParseNumber(runes: string, pos: nat) returns (num: string, next: nat)
    requires pos < |runes|
    ensures next == NumeralEnd(runes, pos) && num == runes[pos..next]
    ensures num != "" ==> Parse(num).Read?
  {
    hide Parse, Lexed, Decimals;
    var i := if runes[pos] == '_' then pos + 1 else pos;
    i := SkipDigits(runes, i);
    if i < |runes| && runes[i] == '.' {
      i := SkipDigits(runes, i + 1);
    }
    var numStart := if runes[pos] == '_' then pos + 1 else pos;
    var digitStart := numStart;
    if digitStart < |runes| && runes[digitStart] == '.' {
      digitStart := digitStart + 1;
    }
    if i > digitStart && digitStart < |runes| && IsDigit(runes[digitStart]) {
      NumeralIsRead(runes, pos);
      return runes[pos..i], i;
    }
    return "", pos;
  }

  // ---- Register names ----

  predicate IsIdentifier(c: char) { 'a' <= c <= 'z' || 'A' <= c <= 'Z' || '0' <= c <= '9' || c == '_' }

  function IdentifierEnd(s: string, i: nat): (e: nat)
    requires i <= |s|
    ensures i <= e <= |s|
    decreases |s| - i
  {
    if i < |s| && IsIdentifier(s[i]) then IdentifierEnd(s, i + 1) else i
  }

  /** One character; in extended mode, after a space, the longest run of identifier characters. */
  function RegName(s: string, i: nat, extended: bool): string
    requires i <= |s|
  {
    if i == |s| then "" else if extended && s[i] == ' ' then s[i + 1..IdentifierEnd(s, i + 1)] else [s[i]]
  }

  function RegEnd(s: string, i: nat, extended: bool): (e: nat)
    requires i <= |s|
    ensures i <= e <= |s|
  {
    if i == |s| then i else if extended && s[i] == ' ' then IdentifierEnd(s, i + 1) else i + 1
  }

  method ParseRegName(runes: string, start: nat, extended: bool) returns (reg: string, next: nat)
    requires start <= |runes|
    ensures reg == RegName(runes, start, extended) && next == RegEnd(runes, start, extended)
  {
    if start == |runes| {
      return "", start;
    }
    next := start + 1;
    if extended && runes[start] == ' ' {
      reg := "";
      while next < |runes| && IsIdentifier(runes[next])
        invariant start < next <= |runes| && reg == runes[start + 1..next]
        invariant IdentifierEnd(runes, next) == IdentifierEnd(runes, start + 1)
      {
        reg := reg + [runes[next]];
        next := next + 1;
      }
      return reg, next;
    }
    return [runes[start]], next;
  }

  /** A comment runs to the end of its line. */
  function CommentEnd(s: string, i: nat): (e: nat)
    requires i <= |s|
    ensures i <= e <= |s|
    decreases |s| - i
  {
    if i < |s| && s[i] != '\n' then CommentEnd(s, i + 1) else i
  }
}
