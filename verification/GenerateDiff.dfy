/** `GenerateDiff`: compare normalised lines, then put the original lines back into the script. */
module GenerateDiff {
  import opened EditScript
  import Diff

  /** The lines as -b or -w compares them; the identity without either option. */
  function Normalized(norm: string -> string, lines: Lines): Lines {
    seq(|lines|, i requires 0 <= i < |lines| => norm(lines[i]))
  }

  /** Puts the original text of the compared lines back. */
  method FixUp(norm: string -> string, lines1: Lines, lines2: Lines, script0: seq<Item>) returns (script: seq<Item>)
    requires NothingIgnored(script0)
    requires OldText(script0) == Normalized(norm, lines1) && NewText(script0) == Normalized(norm, lines2)
    ensures |script| == |script0| && forall i | 0 <= i < |script| :: script[i].op == script0[i].op
    ensures OldText(script) == lines1
    ensures Normalized(norm, NewText(script)) == Normalized(norm, lines2)
    ensures (forall l :: norm(l) == l) ==> NewText(script) == lines2
  {
    script := [];
    var x, y := 0, 0;
    for i := 0 to |script0|
      invariant |script| == i && forall j | 0 <= j < i :: script[j].op == script0[j].op
      invariant 0 <= x <= |lines1| && 0 <= y <= |lines2|
      invariant OldText(script0[i..]) == Normalized(norm, lines1[x..])
      invariant NewText(script0[i..]) == Normalized(norm, lines2[y..])
      invariant OldText(script) == lines1[..x]
      invariant Normalized(norm, NewText(script)) == Normalized(norm, lines2[..y])
    {
      var it := script0[i];
      Peel(norm, script0, i, lines1[x..], lines2[y..]);
      var fixed := Item(it.op, if it.op.Ins? then lines2[y] else lines1[x]);
      Extend(norm, script, fixed, lines1, x, lines2, y);
      script := script + [fixed];
      if it.op.Eq? {
        x, y := x + 1, y + 1;
      } else if it.op.Del? {
        x := x + 1;
      } else if it.op.Ins? {
        y := y + 1;
      }
    }
    assert lines1[..x] == lines1 && lines2[..y] == lines2 by {
      assert script0[|script0|..] == [];
    }
    assert forall l: Lines :: (forall s :: norm(s) == s) ==> Normalized(norm, l) == l;
  }

  /** What the next item of the script says about the rest of both files. */
  lemma Peel(norm: string -> string, script: seq<Item>, i: nat, rest1: Lines, rest2: Lines)
    requires i < |script| && NothingIgnored(script)
    requires OldText(script[i..]) == Normalized(norm, rest1) && NewText(script[i..]) == Normalized(norm, rest2)
    ensures script[i].InOld() ==> rest1 != [] && norm(rest1[0]) == script[i].text
    ensures script[i].InNew() ==> rest2 != [] && norm(rest2[0]) == script[i].text
    ensures OldText(script[i + 1..]) == Normalized(norm, rest1[if script[i].InOld() then 1 else 0..])
    ensures NewText(script[i + 1..]) == Normalized(norm, rest2[if script[i].InNew() then 1 else 0..])
  {
    assert script[i..][1..] == script[i + 1..];
    var olds, news := OldText(script[i..]), NewText(script[i..]);
    assert script[i].InOld() ==> olds[0] == script[i].text && olds[0] == Normalized(norm, rest1)[0];
    assert script[i].InNew() ==> news[0] == script[i].text && news[0] == Normalized(norm, rest2)[0];
    assert OldText(script[i + 1..]) == olds[if script[i].InOld() then 1 else 0..];
    assert NewText(script[i + 1..]) == news[if script[i].InNew() then 1 else 0..];
  }

  /** Appending the fixed item extends the covered part of both files. */
  lemma Extend(norm: string -> string, script: seq<Item>, it: Item, lines1: Lines, x: nat, lines2: Lines, y: nat)
    requires x <= |lines1| && y <= |lines2|
    requires it.op.Eq? || it.op.Del? || it.op.Ins?
    requires it.InOld() ==> x < |lines1| && it.text == lines1[x]
    requires it.InNew() ==> y < |lines2| && norm(it.text) == norm(lines2[y])
    requires OldText(script) == lines1[..x] && Normalized(norm, NewText(script)) == Normalized(norm, lines2[..y])
    ensures OldText(script + [it]) == lines1[..if it.InOld() then x + 1 else x]
    ensures Normalized(norm, NewText(script + [it])) == Normalized(norm, lines2[..if it.InNew() then y + 1 else y])
  {
    AppendOld(script, [it]);
    AppendNew(script, [it]);
    Single(it);
    assert it.InOld() ==> lines1[..x + 1] == lines1[..x] + [lines1[x]];
    if it.InNew() {
      var n := NewText(script);
      assert Normalized(norm, n + [it.text]) == Normalized(norm, n) + [norm(it.text)];
      assert Normalized(norm, lines2[..y + 1]) == Normalized(norm, lines2[..y]) + [norm(lines2[y])];
    }
  }

  /** A script without changes keeps the text. */
  lemma {:induction false} NoChanges(s: seq<Item>)
    requires NothingIgnored(s) && Cost(s) == 0
    ensures OldText(s) == NewText(s)
  {
    if s != [] {
      NoChanges(s[1..]);
    }
  }

  function AllEqual(lines: Lines): seq<Item> {
    if lines == [] then [] else [Item(Eq, lines[0])] + AllEqual(lines[1..])
  }

  lemma {:induction false} AllEqualIsFree(lines: Lines)
    ensures NothingIgnored(AllEqual(lines)) && Cost(AllEqual(lines)) == 0
    ensures OldText(AllEqual(lines)) == lines && NewText(AllEqual(lines)) == lines
  {
    if lines != [] {
      AllEqualIsFree(lines[1..]);
    }
  }

  lemma {:induction false} CostByOps(s: seq<Item>, t: seq<Item>)
    requires |s| == |t| && forall i | 0 <= i < |s| :: s[i].op == t[i].op
    ensures Cost(s) == Cost(t)
  {
    if s != [] {
      assert s[0].op == t[0].op;
      forall i | 0 <= i < |s| - 1 ensures s[1..][i].op == t[1..][i].op {
        assert s[i + 1].op == t[i + 1].op;
      }
      CostByOps(s[1..], t[1..]);
    }
  }

  lemma {:induction false} CostIsPositive(s: seq<Item>)
    ensures Cost(s) > 0 <==> exists i :: 0 <= i < |s| && s[i].IsChange()
  {
    if s != [] {
      CostIsPositive(s[1..]);
      if i :| 0 <= i < |s| && s[i].IsChange() {
        assert i > 0 ==> s[1..][i - 1].IsChange();
      }
      if j :| 0 <= j < |s[1..]| && s[1..][j].IsChange() {
        assert s[j + 1].IsChange();
      }
    }
  }

  /** Without -B: the script rebuilds both files from their original lines, up to what -b or -w ignores,
      and `differ` is reported exactly when the compared lines differ. */
  method GenerateScript(norm: string -> string, lines1: Lines, lines2: Lines)
    returns (differ: bool, script: seq<Item>)
    ensures NothingIgnored(script) && OldText(script) == lines1
    ensures Normalized(norm, NewText(script)) == Normalized(norm, lines2)
    ensures (forall l :: norm(l) == l) ==> NewText(script) == lines2
    ensures differ <==> Normalized(norm, lines1) != Normalized(norm, lines2)
  {
    var comp1, comp2 := Normalized(norm, lines1), Normalized(norm, lines2);
    var compared := Diff.Diff(comp1, comp2);
    script := FixUp(norm, lines1, lines2, compared);
    assert NothingIgnored(script) by {
      assert forall i | 0 <= i < |script| :: script[i].op == compared[i].op;
    }
    differ := false;
    for i := 0 to |script|
      invariant !differ
      invariant forall j | 0 <= j < i :: !script[j].IsChange()
    {
      if script[i].IsChange() {
        differ := true;
        break;
      }
    }
    CostIsPositive(script);
    CostByOps(script, compared);
    if Cost(compared) == 0 {
      NoChanges(compared);
    } else if comp1 == comp2 {
      AllEqualIsFree(comp1);
      assert false;
    }
  }
}
