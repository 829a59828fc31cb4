/** The line-level edit scripts that diff produces and from which hunks are cut. */
module EditScript {

  type Lines = seq<string>

  datatype Op = Eq | Del | Ins | IgnoredDel | IgnoredIns

  datatype Item = Item(op: Op, text: string) {
    /** The item stands for a line of the old file. */
    predicate InOld() { op.Eq? || op.Del? || op.IgnoredDel? }

    /** The item stands for a line of the new file. */
    predicate InNew() { op.Eq? || op.Ins? || op.IgnoredIns? }

    /** The item is a change that a hunk must carry. */
    predicate IsChange() { op.Del? || op.Ins? }
  }

  /** The old file that a script starts from. */
  function OldText(s: seq<Item>): seq<string> {
    if s == [] then [] else (if s[0].InOld() then [s[0].text] else []) + OldText(s[1..])
  }

  /** The new file that a script leads to. */
  function NewText(s: seq<Item>): seq<string> {
    if s == [] then [] else (if s[0].InNew() then [s[0].text] else []) + NewText(s[1..])
  }

  /** The number of deletions and insertions in a script. */
  function Cost(s: seq<Item>): nat {
    if s == [] then 0 else (if s[0].IsChange() then 1 else 0) + Cost(s[1..])
  }

  /** No operation was set aside by the -B option. */
  predicate NothingIgnored(s: seq<Item>) {
    forall i :: 0 <= i < |s| ==> !s[i].op.IgnoredDel? && !s[i].op.IgnoredIns?
  }

  lemma {:induction false} AppendOld(s: seq<Item>, t: seq<Item>)
    ensures OldText(s + t) == OldText(s) + OldText(t)
  {
    if s == [] {
      assert s + t == t;
    } else {
      assert (s + t)[1..] == s[1..] + t;
      AppendOld(s[1..], t);
    }
  }

  lemma {:induction false} AppendNew(s: seq<Item>, t: seq<Item>)
    ensures NewText(s + t) == NewText(s) + NewText(t)
  {
    if s == [] {
      assert s + t == t;
    } else {
      assert (s + t)[1..] == s[1..] + t;
      AppendNew(s[1..], t);
    }
  }

  lemma {:induction false} AppendCost(s: seq<Item>, t: seq<Item>)
    ensures Cost(s + t) == Cost(s) + Cost(t)
  {
    if s == [] {
      assert s + t == t;
    } else {
      assert (s + t)[1..] == s[1..] + t;
      AppendCost(s[1..], t);
    }
  }

  /** The texts of a script of one item. */
  lemma Single(i: Item)
    ensures OldText([i]) == if i.InOld() then [i.text] else []
    ensures NewText([i]) == if i.InNew() then [i.text] else []
    ensures Cost([i]) == if i.IsChange() then 1 else 0
  {
    assert [i][1..] == [];
  }
}
