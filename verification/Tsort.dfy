/** tsort: building the graph from word pairs and Kahn's loop over it. */
module Tsort {

  /** A word of the input. */
  datatype Node = Node(text: string)

  type Edge = (Node, Node)

  predicate Distinct<T(==)>(s: seq<T>) { forall i, j | 0 <= i < j < |s| :: s[i] != s[j] }

  function Elems<T>(s: seq<T>): set<T> { set x | x in s }

  lemma {:induction false} DistinctSize<T>(s: seq<T>)
    requires Distinct(s)
    ensures |Elems(s)| == |s|
  {
    if s != [] {
      var last := |s| - 1;
      DistinctSize(s[..last]);
      assert Elems(s) == Elems(s[..last]) + {s[last]};
    }
  }

  lemma SubsetSize<T>(a: set<T>, b: set<T>)
    requires a <= b
    ensures |a| <= |b| && (|a| == |b| ==> a == b)
  {
    assert b == a + (b - a);
  }

  lemma EmptyDifference<T>(a: set<T>, b: set<T>)
    ensures |a - b| == 0 <==> a <= b
  {
    if a - b == {} {
      forall x | x in a ensures x in b {
        assert x !in a - b;
      }
    }
    if a <= b {
      assert a - b == {};
    }
  }

  // ---- Graphs ----

  ghost function Preds(edges: set<Edge>, v: Node): set<Node> {
    set e | e in edges && e.1 == v :: e.0
  }

  lemma InPreds(edges: set<Edge>, u: Node, v: Node)
    ensures u in Preds(edges, v) <==> (u, v) in edges
  {
    if (u, v) in edges {
      assert (u, v).0 in Preds(edges, v);
    }
  }

  function Succs(adj: map<Node, seq<Node>>, u: Node): seq<Node> { if u in adj then adj[u] else [] }

  /** An in-degree that was never touched is zero. */
  function Degree(inDegree: map<Node, int>, v: Node): int { if v in inDegree then inDegree[v] else 0 }

  /** The tables describe the graph: nodes once each, successor lists without repetition, no self-loop. */
  ghost predicate Describes(nodes: seq<Node>, adj: map<Node, seq<Node>>, edges: set<Edge>) {
    && Distinct(nodes)
    && (forall e | e in edges :: e.0 in nodes && e.1 in nodes && e.0 != e.1)
    && (forall u :: Distinct(Succs(adj, u)))
    && (forall u, v :: v in Succs(adj, u) <==> (u, v) in edges)
  }

  /** In-degrees count the predecessors outside `popped`. */
  ghost predicate Counts(inDegree: map<Node, int>, edges: set<Edge>, popped: set<Node>) {
    forall v :: Degree(inDegree, v) == |Preds(edges, v) - popped|
  }

  // ---- Building the graph ----

  function Key(u: Node, v: Node): string { u.text + "->" + v.text }

  function KeyOf(e: Edge): string { Key(e.0, e.1) }

  /** The pairs of distinct words in the input. */
  ghost function Pairs(words: seq<Node>, n: nat): set<Edge>
    requires 2 * n <= |words|
  {
    if n == 0 then {}
    else
      var u, v := words[2 * n - 2], words[2 * n - 1];
      Pairs(words, n - 1) + if u == v then {} else {(u, v)}
  }

  /** The recorded edges: for every key that occurs among the pairs, the pair that brought it. */
  ghost predicate Records(edgeMap: map<string, Edge>, pairs: set<Edge>) {
    && (forall k | k in edgeMap :: KeyOf(edgeMap[k]) == k && edgeMap[k] in pairs)
    && (forall p | p in pairs :: KeyOf(p) in edgeMap)
  }

  ghost predicate KnownKey(edges: set<Edge>, k: string) { exists e :: e in edges && KeyOf(e) == k }

  /** The pairs whose key did not occur before them. */
  ghost function Recorded(words: seq<Node>, n: nat): set<Edge>
    requires 2 * n <= |words|
  {
    if n == 0 then {}
    else
      var u, v := words[2 * n - 2], words[2 * n - 1];
      var before := Recorded(words, n - 1);
      if u == v || KnownKey(before, Key(u, v)) then before else before + {(u, v)}
  }

  method AddNode(nodes0: seq<Node>, seen0: set<Node>, n: Node) returns (nodes: seq<Node>, seen: set<Node>)
    requires Distinct(nodes0) && seen0 == Elems(nodes0)
    ensures Distinct(nodes) && seen == Elems(nodes) && seen == seen0 + {n}
  {
    nodes, seen := nodes0, seen0;
    if n !in seen {
      seen := seen + {n};
      nodes := nodes + [n];
    }
  }

  lemma NewEdgeListed(nodes: seq<Node>, adj: map<Node, seq<Node>>, edges: set<Edge>, u: Node, v: Node)
    requires Describes(nodes, adj, edges)
    requires u in nodes && v in nodes && u != v && (u, v) !in edges
    ensures Describes(nodes, adj[u := Succs(adj, u) + [v]], edges + {(u, v)})
  {
    var adj' := adj[u := Succs(adj, u) + [v]];
    var edges' := edges + {(u, v)};
    assert v !in Succs(adj, u);
    forall w ensures Distinct(Succs(adj', w)) {
      assert Distinct(Succs(adj, w));
    }
    forall w, x ensures x in Succs(adj', w) <==> (w, x) in edges' {
      assert x in Succs(adj, w) <==> (w, x) in edges;
    }
  }

  lemma NewEdgeCounted(inDegree: map<Node, int>, edges: set<Edge>, u: Node, v: Node)
    requires Counts(inDegree, edges, {}) && (u, v) !in edges
    ensures Counts(inDegree[v := Degree(inDegree, v) + 1], edges + {(u, v)}, {})
  {
    var inDegree' := inDegree[v := Degree(inDegree, v) + 1];
    var edges' := edges + {(u, v)};
    InPreds(edges, u, v);
    forall w ensures Degree(inDegree', w) == |Preds(edges', w) - {}| {
      assert Degree(inDegree, w) == |Preds(edges, w) - {}|;
      PredsGrow(edges, u, v, w);
      hide Preds;
      assert Preds(edges', w) - {} == Preds(edges', w) && Preds(edges, w) - {} == Preds(edges, w);
    }
  }

  lemma PredsGrow(edges: set<Edge>, u: Node, v: Node, w: Node)
    ensures Preds(edges + {(u, v)}, w) == Preds(edges, w) + if w == v then {u} else {}
  {
    hide Preds;
    forall x ensures x in Preds(edges + {(u, v)}, w) <==> x in Preds(edges, w) + if w == v then {u} else {} {
      InPreds(edges, x, w);
      InPreds(edges + {(u, v)}, x, w);
    }
  }

  /** More nodes do not disturb the description. */
  lemma MoreNodes(nodes: seq<Node>, nodes': seq<Node>, adj: map<Node, seq<Node>>, edges: set<Edge>)
    requires Describes(nodes, adj, edges) && Distinct(nodes') && Elems(nodes) <= Elems(nodes')
    ensures Describes(nodes', adj, edges)
  {
    forall e | e in edges ensures e.0 in nodes' && e.1 in nodes' {
      assert e.0 in Elems(nodes) && e.1 in Elems(nodes);
    }
  }

  lemma KeyIsKnown(edgeMap: map<string, Edge>, pairs: set<Edge>, k: string)
    requires Records(edgeMap, pairs)
    ensures k in edgeMap <==> KnownKey(edgeMap.Values, k)
  {
    hide Key;
    if k in edgeMap {
      assert edgeMap[k] in edgeMap.Values && KeyOf(edgeMap[k]) == k;
    }
    if KnownKey(edgeMap.Values, k) {
      var e :| e in edgeMap.Values && KeyOf(e) == k;
      var j :| j in edgeMap && edgeMap[j] == e;
    }
  }

  /** Records one pair of distinct words, unless its key is known already. */
  method AddEdge(nodes: seq<Node>, adj0: map<Node, seq<Node>>, inDegree0: map<Node, int>, edgeMap0: map<string, Edge>,
                 ghost pairs: set<Edge>, u: Node, v: Node)
    returns (adj: map<Node, seq<Node>>, inDegree: map<Node, int>, edgeMap: map<string, Edge>)
    requires u in nodes && v in nodes && u != v && Records(edgeMap0, pairs)
    requires Describes(nodes, adj0, edgeMap0.Values) && Counts(inDegree0, edgeMap0.Values, {})
    ensures Describes(nodes, adj, edgeMap.Values) && Counts(inDegree, edgeMap.Values, {})
    ensures Records(edgeMap, pairs + {(u, v)})
    ensures edgeMap.Values == edgeMap0.Values + if KnownKey(edgeMap0.Values, Key(u, v)) then {} else {(u, v)}
  {
    hide Describes, Counts;
    adj, inDegree, edgeMap := adj0, inDegree0, edgeMap0;
    KeyIsKnown(edgeMap, pairs, Key(u, v));
    var edgeKey := u.text + "->" + v.text;
    if edgeKey !in edgeMap {
      ghost var edges := edgeMap.Values;
      NewValue(edgeMap, edgeKey, (u, v));
      NewEdgeListed(nodes, adj, edges, u, v);
      NewEdgeCounted(inDegree, edges, u, v);
      edgeMap := edgeMap[edgeKey := (u, v)];
      adj := adj[u := Succs(adj, u) + [v]];
      inDegree := inDegree[v := Degree(inDegree, v) + 1];
    }
  }

  /** The tables describe the graph whose edges are the values of `edgeMap`. */
  method BuildGraph(words: seq<Node>)
    returns (nodes: seq<Node>, adj: map<Node, seq<Node>>, inDegree: map<Node, int>, edgeMap: map<string, Edge>)
    requires |words| % 2 == 0
    ensures Elems(nodes) == Elems(words)
    ensures Describes(nodes, adj, edgeMap.Values) && Counts(inDegree, edgeMap.Values, {})
    ensures Records(edgeMap, Pairs(words, |words| / 2)) && edgeMap.Values == Recorded(words, |words| / 2)
  {
    hide Describes, Counts, Records, Distinct, KnownKey;
    nodes, adj, inDegree, edgeMap := [], map[], map[], map[];
    var nodeMap := {};
    Nothing();
    assert edgeMap.Values == {};
    var i := 0;
    while i < |words|
      invariant 0 <= i <= |words| && i % 2 == 0
      invariant Distinct(nodes) && nodeMap == Elems(nodes) == Elems(words[..i])
      invariant Describes(nodes, adj, edgeMap.Values) && Counts(inDegree, edgeMap.Values, {})
      invariant Records(edgeMap, Pairs(words, i / 2)) && edgeMap.Values == Recorded(words, i / 2)
    {
      var u, v := words[i], words[i + 1];
      ghost var before := nodes;
      nodes, nodeMap := AddNode(nodes, nodeMap, u);
      nodes, nodeMap := AddNode(nodes, nodeMap, v);
      MoreNodes(before, nodes, adj, edgeMap.Values);
      MoreWords(words, i);
      assert u in Elems(nodes) && v in Elems(nodes);
      if u != v {
        adj, inDegree, edgeMap := AddEdge(nodes, adj, inDegree, edgeMap, Pairs(words, i / 2), u, v);
      }
      i := i + 2;
    }
    assert words[..i] == words;
  }

  lemma Nothing()
    ensures Describes([], map[], {}) && Counts(map[], {}, {}) && Records(map[], {}) && Distinct<Node>([])
  {
    forall v ensures Preds({}, v) - {} == {} {
    }
  }

  lemma MoreWords(words: seq<Node>, i: nat)
    requires i + 1 < |words| && i % 2 == 0
    ensures var u, v := words[i], words[i + 1];
      && Elems(words[..i + 2]) == Elems(words[..i]) + {u, v}
      && Pairs(words, (i + 2) / 2) == (if u == v then Pairs(words, i / 2) else Pairs(words, i / 2) + {(u, v)})
      && Recorded(words, (i + 2) / 2) ==
         Recorded(words, i / 2) + if u == v || KnownKey(Recorded(words, i / 2), Key(u, v)) then {} else {(u, v)}
  {
    hide Key, KnownKey;
    assert words[..i + 2] == words[..i] + [words[i], words[i + 1]];
  }

  lemma NewValue(m: map<string, Edge>, k: string, e: Edge)
    requires k !in m && (forall j | j in m :: KeyOf(m[j]) == j) && KeyOf(e) == k
    ensures e !in m.Values && m[k := e].Values == m.Values + {e}
  {
    var n := m[k := e];
    forall x | x in m.Values + {e} ensures x in n.Values {
      if x == e {
        assert n[k] == e;
      } else {
        var j :| j in m && m[j] == x;
        assert n[j] == x;
      }
    }
  }

  /** Every pair of the input becomes an edge exactly when no two different pairs share a key. */
  lemma AllPairsRecorded(edgeMap: map<string, Edge>, pairs: set<Edge>)
    requires Records(edgeMap, pairs)
    ensures edgeMap.Values <= pairs
    ensures edgeMap.Values == pairs <==> forall p, q | p in pairs && q in pairs && KeyOf(p) == KeyOf(q) :: p == q
  {
    hide Key;
    if forall p, q | p in pairs && q in pairs && KeyOf(p) == KeyOf(q) :: p == q {
      forall p | p in pairs ensures p in edgeMap.Values {
        assert edgeMap[KeyOf(p)] == p;
      }
    }
    if edgeMap.Values == pairs {
      forall p, q | p in pairs && q in pairs && KeyOf(p) == KeyOf(q) ensures p == q {
        var j :| j in edgeMap && edgeMap[j] == p;
        var k :| k in edgeMap && edgeMap[k] == q;
      }
    }
  }

  predicate HasArrow(w: string) { exists i :: 0 <= i < |w| - 1 && w[i] == '-' && w[i + 1] == '>' }

  lemma LongerHasArrow(u: string, v: string, u': string, v': string)
    requires u + "->" + v == u' + "->" + v' && |u| < |u'|
    ensures HasArrow(u')
  {
    var k := u + "->" + v;
    assert k[|u|] == '-' && k[|u| + 1] == '>' && k[|u'|] == '-';
    assert k[..|u'|] == u';
    assert u'[|u|] == '-' && u'[|u| + 1] == '>';
  }

  /** Keys cannot collide when the first word of neither pair contains an arrow. */
  lemma KeysDiffer(p: Edge, q: Edge)
    requires !HasArrow(p.0.text) && !HasArrow(q.0.text) && KeyOf(p) == KeyOf(q)
    ensures p == q
  {
    var u, v, u', v' := p.0.text, p.1.text, q.0.text, q.1.text;
    var k := KeyOf(p);
    if |u| < |u'| {
      LongerHasArrow(u, v, u', v');
    } else if |u'| < |u| {
      LongerHasArrow(u', v', u, v);
    } else {
      assert k[..|u|] == u && k[..|u|] == u';
      assert k[|u| + 2..] == v && k[|u| + 2..] == v';
    }
  }

  lemma {:induction false} PairsAreWords(words: seq<Node>, n: nat, p: Edge) returns (i: nat)
    requires 2 * n <= |words| && p in Pairs(words, n)
    ensures i < n && p == (words[2 * i], words[2 * i + 1])
  {
    if p in Pairs(words, n - 1) {
      i := PairsAreWords(words, n - 1, p);
    } else {
      i := n - 1;
    }
  }

  /** Without an arrow in the first word of a pair, every pair is recorded. */
  lemma NoArrowsNoLoss(words: seq<Node>, edgeMap: map<string, Edge>)
    requires Records(edgeMap, Pairs(words, |words| / 2))
    requires forall i | 0 <= i < |words| / 2 :: !HasArrow(words[2 * i].text)
    ensures edgeMap.Values == Pairs(words, |words| / 2)
  {
    hide Records, HasArrow, Pairs, Key;
    var pairs := Pairs(words, |words| / 2);
    AllPairsRecorded(edgeMap, pairs);
    forall p, q | p in pairs && q in pairs && KeyOf(p) == KeyOf(q)
      ensures p == q
    {
      var i := PairsAreWords(words, |words| / 2, p);
      var j := PairsAreWords(words, |words| / 2, q);
      KeysDiffer(p, q);
    }
  }

  // ---- Kahn's loop ----

  /** The nodes listed so far, output or queued, are those whose in-degree has dropped to zero. */
  ghost predicate Listed(nodes: seq<Node>, listed: seq<Node>, inDegree: map<Node, int>) {
    && Distinct(listed)
    && (forall v | v in listed :: v in nodes)
    && (forall v | v in nodes :: v in listed <==> Degree(inDegree, v) == 0)
  }

  /** Every predecessor of an output node was output before it. */
  ghost predicate Topological(edges: set<Edge>, result: seq<Node>) {
    forall i | 0 <= i < |result| :: Preds(edges, result[i]) <= Elems(result[..i])
  }

  /** The state of the loop: in-degrees count the edges from nodes not yet popped. */
  ghost predicate Loop(nodes: seq<Node>, edges: set<Edge>, result: seq<Node>, queue: seq<Node>, inDegree: map<Node, int>) {
    && Listed(nodes, result + queue, inDegree)
    && Counts(inDegree, edges, Elems(result))
    && Topological(edges, result)
  }

  /** While the successors of the popped node u are visited, those in `done` no longer count u. */
  ghost predicate Visiting(edges: set<Edge>, popped: set<Node>, done: seq<Node>, inDegree: map<Node, int>) {
    forall v :: Degree(inDegree, v) == |Preds(edges, v) - popped| - if v in done then 1 else 0
  }

  lemma PredRemoved(edges: set<Edge>, popped: set<Node>, u: Node, v: Node)
    requires u !in popped
    ensures |Preds(edges, v) - (popped + {u})| == |Preds(edges, v) - popped| - if (u, v) in edges then 1 else 0
  {
    InPreds(edges, u, v);
    var p := Preds(edges, v) - popped;
    hide Preds;
    assert Preds(edges, v) - (popped + {u}) == p - {u};
  }

  /** When all successors of u were visited, in-degrees count the nodes not popped, with u popped. */
  lemma VisitedAll(nodes: seq<Node>, adj: map<Node, seq<Node>>, edges: set<Edge>, popped: set<Node>, u: Node, inDegree: map<Node, int>)
    requires Describes(nodes, adj, edges) && u !in popped && Visiting(edges, popped, Succs(adj, u), inDegree)
    ensures Counts(inDegree, edges, popped + {u})
  {
    forall v ensures Degree(inDegree, v) == |Preds(edges, v) - (popped + {u})| {
      PredRemoved(edges, popped, u, v);
      assert v in Succs(adj, u) <==> (u, v) in edges;
    }
  }

  /** Successor j of u still counts u, so it is not listed yet. */
  lemma NotListedYet(nodes: seq<Node>, adj: map<Node, seq<Node>>, edges: set<Edge>, popped: set<Node>, u: Node, inDegree: map<Node, int>, j: nat)
    requires Describes(nodes, adj, edges) && u !in popped && j < |Succs(adj, u)|
    requires Visiting(edges, popped, Succs(adj, u)[..j], inDegree)
    ensures Succs(adj, u)[j] in nodes && Succs(adj, u)[j] !in Succs(adj, u)[..j]
    ensures Degree(inDegree, Succs(adj, u)[j]) >= 1
  {
    var v := Succs(adj, u)[j];
    assert Distinct(Succs(adj, u));
    assert v in Succs(adj, u) <==> (u, v) in edges;
    InPreds(edges, u, v);
    assert u in Preds(edges, v) - popped;
  }

  /** Decrementing the in-degree of successor j, and listing it if that was its last predecessor. */
  lemma VisitOne(nodes: seq<Node>, adj: map<Node, seq<Node>>, edges: set<Edge>, popped: set<Node>, u: Node,
                 listed: seq<Node>, inDegree: map<Node, int>, j: nat)
    requires Describes(nodes, adj, edges) && u !in popped && j < |Succs(adj, u)|
    requires Visiting(edges, popped, Succs(adj, u)[..j], inDegree) && Listed(nodes, listed, inDegree)
    ensures var v := Succs(adj, u)[j];
      var d := Degree(inDegree, v) - 1;
      && Visiting(edges, popped, Succs(adj, u)[..j + 1], inDegree[v := d])
      && Listed(nodes, if d == 0 then listed + [v] else listed, inDegree[v := d])
  {
    hide Describes, Preds, Listed, Visiting, Distinct;
    NotListedYet(nodes, adj, edges, popped, u, inDegree, j);
    var succs := Succs(adj, u);
    assert succs[..j + 1] == succs[..j] + [succs[j]];
    VisitingMore(edges, popped, succs[..j], inDegree, succs[j]);
    ListedMore(nodes, listed, inDegree, succs[j]);
  }

  lemma VisitingMore(edges: set<Edge>, popped: set<Node>, done: seq<Node>, inDegree: map<Node, int>, v: Node)
    requires Visiting(edges, popped, done, inDegree) && v !in done
    ensures Visiting(edges, popped, done + [v], inDegree[v := Degree(inDegree, v) - 1])
  {
    hide Preds;
    var inDegree' := inDegree[v := Degree(inDegree, v) - 1];
    forall w ensures Degree(inDegree', w) == |Preds(edges, w) - popped| - if w in done + [v] then 1 else 0 {
      assert Degree(inDegree, w) == |Preds(edges, w) - popped| - if w in done then 1 else 0;
    }
  }

  lemma ListedMore(nodes: seq<Node>, listed: seq<Node>, inDegree: map<Node, int>, v: Node)
    requires Listed(nodes, listed, inDegree) && v in nodes && Degree(inDegree, v) >= 1
    ensures var d := Degree(inDegree, v) - 1;
      Listed(nodes, if d == 0 then listed + [v] else listed, inDegree[v := d])
  {
    assert v !in listed;
    var d := Degree(inDegree, v) - 1;
    forall w | w in nodes
      ensures w in (if d == 0 then listed + [v] else listed) <==> Degree(inDegree[v := d], w) == 0
    {
      assert w in listed <==> Degree(inDegree, w) == 0;
    }
  }

  /** The inner loop over the successors of u. */
  method Visit(nodes: seq<Node>, adj: map<Node, seq<Node>>, ghost edges: set<Edge>, u: Node,
               ghost front: seq<Node>, queue0: seq<Node>, inDegree0: map<Node, int>)
    returns (queue: seq<Node>, inDegree: map<Node, int>)
    requires Describes(nodes, adj, edges)
    requires Loop(nodes, edges, front, [u] + queue0, inDegree0)
    ensures Loop(nodes, edges, front + [u], queue, inDegree)
  {
    hide Describes, Listed, Visiting, Counts, Topological;
    queue, inDegree := queue0, inDegree0;
    var succs := Succs(adj, u);
    ghost var popped := Elems(front);
    assert front + ([u] + queue0) == (front + [u]) + queue0;
    StartVisit(nodes, edges, front, u, queue0, inDegree0);
    for j := 0 to |succs|
      invariant Visiting(edges, popped, succs[..j], inDegree)
      invariant Listed(nodes, (front + [u]) + queue, inDegree)
    {
      var v := succs[j];
      VisitOne(nodes, adj, edges, popped, u, (front + [u]) + queue, inDegree, j);
      inDegree := inDegree[v := Degree(inDegree, v) - 1];
      assert (front + [u]) + (queue + [v]) == (front + [u]) + queue + [v];
      if inDegree[v] == 0 {
        queue := queue + [v];
      }
    }
    assert succs[..|succs|] == succs;
    VisitedAll(nodes, adj, edges, popped, u, inDegree);
    assert Elems(front + [u]) == popped + {u};
  }

  lemma StartVisit(nodes: seq<Node>, edges: set<Edge>, front: seq<Node>, u: Node, queue: seq<Node>, inDegree: map<Node, int>)
    requires Loop(nodes, edges, front, [u] + queue, inDegree)
    ensures u !in Elems(front) && Visiting(edges, Elems(front), [], inDegree)
    ensures Topological(edges, front + [u])
  {
    hide Preds, Distinct, Topological;
    var listed := front + ([u] + queue);
    assert listed[|front|] == u;
    assert u in listed && u in nodes;
    DistinctParts(front, u, queue);
    assert Degree(inDegree, u) == |Preds(edges, u) - Elems(front)|;
    EmptyDifference(Preds(edges, u), Elems(front));
    TopologicalPush(edges, front, u);
  }

  lemma DistinctParts(front: seq<Node>, u: Node, queue: seq<Node>)
    requires Distinct(front + ([u] + queue))
    ensures u !in front
  {
    var listed := front + ([u] + queue);
    assert listed[|front|] == u;
    assert forall i | 0 <= i < |front| :: listed[i] == front[i];
  }

  lemma TopologicalPush(edges: set<Edge>, front: seq<Node>, u: Node)
    requires Topological(edges, front) && Preds(edges, u) <= Elems(front)
    ensures Topological(edges, front + [u])
  {
    hide Preds;
    var next := front + [u];
    forall i | 0 <= i < |next| ensures Preds(edges, next[i]) <= Elems(next[..i]) {
      if i < |front| {
        assert next[..i] == front[..i] && next[i] == front[i];
      } else {
        assert next[..i] == front;
      }
    }
  }

  /** What a finished loop has established. */
  ghost predicate Finished(nodes: seq<Node>, edges: set<Edge>, result: seq<Node>) {
    && Distinct(result) && (forall v | v in result :: v in nodes)
    && Topological(edges, result)
    && (forall v | v in nodes && v !in result :: Preds(edges, v) - Elems(result) != {})
  }

  /** The initial queue: the nodes without predecessors, in input order. */
  method Sources(nodes: seq<Node>, adj: map<Node, seq<Node>>, inDegree: map<Node, int>, ghost edges: set<Edge>) returns (queue: seq<Node>)
    requires Describes(nodes, adj, edges)
    ensures Listed(nodes, queue, inDegree)
  {
    assert Distinct(nodes);
    hide Describes;
    queue := [];
    for k := 0 to |nodes|
      invariant Distinct(queue) && (forall v | v in queue :: v in nodes[..k])
      invariant forall v | v in nodes[..k] :: v in queue <==> Degree(inDegree, v) == 0
    {
      assert nodes[k] !in nodes[..k];
      assert nodes[..k + 1] == nodes[..k] + [nodes[k]];
      if Degree(inDegree, nodes[k]) == 0 {
        queue := queue + [nodes[k]];
      }
    }
    assert nodes[..|nodes|] == nodes;
  }

  lemma NothingOutput(edges: set<Edge>)
    ensures Elems<Node>([]) == {} && Topological(edges, [])
  {
  }

  /** Kahn's loop outputs each node at most once, after all its predecessors, and leaves out only nodes
      that wait for another node left out. */
  method Kahn(nodes: seq<Node>, adj: map<Node, seq<Node>>, inDegree0: map<Node, int>, ghost edges: set<Edge>)
    returns (result: seq<Node>)
    requires Describes(nodes, adj, edges) && Counts(inDegree0, edges, {})
    ensures Finished(nodes, edges, result)
  {
    hide Describes, Listed, Counts, Topological, Distinct;
    var queue := Sources(nodes, adj, inDegree0, edges);
    result := [];
    var inDegree := inDegree0;
    assert result + queue == queue;
    NothingOutput(edges);
    while |queue| > 0
      invariant Loop(nodes, edges, result, queue, inDegree)
      decreases |nodes| - |result|
    {
      OutputIsBounded(nodes, adj, edges, result, queue, inDegree);
      var u := queue[0];
      assert queue == [u] + queue[1..];
      queue, inDegree := Visit(nodes, adj, edges, u, result, queue[1..], inDegree);
      result := result + [u];
    }
    assert result + queue == result;
    Stuck(nodes, adj, edges, result, inDegree);
  }

  lemma OutputIsBounded(nodes: seq<Node>, adj: map<Node, seq<Node>>, edges: set<Edge>, result: seq<Node>, queue: seq<Node>, inDegree: map<Node, int>)
    requires Describes(nodes, adj, edges) && Loop(nodes, edges, result, queue, inDegree)
    ensures |result| + |queue| <= |nodes|
  {
    DistinctSize(nodes);
    DistinctSize(result + queue);
    SubsetSize(Elems(result + queue), Elems(nodes));
  }

  lemma Stuck(nodes: seq<Node>, adj: map<Node, seq<Node>>, edges: set<Edge>, result: seq<Node>, inDegree: map<Node, int>)
    requires Describes(nodes, adj, edges) && Loop(nodes, edges, result, [], inDegree)
    ensures Finished(nodes, edges, result)
  {
    hide Preds, Describes, Topological;
    assert result + [] == result;
    forall v | v in nodes && v !in result
      ensures Preds(edges, v) - Elems(result) != {}
    {
      assert Degree(inDegree, v) == |Preds(edges, v) - Elems(result)| != 0;
    }
  }

  // ---- Cycles ----

  /** A closed walk along edges. */
  ghost predicate Cycle(edges: set<Edge>, p: seq<Node>) {
    |p| >= 2 && p[0] == p[|p| - 1] && Walk(edges, p)
  }

  ghost predicate Walk(edges: set<Edge>, p: seq<Node>) {
    forall i | 0 <= i < |p| - 1 :: (p[i], p[i + 1]) in edges
  }

  function IndexOf(s: seq<Node>, v: Node): (i: nat)
    requires v in s
    ensures i < |s| && s[i] == v
  {
    if s[0] == v then 0 else 1 + IndexOf(s[1..], v)
  }

  /** Along a walk through the output, positions in the output increase. */
  lemma {:induction false} WalkAscends(edges: set<Edge>, result: seq<Node>, p: seq<Node>, k: nat)
    requires Distinct(result) && Topological(edges, result) && Walk(edges, p)
    requires 0 < k < |p| && forall v | v in p :: v in result
    ensures IndexOf(result, p[0]) < IndexOf(result, p[k])
  {
    var i := IndexOf(result, p[k]);
    assert (p[k - 1], p[k]) in edges;
    InPreds(edges, p[k - 1], p[k]);
    assert p[k - 1] in Elems(result[..i]);
    assert IndexOf(result, p[k - 1]) < i;
    if k > 1 {
      WalkAscends(edges, result, p, k - 1);
    }
  }

  /** `pred` names, for every node of a set, a predecessor in the set. */
  ghost predicate Backward(edges: set<Edge>, pred: map<Node, Node>) {
    forall v {:trigger pred[v]} | v in pred :: pred[v] in pred && (pred[v], v) in edges
  }

  /** A set in which every node has a predecessor holds arbitrarily long walks. */
  lemma {:induction false} LongWalk(edges: set<Edge>, pred: map<Node, Node>, start: Node, n: nat) returns (p: seq<Node>)
    requires Backward(edges, pred) && start in pred
    ensures |p| == n + 1 && Walk(edges, p) && forall i | 0 <= i < |p| :: p[i] in pred
  {
    if n == 0 {
      p := [start];
    } else {
      var q := LongWalk(edges, pred, start, n - 1);
      var u := pred[q[0]];
      p := [u] + q;
      forall i | 0 <= i < |p| - 1 ensures (p[i], p[i + 1]) in edges {
        if i > 0 {
          assert (q[i - 1], q[i - 1 + 1]) in edges;
        }
      }
    }
  }

  /** Such a set contains a cycle. */
  lemma WalkCloses(edges: set<Edge>, pred: map<Node, Node>, start: Node) returns (c: seq<Node>)
    requires Backward(edges, pred) && start in pred
    ensures Cycle(edges, c)
  {
    hide Backward;
    var p := LongWalk(edges, pred, start, |pred.Keys|);
    assert !Distinct(p) by {
      if Distinct(p) {
        DistinctSize(p);
        SubsetSize(Elems(p), pred.Keys);
      }
    }
    var i, j :| 0 <= i < j < |p| && p[i] == p[j];
    c := p[i..j + 1];
    forall k | 0 <= k < |c| - 1 ensures (c[k], c[k + 1]) in edges {
      assert (p[i + k], p[i + k + 1]) in edges;
    }
  }

  ghost function Choose(s: set<Node>): (x: Node)
    requires s != {}
    ensures x in s
  {
    var x :| x in s;
    x
  }

  /** The nodes that a finished loop leaves out contain a cycle. */
  lemma LeftOverCycle(nodes: seq<Node>, adj: map<Node, seq<Node>>, edges: set<Edge>, result: seq<Node>, v: Node) returns (c: seq<Node>)
    requires Describes(nodes, adj, edges) && Finished(nodes, edges, result) && v in nodes && v !in result
    ensures Cycle(edges, c)
  {
    hide Preds;
    var pred := map w | w in nodes && w !in result :: Choose(Preds(edges, w) - Elems(result));
    forall w | w in pred ensures pred[w] in pred && (pred[w], w) in edges {
      var u := pred[w];
      InPreds(edges, u, w);
      assert (u, w) in edges;
      assert (u, w).0 in nodes;
    }
    c := WalkCloses(edges, pred, v);
  }

  /** All nodes are output exactly when the graph has no cycle. */
  lemma CompleteIffAcyclic(nodes: seq<Node>, adj: map<Node, seq<Node>>, edges: set<Edge>, result: seq<Node>)
    requires Describes(nodes, adj, edges) && Finished(nodes, edges, result)
    ensures |result| == |nodes| <==> !exists c :: Cycle(edges, c)
    ensures |result| == |nodes| <==> Elems(result) == Elems(nodes)
  {
    DistinctSize(nodes);
    DistinctSize(result);
    SubsetSize(Elems(result), Elems(nodes));
    if |result| == |nodes| {
      forall c ensures !Cycle(edges, c) {
        CycleNotSorted(nodes, edges, result, c);
      }
    } else {
      hide Describes, Finished, Cycle;
      EmptyDifference(Elems(nodes), Elems(result));
      var v :| v in Elems(nodes) - Elems(result);
      var c := LeftOverCycle(nodes, adj, edges, result, v);
    }
  }

  lemma CycleNotSorted(nodes: seq<Node>, edges: set<Edge>, result: seq<Node>, c: seq<Node>)
    requires (forall e | e in edges :: e.0 in nodes && e.1 in nodes) && Elems(nodes) == Elems(result)
    requires Distinct(result) && Topological(edges, result)
    ensures !Cycle(edges, c)
  {
    if Cycle(edges, c) {
      forall v | v in c ensures v in result {
        var i :| 0 <= i < |c| && c[i] == v;
        assert if i == 0 then (c[0], c[1]) in edges else (c[i - 1], c[i]) in edges;
        assert v in Elems(nodes);
      }
      WalkAscends(edges, result, c, |c| - 1);
    }
  }

  datatype Outcome = OddInput | CycleFound(nodes: seq<Node>) | Sorted(nodes: seq<Node>)

  /** tsort on a list of words: an order of all words when the recorded edges have no cycle, otherwise
      the part that can be ordered. */
  method Tsort(words: seq<Node>) returns (r: Outcome, ghost edges: set<Edge>)
    ensures r.OddInput? <==> |words| % 2 != 0
    ensures !r.OddInput? ==> Topological(edges, r.nodes) && Distinct(r.nodes) && Elems(r.nodes) <= Elems(words)
    ensures !r.OddInput? ==> (r.Sorted? <==> !exists c :: Cycle(edges, c))
    ensures r.Sorted? ==> Elems(r.nodes) == Elems(words)
    ensures r.CycleFound? ==> LeftOutWait(words, edges, r.nodes)
    ensures !r.OddInput? ==> edges == Recorded(words, |words| / 2)
    ensures !r.OddInput? ==> edges <= Pairs(words, |words| / 2)
    ensures !r.OddInput? && (forall i | 0 <= i < |words| / 2 :: !HasArrow(words[2 * i].text)) ==>
      edges == Pairs(words, |words| / 2)
  {
    edges := {};
    if |words| % 2 != 0 {
      return OddInput, edges;
    }
    hide Describes, Counts, Records, Cycle, HasArrow, Recorded, Pairs;
    var nodes, adj, inDegree, edgeMap := BuildGraph(words);
    edges := edgeMap.Values;
    AllPairsRecorded(edgeMap, Pairs(words, |words| / 2));
    if forall i | 0 <= i < |words| / 2 :: !HasArrow(words[2 * i].text) {
      NoArrowsNoLoss(words, edgeMap);
    }
    var result := Kahn(nodes, adj, inDegree, edges);
    CompleteIffAcyclic(nodes, adj, edges, result);
    assert Elems(result) <= Elems(nodes);
    if |result| < |nodes| {
      LeftOutHavePredecessor(words, nodes, adj, edges, result);
      return CycleFound(result), edges;
    }
    SubsetSizes(nodes, adj, edges, result);
    return Sorted(result), edges;
  }

  /** Every word left out has a recorded predecessor that is left out too. */
  ghost predicate LeftOutWait(words: seq<Node>, edges: set<Edge>, result: seq<Node>) {
    forall v | v in words && v !in result :: exists u :: u in words && u !in result && (u, v) in edges
  }

  lemma LeftOutHavePredecessor(
    words: seq<Node>, nodes: seq<Node>, adj: map<Node, seq<Node>>, edges: set<Edge>, result: seq<Node>)
    requires Describes(nodes, adj, edges) && Finished(nodes, edges, result) && Elems(nodes) == Elems(words)
    ensures LeftOutWait(words, edges, result)
  {
    forall v | v in words && v !in result
      ensures exists u :: u in words && u !in result && (u, v) in edges
    {
      assert v in Elems(words);
      assert v in nodes;
      var u :| u in Preds(edges, v) - Elems(result);
      assert (u, v) in edges;
      assert u in nodes;
      assert u in Elems(nodes);
    }
  }

  lemma SubsetSizes(nodes: seq<Node>, adj: map<Node, seq<Node>>, edges: set<Edge>, result: seq<Node>)
    requires Describes(nodes, adj, edges) && Distinct(result) && Elems(result) <= Elems(nodes)
    ensures |result| <= |nodes|
  {
    DistinctSize(nodes);
    DistinctSize(result);
    SubsetSize(Elems(result), Elems(nodes));
  }

  /** Words with an arrow can hide an edge. Of these three pairs the second has the key of the first and is not
      recorded; the pairs contradict each other, but what is recorded has no cycle, so tsort reports an order,
      in which b->c stands before a although the second pair demands the opposite. */
  lemma ArrowsHideCycle()
    ensures var p, c, a, q := Node("a->b"), Node("c"), Node("a"), Node("b->c");
      var words := [p, c, a, q, q, a];
      && Recorded(words, 3) == {(p, c), (q, a)}
      && Cycle(Pairs(words, 3), [a, q, a]) && !exists w :: Cycle(Recorded(words, 3), w)
  {
    var p, c, a, q := Node("a->b"), Node("c"), Node("a"), Node("b->c");
    var words := [p, c, a, q, q, a];
    var edges := {(p, c), (q, a)};
    ArrowsCollide();
    assert Recorded(words, 1) == {(p, c)};
    assert KnownKey(Recorded(words, 1), Key(a, q));
    assert Recorded(words, 2) == {(p, c)};
    assert Key(q, a) == "b->c->a" && Key(p, c) == "a->b->c";
    assert "b->c->a"[0] != "a->b->c"[0];
    assert !KnownKey(Recorded(words, 2), Key(q, a));
    assert Recorded(words, 3) == edges;
    assert (a, q) in Pairs(words, 2) && (q, a) in Pairs(words, 3);
    assert Walk(Pairs(words, 3), [a, q, a]);
    var order := [p, q, c, a];
    assert "a->b" != "c" && "a->b" != "a" && "a->b" != "b->c" && "c" != "a" && "c" != "b->c" && "a" != "b->c";
    OrderedExample(order, edges);
    forall w
      ensures !Cycle(edges, w)
    {
      CycleNotSorted(order, edges, order, w);
    }
  }

  lemma OrderedExample(order: seq<Node>, edges: set<Edge>)
    requires |order| == 4 && Distinct(order) && edges == {(order[0], order[2]), (order[1], order[3])}
    ensures Topological(edges, order)
  {
    forall i | 0 <= i < |order|
      ensures Preds(edges, order[i]) <= Elems(order[..i])
    {
      hide Preds;
      forall u | u in Preds(edges, order[i])
        ensures u in Elems(order[..i])
      {
        InPreds(edges, u, order[i]);
        var j := if u == order[0] then 0 else 1;
        assert order[..i][j] == u;
      }
    }
  }

  lemma ArrowsCollide()
    ensures Key(Node("a->b"), Node("c")) == Key(Node("a"), Node("b->c"))
  {
    assert Key(Node("a->b"), Node("c")) == "a->b->c" == Key(Node("a"), Node("b->c"));
  }
}
