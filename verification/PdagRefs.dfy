/** Reference counts in the parse DAG: `refcnt` is the number of parser edges into a
    node plus the number of references held from outside. */
module PdagRefs {
  import opened Pdag

  /** The nodes that a parser table points to. */
  function Targets(ps: seq<Parser>): multiset<NodeId> {
    if ps == [] then multiset{} else Targets(ps[..|ps| - 1]) + multiset{ps[|ps| - 1].node}
  }

  /** All edges of the heap, by the node they lead to. */
  function Edges(h: Heap): multiset<NodeId> {
    if h == [] then multiset{} else Edges(h[..|h| - 1]) + Targets(h[|h| - 1].parsers)
  }

  /** `outside` are the references that are not parser edges, such as the one to the root. */
  ghost predicate Counted(h: Heap, outside: multiset<NodeId>) {
    forall n: NodeId :: n < |h| ==> CountedAt(h, n, outside)
  }

  ghost predicate CountedAt(h: Heap, n: NodeId, outside: multiset<NodeId>)
    requires n < |h|
  {
    if h[n].live then h[n].refcnt == Edges(h)[n] + outside[n] && h[n].refcnt > 0
    else h[n].parsers == [] && !h[n].terminal && Edges(h)[n] + outside[n] == 0
  }

  ghost predicate WellFormed(h: Heap, outside: multiset<NodeId>) {
    Forward(h) && Counted(h, outside) && forall n :: n in outside ==> n < |h|
  }

  // ----- counting edges -----

  lemma {:induction false} TargetsConcat(a: seq<Parser>, b: seq<Parser>)
    ensures Targets(a + b) == Targets(a) + Targets(b)
    decreases |b|
  {
    if b == [] {
      assert a + b == a;
    } else {
      var front := b[..|b| - 1];
      assert (a + b)[..|a + b| - 1] == a + front;
      TargetsConcat(a, front);
    }
  }

  lemma TargetsOne(p: Parser)
    ensures Targets([p]) == multiset{p.node}
  {
    assert [p][..0] == [];
  }

  lemma EmptyTargets()
    ensures Targets(FREED.parsers) == multiset{}
  {
  }

  lemma TargetsSplit(ps: seq<Parser>, i: nat)
    requires i < |ps|
    ensures Targets(ps) == Targets(ps[..i]) + multiset{ps[i].node} + Targets(ps[i + 1..])
  {
    hide Targets;
    assert ps == ps[..i] + [ps[i]] + ps[i + 1..];
    TargetsConcat(ps[..i] + [ps[i]], ps[i + 1..]);
    TargetsConcat(ps[..i], [ps[i]]);
    TargetsOne(ps[i]);
  }

  lemma TargetsSet(ps: seq<Parser>, i: nat, p: Parser)
    requires i < |ps|
    ensures Targets(ps[i := p]) + multiset{ps[i].node} == Targets(ps) + multiset{p.node}
  {
    hide Targets, Edges;
    TargetsSplit(ps, i);
    TargetsSplit(ps[i := p], i);
    assert ps[i := p][..i] == ps[..i] && ps[i := p][i + 1..] == ps[i + 1..];
  }

  lemma TargetsPush(ps: seq<Parser>, p: Parser)
    ensures Targets(ps + [p]) == Targets(ps) + multiset{p.node}
  {
    assert (ps + [p])[..|ps|] == ps;
  }

  lemma {:induction false} EdgesConcat(a: Heap, b: Heap)
    ensures Edges(a + b) == Edges(a) + Edges(b)
    decreases |b|
  {
    hide Targets;
    if b == [] {
      assert a + b == a;
    } else {
      var front := b[..|b| - 1];
      assert (a + b)[..|a + b| - 1] == a + front;
      EdgesConcat(a, front);
    }
  }

  lemma EdgesOne(node: Node)
    ensures Edges([node]) == Targets(node.parsers)
  {
    hide Targets;
    assert [node][..0] == [];
  }

  lemma EdgesSplit(h: Heap, n: NodeId)
    requires n < |h|
    ensures Edges(h) == Edges(h[..n]) + Targets(h[n].parsers) + Edges(h[n + 1..])
  {
    hide Targets, Edges;
    assert h == h[..n] + [h[n]] + h[n + 1..];
    EdgesConcat(h[..n] + [h[n]], h[n + 1..]);
    EdgesConcat(h[..n], [h[n]]);
    EdgesOne(h[n]);
  }

  lemma EdgesSet(h: Heap, n: NodeId, node: Node)
    requires n < |h|
    ensures Edges(h[n := node]) + Targets(h[n].parsers) == Edges(h) + Targets(node.parsers)
  {
    hide Targets, Edges;
    EdgesSplit(h, n);
    EdgesSplit(h[n := node], n);
    assert h[n := node][..n] == h[..n] && h[n := node][n + 1..] == h[n + 1..];
  }

  lemma EdgesPush(h: Heap, node: Node)
    ensures Edges(h + [node]) == Edges(h) + Targets(node.parsers)
  {
    assert (h + [node])[..|h|] == h;
  }

  lemma EdgeCounts(h: Heap, n: NodeId, i: nat)
    requires n < |h| && i < |h[n].parsers|
    ensures Edges(h)[h[n].parsers[i].node] >= 1
  {
    hide Targets, Edges;
    EdgesSplit(h, n);
    TargetsSplit(h[n].parsers, i);
  }

  lemma {:induction false} TargetsSource(ps: seq<Parser>, t: NodeId) returns (i: nat)
    requires t in Targets(ps)
    ensures i < |ps| && ps[i].node == t
  {
    i := |ps| - 1;
    if ps[i].node != t {
      i := TargetsSource(ps[..i], t);
    }
  }

  lemma {:induction false} EdgeSource(h: Heap, t: NodeId) returns (n: NodeId, i: nat)
    requires t in Edges(h)
    ensures n < |h| && i < |h[n].parsers| && h[n].parsers[i].node == t
  {
    n := |h| - 1;
    if t in Targets(h[n].parsers) {
      i := TargetsSource(h[n].parsers, t);
    } else {
      n, i := EdgeSource(h[..n], t);
    }
  }

  /** Two different parsers that point to the same node count twice. */
  lemma TwoEdges(h: Heap, a: NodeId, i: nat, b: NodeId, j: nat)
    requires a < |h| && i < |h[a].parsers| && b < |h| && j < |h[b].parsers|
    requires h[a].parsers[i].node == h[b].parsers[j].node && (a != b || i != j)
    ensures Edges(h)[h[a].parsers[i].node] >= 2
  {
    hide Targets, Edges;
    var p := h[a].parsers[i];
    var q := p.(node := p.node + 1);
    var node := h[a].(parsers := h[a].parsers[i := q]);
    EdgesSet(h, a, node);
    TargetsSet(h[a].parsers, i, q);
    var t := p.node;
    assert Targets(node.parsers)[t] + 1 == Targets(h[a].parsers)[t] by {
      assert (Targets(node.parsers) + multiset{t})[t] == (Targets(h[a].parsers) + multiset{q.node})[t];
    }
    assert (Edges(h[a := node]) + Targets(h[a].parsers))[t] == (Edges(h) + Targets(node.parsers))[t];
    assert h[a := node][b].parsers[j] == h[b].parsers[j];
    EdgeCounts(h[a := node], b, j);
  }

  // ----- consequences -----

  /** Every parser of a well-formed heap points to a node that was not freed. */
  lemma TargetLive(h: Heap, outside: multiset<NodeId>, n: NodeId, i: nat)
    requires WellFormed(h, outside) && n < |h| && i < |h[n].parsers|
    ensures h[n].live && n < h[n].parsers[i].node < |h| && h[h[n].parsers[i].node].live
  {
    EdgeCounts(h, n, i);
    assert CountedAt(h, n, outside) && CountedAt(h, h[n].parsers[i].node, outside);
  }

  /** A node with reference count one is entered by one parser only. */
  lemma SoleEdge(h: Heap, outside: multiset<NodeId>, a: NodeId, i: nat, b: NodeId, j: nat)
    requires WellFormed(h, outside)
    requires a < |h| && i < |h[a].parsers| && b < |h| && j < |h[b].parsers|
    requires h[a].parsers[i].node == h[b].parsers[j].node && h[h[a].parsers[i].node].refcnt == 1
    ensures a == b && i == j
  {
    TargetLive(h, outside, a, i);
    assert CountedAt(h, h[a].parsers[i].node, outside);
    if a != b || i != j {
      TwoEdges(h, a, i, b, j);
    }
  }

  lemma SoleEdgeNotOutside(h: Heap, outside: multiset<NodeId>, a: NodeId, i: nat)
    requires WellFormed(h, outside) && a < |h| && i < |h[a].parsers| && h[h[a].parsers[i].node].refcnt == 1
    ensures outside[h[a].parsers[i].node] == 0
  {
    TargetLive(h, outside, a, i);
    EdgeCounts(h, a, i);
    assert CountedAt(h, h[a].parsers[i].node, outside);
  }

  /** Without references from outside nothing is left in memory. */
  lemma {:induction false} NothingLeft(h: Heap, n: NodeId)
    requires WellFormed(h, multiset{}) && n < |h|
    ensures !h[n].live
  {
    assert CountedAt(h, n, multiset{});
    if h[n].live {
      var a, i := EdgeSource(h, n);
      TargetLive(h, multiset{}, a, i);
      NothingLeft(h, a);
    }
  }
}
