/** The nodes of the parse DAG as memory that is allocated and freed. */
module PdagMemory {
  import opened Pdag
  import opened PdagRefs

  /** While nodes are being deleted: those in `dying` are no longer referenced but
      still hold a part of their parsers. */
  ghost predicate Releasing(h: Heap, outside: multiset<NodeId>, dying: set<NodeId>) {
    Forward(h) && forall n: NodeId :: n < |h| ==> ReleasingAt(h, n, outside, dying)
  }

  ghost predicate ReleasingAt(h: Heap, n: NodeId, outside: multiset<NodeId>, dying: set<NodeId>)
    requires n < |h|
  {
    if n in dying then h[n].live && h[n].refcnt == 0 && Edges(h)[n] + outside[n] == 0
    else CountedAt(h, n, outside)
  }

  lemma Resting(h: Heap, outside: multiset<NodeId>)
    ensures Releasing(h, outside, {}) <==> Forward(h) && Counted(h, outside)
  {
    hide Edges;
    if Releasing(h, outside, {}) {
      forall n: NodeId | n < |h|
        ensures CountedAt(h, n, outside)
      {
        assert ReleasingAt(h, n, outside, {});
      }
    }
    if Forward(h) && Counted(h, outside) {
      forall n: NodeId | n < |h|
        ensures ReleasingAt(h, n, outside, {})
      {
        assert CountedAt(h, n, outside);
      }
    }
  }

  /** `r` is `h` after some nodes behind `n` lost references or were freed. */
  ghost predicate Released(h: Heap, r: Heap, n: NodeId, dying: set<NodeId>) {
    && |r| == |h|
    && (forall m :: 0 <= m < |h| && (m < n || m in dying) ==> r[m] == h[m])
    && (forall m :: 0 <= m < |h| ==> (r[m].live ==> h[m].live) && (!h[m].live ==> r[m] == h[m]))
    && (forall m :: 0 <= m < |h| && r[m].live ==> r[m].parsers == h[m].parsers && r[m].terminal == h[m].terminal)
  }

  lemma Dropped(h: Heap, n: NodeId, outside: multiset<NodeId>, dying: set<NodeId>)
    requires n < |h| && n !in dying && Releasing(h, outside + multiset{n}, dying)
    ensures var r := h[n := h[n].(refcnt := h[n].refcnt - 1)];
      h[n].live && h[n].refcnt > 0 && Releasing(r, outside, if r[n].refcnt > 0 then dying else dying + {n})
  {
    hide Edges, Targets;
    assert ReleasingAt(h, n, outside + multiset{n}, dying);
    var node := h[n].(refcnt := h[n].refcnt - 1);
    var r := h[n := node];
    EdgesSet(h, n, node);
    var now := if r[n].refcnt > 0 then dying else dying + {n};
    forall m: NodeId | m < |r|
      ensures ReleasingAt(r, m, outside, now)
    {
      assert (Edges(r) + Targets(h[n].parsers))[m] == (Edges(h) + Targets(h[n].parsers))[m];
      assert ReleasingAt(h, m, outside + multiset{n}, dying);
      assert (outside + multiset{n})[m] == outside[m] + if m == n then 1 else 0;
    }
  }

  /** A parser that is deleted hands its reference over to the code that deletes it. */
  lemma Popped(h: Heap, n: NodeId, outside: multiset<NodeId>, dying: set<NodeId>)
    requires n < |h| && n in dying && Releasing(h, outside, dying) && h[n].parsers != []
    ensures var t, r := h[n].parsers[0].node, h[n := h[n].(parsers := h[n].parsers[1..])];
      Releasing(r, outside + multiset{t}, dying) && n < t < |h| && (t !in dying || t == n)
  {
    hide Edges, Targets;
    var ps := h[n].parsers;
    var t, node := ps[0].node, h[n].(parsers := ps[1..]);
    var r := h[n := node];
    EdgesSet(h, n, node);
    TargetsSplit(ps, 0);
    assert ps[..0] == [];
    NoTargets();
    EdgeCounts(h, n, 0);
    assert ReleasingAt(h, t, outside, dying);
    forall m: NodeId | m < |r|
      ensures ReleasingAt(r, m, outside + multiset{t}, dying)
    {
      assert ReleasingAt(h, m, outside, dying);
      assert (Edges(r) + Targets(ps))[m] == (Edges(h) + Targets(ps[1..]))[m];
      assert (outside + multiset{t})[m] == outside[m] + multiset{t}[m];
      assert Targets(ps)[m] == multiset{t}[m] + Targets(ps[1..])[m];
    }
  }

  lemma NoTargets()
    ensures Targets([]) == multiset{}
  {
  }

  lemma Buried(h: Heap, n: NodeId, outside: multiset<NodeId>, dying: set<NodeId>)
    requires n < |h| && n !in dying && Releasing(h, outside, dying + {n}) && h[n].parsers == []
    ensures Releasing(h[n := FREED], outside, dying)
  {
    hide Edges, Targets;
    var r := h[n := FREED];
    EdgesSet(h, n, FREED);
    NoTargets();
    forall m: NodeId | m < |r|
      ensures ReleasingAt(r, m, outside, dying)
    {
      assert ReleasingAt(h, m, outside, dying + {n});
      assert (Edges(r) + multiset{})[m] == (Edges(h) + multiset{})[m];
    }
  }

  class Memory {
    var nodes: Heap

    constructor ()
      ensures nodes == []
    {
      nodes := [];
    }

    /** free(pdag) */
    method Free(n: NodeId)
      requires n < |nodes| && nodes[n].live
      modifies this
      ensures nodes == old(nodes)[n := FREED]
    {
      nodes := nodes[n := FREED];
    }

    /** ln_pdagDelete: gives up one reference.  A parser that was deleted is taken
        out of the table here; the source leaves it there until the table is freed. */
    method Delete(n: NodeId, ghost outside: multiset<NodeId>, ghost dying: set<NodeId>)
      requires n < |nodes| && n !in dying && Releasing(nodes, outside + multiset{n}, dying)
      modifies this
      ensures Releasing(nodes, outside, dying) && Released(old(nodes), nodes, n, dying)
      ensures old(nodes)[n].parsers == [] && old(nodes)[n].refcnt == 1 ==> nodes == old(nodes)[n := FREED]
      decreases |nodes| - n
    {
      hide Releasing, Edges;
      Dropped(nodes, n, outside, dying);
      nodes := nodes[n := nodes[n].(refcnt := nodes[n].refcnt - 1)];
      if nodes[n].refcnt > 0 {
        return;
      }
      ghost var inner := dying + {n};
      while nodes[n].parsers != []
        invariant |nodes| == |old(nodes)| && nodes[n].live && nodes[n].refcnt == 0
        invariant Releasing(nodes, outside, inner)
        invariant forall m :: 0 <= m < |nodes| && (m < n || m in dying) ==> nodes[m] == old(nodes)[m]
        invariant forall m :: 0 <= m < |nodes| && m != n && nodes[m].live ==>
          old(nodes)[m].live && nodes[m].parsers == old(nodes)[m].parsers && nodes[m].terminal == old(nodes)[m].terminal
        invariant forall m :: 0 <= m < |nodes| && !old(nodes)[m].live ==> nodes[m] == old(nodes)[m]
        invariant old(nodes)[n].live
        invariant old(nodes)[n].parsers == [] ==> nodes == old(nodes)[n := old(nodes)[n].(refcnt := 0)]
        decreases |nodes[n].parsers|
      {
        Popped(nodes, n, outside, inner);
        PoppedElsewhere(nodes, n, outside, inner);
        var prs := nodes[n].parsers[0];
        nodes := nodes[n := nodes[n].(parsers := nodes[n].parsers[1..])];
        Delete(prs.node, outside, inner);
      }
      Buried(nodes, n, outside, dying);
      Free(n);
    }

    /** Deleting the root of a well-formed DAG frees every node. */
    method DeleteAll(root: NodeId)
      requires root < |nodes| && WellFormed(nodes, multiset{root})
      modifies this
      ensures |nodes| == |old(nodes)| && forall n :: 0 <= n < |nodes| ==> !nodes[n].live
    {
      hide Edges;
      assert multiset{} + multiset{root} == multiset{root};
      Resting(nodes, multiset{root});
      Delete(root, multiset{}, {});
      Resting(nodes, multiset{});
      forall n: NodeId | n < |nodes|
        ensures !nodes[n].live
      {
        NothingLeft(nodes, n);
      }
    }
  }

  /** The target of a dying node is not itself dying. */
  lemma PoppedElsewhere(h: Heap, n: NodeId, outside: multiset<NodeId>, dying: set<NodeId>)
    requires n < |h| && Releasing(h, outside, dying) && h[n].parsers != []
    ensures h[n].parsers[0].node < |h| && h[n].parsers[0].node !in dying
  {
    EdgeCounts(h, n, 0);
    assert ReleasingAt(h, h[n].parsers[0].node, outside, dying);
  }
}
