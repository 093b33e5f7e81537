/** `ln_pdagComponentOptimize`: sort the parsers of every node by priority and join
    literals that can only follow each other. */
module Optimizer {
  import opened Json
  import opened Pdag
  import opened PdagRefs
  import opened PdagMemory
  import opened Normalizer

  /** The condition of the loop in `optLitPathCompact` for parser `i` of node `n`. */
  predicate Compactable(h: Heap, n: NodeId, i: nat)
    requires n < |h| && i < |h[n].parsers|
  {
    var p := h[n].parsers[i];
    && p.IsLiteral() && p.conf.name.None? && p.node < |h|
    && var c := h[p.node];
    && !c.terminal && c.refcnt == 1 && |c.parsers| == 1
    && var q := c.parsers[0];
    q.IsLiteral() && q.conf.name.None? && q.node < |h| && h[q.node].refcnt == 1
  }

  function Joined(p: Parser, q: Parser): Parser {
    p.(text := p.text + q.text, node := q.node)
  }

  /** Parser `i` of node `n` swallows the only parser of the next node, which is freed. */
  function Compact(h: Heap, n: NodeId, i: nat): (r: Heap)
    requires Forward(h) && n < |h| && i < |h[n].parsers| && Compactable(h, n, i)
    ensures |r| == |h|
  {
    var p := h[n].parsers[i];
    var q := h[p.node].parsers[0];
    h[n := h[n].(parsers := h[n].parsers[i := Joined(p, q)])][p.node := FREED]
  }

  lemma CompactForward(h: Heap, n: NodeId, i: nat)
    requires Forward(h) && n < |h| && i < |h[n].parsers| && Compactable(h, n, i)
    ensures Forward(Compact(h, n, i))
  {
  }

  /** How the edges change: the two edges of the chain are replaced by one. */
  lemma CompactEdges(h: Heap, n: NodeId, i: nat)
    requires Forward(h) && n < |h| && i < |h[n].parsers| && Compactable(h, n, i)
    ensures Edges(Compact(h, n, i)) + multiset{h[n].parsers[i].node} == Edges(h)
  {
    hide Edges, Targets;
    var p := h[n].parsers[i];
    var q := h[p.node].parsers[0];
    var node := h[n].(parsers := h[n].parsers[i := Joined(p, q)]);
    var mid := h[n := node];
    EdgesSet(h, n, node);
    TargetsSet(h[n].parsers, i, Joined(p, q));
    EdgesSet(mid, p.node, FREED);
    TargetsOne(q);
    assert h[p.node].parsers == [q];
    EmptyTargets();
    forall t: NodeId
      ensures (Edges(Compact(h, n, i)) + multiset{p.node})[t] == Edges(h)[t]
    {
      assert (Edges(mid) + Targets(h[n].parsers))[t] == (Edges(h) + Targets(node.parsers))[t];
      assert (Targets(node.parsers) + multiset{p.node})[t] == (Targets(h[n].parsers) + multiset{q.node})[t];
      assert (Edges(mid[p.node := FREED]) + multiset{q.node})[t] == (Edges(mid) + multiset{})[t];
    }
  }

  /** Reference counts still equal the number of edges. */
  lemma CompactCounts(h: Heap, outside: multiset<NodeId>, n: NodeId, i: nat)
    requires WellFormed(h, outside) && n < |h| && i < |h[n].parsers| && Compactable(h, n, i)
    ensures WellFormed(Compact(h, n, i), outside)
    ensures h[h[n].parsers[i].node].live
  {
    hide Edges, Targets;
    var r, c := Compact(h, n, i), h[n].parsers[i].node;
    CompactForward(h, n, i);
    CompactEdges(h, n, i);
    TargetLive(h, outside, n, i);
    SoleEdgeNotOutside(h, outside, n, i);
    forall m: NodeId | m < |r|
      ensures CountedAt(r, m, outside)
    {
      assert CountedAt(h, m, outside) && CountedAt(h, c, outside);
      assert (Edges(r) + multiset{c})[m] == Edges(h)[m];
    }
  }

  lemma PrefixConcat(a: string, b: string, msg: string, offs: nat)
    ensures PrefixAt(a + b, msg, offs) <==> PrefixAt(a, msg, offs) && PrefixAt(b, msg, offs + |a|)
  {
    if offs + |a| + |b| <= |msg| {
      var s := msg[offs..offs + |a| + |b|];
      assert s[..|a|] == msg[offs..offs + |a|] && s[|a|..] == msg[offs + |a|..offs + |a| + |b|];
      assert s == s[..|a|] + s[|a|..];
      assert (a + b)[..|a|] == a && (a + b)[|a|..] == b;
    }
  }

  /** No other parser leads to the node that is swallowed. */
  lemma OnlyWay(h: Heap, outside: multiset<NodeId>, n: NodeId, i: nat, m: NodeId, j: nat)
    requires WellFormed(h, outside) && n < |h| && i < |h[n].parsers| && Compactable(h, n, i)
    requires m < |h| && j < |h[m].parsers| && (m != n || j != i)
    ensures h[m].parsers[j].node != h[n].parsers[i].node
  {
    if h[m].parsers[j].node == h[n].parsers[i].node {
      SoleEdge(h, outside, n, i, m, j);
    }
  }

  /** What the chain does, seen from its first node. */
  lemma ChainMatch(h: Heap, inp: Input, p: Parser, offs: nat, partial: bool)
    requires Forward(h) && p.node < |h| && p.IsLiteral() && !h[p.node].terminal && |h[p.node].parsers| == 1
    requires h[p.node].parsers[0].IsLiteral() && h[p.node].parsers[0].conf.name.None?
    ensures var q := h[p.node].parsers[0];
      var end, mid := Parse(inp, Joined(p, q), offs), Parse(inp, p, offs);
      && (end.Some? <==> mid.Some? && Parse(inp, q, mid.value).Some?)
      && (mid.Some? ==> Parse(inp, q, mid.value) == end)
      && (mid.Some? ==> Match(h, inp, p.node, mid.value, partial) ==
                        if end.Some? then Match(h, inp, q.node, end.value, partial) else None)
  {
    var q := h[p.node].parsers[0];
    PrefixConcat(p.text, q.text, inp.msg, offs);
    var mid := Parse(inp, p, offs);
    if mid.Some? {
      assert MatchFrom(h, inp, p.node, 1, mid.value, partial) == None;
      var end := Parse(inp, q, mid.value);
      if end.Some? && Match(h, inp, q.node, end.value, partial).Some? {
        var hit := Match(h, inp, q.node, end.value, partial).value;
        assert hit.fields + Named(q, mid.value, end.value) == hit.fields;
      }
    }
  }

  lemma ChainMark(h: Heap, inp: Input, p: Parser, offs: nat, partial: bool, mark: nat)
    requires Forward(h) && p.node < |h| && p.IsLiteral() && !h[p.node].terminal && |h[p.node].parsers| == 1
    requires h[p.node].parsers[0].IsLiteral() && h[p.node].parsers[0].conf.name.None?
    requires Parse(inp, p, offs).Some?
    ensures var q, mid := h[p.node].parsers[0], Parse(inp, p, offs).value;
      var end := Parse(inp, Joined(p, q), offs);
      Mark(h, inp, p.node, mid, partial, mark) ==
        if end.Some? then Max(Mark(h, inp, q.node, end.value, partial, mark), end.value) else mark
  {
    var q, mid := h[p.node].parsers[0], Parse(inp, p, offs).value;
    ChainMatch(h, inp, p, offs, partial);
    var end := Parse(inp, q, mid);
    if end.Some? {
      var m := Max(Mark(h, inp, q.node, end.value, partial, mark), end.value);
      assert MarkFrom(h, inp, p.node, 1, mid, partial, m) == m;
    } else {
      assert MarkFrom(h, inp, p.node, 1, mid, partial, mark) == mark;
    }
  }

  /** The heap before and after one compaction. */
  ghost predicate Step(h: Heap, r: Heap, outside: multiset<NodeId>, n: NodeId, i: nat) {
    && WellFormed(h, outside) && n < |h| && i < |h[n].parsers| && Compactable(h, n, i)
    && r == Compact(h, n, i) && WellFormed(r, outside)
  }

  /** Compaction changes no search result: not the success, not the end node, not the fields. */
  lemma {:induction false} CompactMatch(h: Heap, r: Heap, outside: multiset<NodeId>, n: NodeId, i: nat,
                                        inp: Input, m: NodeId, offs: nat, partial: bool)
    requires Step(h, r, outside, n, i) && m < |h| && m != h[n].parsers[i].node
    ensures Match(r, inp, m, offs, partial) == Match(h, inp, m, offs, partial)
    decreases |h| - m, 1, 0
  {
    CompactMatchFrom(h, r, outside, n, i, inp, m, 0, offs, partial);
  }

  lemma {:induction false} CompactMatchFrom(h: Heap, r: Heap, outside: multiset<NodeId>, n: NodeId, i: nat,
                                            inp: Input, m: NodeId, j: nat, offs: nat, partial: bool)
    requires Step(h, r, outside, n, i) && m < |h| && m != h[n].parsers[i].node && j <= |h[m].parsers|
    ensures |r[m].parsers| == |h[m].parsers| && r[m].terminal == h[m].terminal
    ensures MatchFrom(r, inp, m, j, offs, partial) == MatchFrom(h, inp, m, j, offs, partial)
    decreases |h| - m, 0, |h[m].parsers| - j
  {
    hide Edges, Parse, Counted;
    if j < |h[m].parsers| {
      CompactMatchFrom(h, r, outside, n, i, inp, m, j + 1, offs, partial);
      var p := h[m].parsers[j];
      var end := Parse(inp, r[m].parsers[j], offs);
      if m == n && j == i {
        var q := h[p.node].parsers[0];
        ChainMatch(h, inp, p, offs, partial);
        OnlyWay(h, outside, n, i, p.node, 0);
        if end.Some? {
          CompactMatch(h, r, outside, n, i, inp, q.node, end.value, partial);
        }
      } else {
        OnlyWay(h, outside, n, i, m, j);
        if end.Some? {
          CompactMatch(h, r, outside, n, i, inp, p.node, end.value, partial);
        }
      }
    }
  }

  /** Compaction never raises the furthest offset. */
  lemma {:induction false} CompactMark(h: Heap, r: Heap, outside: multiset<NodeId>, n: NodeId, i: nat,
                                       inp: Input, m: NodeId, offs: nat, partial: bool, mark1: nat, mark: nat)
    requires Step(h, r, outside, n, i) && m < |h| && m != h[n].parsers[i].node && mark1 <= mark
    ensures Mark(r, inp, m, offs, partial, mark1) <= Mark(h, inp, m, offs, partial, mark)
    decreases |h| - m, 1, 0
  {
    CompactMarkFrom(h, r, outside, n, i, inp, m, 0, offs, partial, mark1, mark);
  }

  lemma {:induction false} CompactMarkFrom(h: Heap, r: Heap, outside: multiset<NodeId>, n: NodeId, i: nat,
                                           inp: Input, m: NodeId, j: nat, offs: nat, partial: bool,
                                           mark1: nat, mark: nat)
    requires Step(h, r, outside, n, i) && m < |h| && m != h[n].parsers[i].node && mark1 <= mark
    requires j <= |h[m].parsers| == |r[m].parsers|
    ensures MarkFrom(r, inp, m, j, offs, partial, mark1) <= MarkFrom(h, inp, m, j, offs, partial, mark)
    decreases |h| - m, 0, |h[m].parsers| - j
  {
    hide Edges, Parse, Counted, Match;
    if j < |h[m].parsers| {
      var p, p1 := h[m].parsers[j], r[m].parsers[j];
      var end, end1 := Parse(inp, p, offs), Parse(inp, p1, offs);
      var mid := if end.Some? then Max(Mark(h, inp, p.node, end.value, partial, mark), end.value) else mark;
      var mid1 := if end1.Some? then Max(Mark(r, inp, p1.node, end1.value, partial, mark1), end1.value) else mark1;
      if m == n && j == i {
        ChainMatch(h, inp, p, offs, partial);
        OnlyWay(h, outside, n, i, p.node, 0);
        if end.Some? {
          ChainMark(h, inp, p, offs, partial, mark);
        }
      } else {
        OnlyWay(h, outside, n, i, m, j);
      }
      if end1.Some? {
        CompactMatch(h, r, outside, n, i, inp, p1.node, end1.value, partial);
        CompactMark(h, r, outside, n, i, inp, p1.node, end1.value, partial, mark1, mark);
      }
      MarkGrows(h, inp, m, j + 1, offs, partial, mid);
      CompactMarkFrom(h, r, outside, n, i, inp, m, j + 1, offs, partial, mid1, mid);
    }
  }

  // ----- what is left to do -----

  predicate IsNamelessLiteral(p: Parser) {
    p.conf.prsid == Literal && p.conf.name == None
  }

  /** A node in the middle of a chain of literals: one way in, one way out, no name to extract,
      and one way into the next node too. */
  predicate IsLink(h: Heap, m: NodeId)
    requires m < |h|
  {
    var c := h[m];
    && c.live && !c.terminal && c.refcnt == 1 && |c.parsers| == 1
    && IsNamelessLiteral(c.parsers[0])
    && c.parsers[0].node < |h| && h[c.parsers[0].node].refcnt == 1
  }

  /** The parsers of the node are in order, and no nameless literal leads to a link. */
  ghost predicate Done(h: Heap, m: NodeId)
    requires m < |h|
  {
    Sorted(h[m].parsers) && forall j :: 0 <= j < |h[m].parsers| ==> !Compactable(h, m, j)
  }

  lemma DoneMeans(h: Heap, outside: multiset<NodeId>, m: NodeId)
    requires WellFormed(h, outside) && m < |h|
    ensures Done(h, m) <==>
      && (forall i, j :: 0 <= i < j < |h[m].parsers| ==> h[m].parsers[i].conf.prio <= h[m].parsers[j].conf.prio)
      && (forall j :: 0 <= j < |h[m].parsers| && IsNamelessLiteral(h[m].parsers[j]) ==>
            !IsLink(h, h[m].parsers[j].node))
  {
    forall j | 0 <= j < |h[m].parsers|
      ensures h[m].parsers[j].node < |h| && h[h[m].parsers[j].node].live
    {
      TargetLive(h, outside, m, j);
    }
    hide WellFormed;
    assert forall j :: 0 <= j < |h[m].parsers| ==>
      (Compactable(h, m, j) <==> IsNamelessLiteral(h[m].parsers[j]) && IsLink(h, h[m].parsers[j].node));
  }

  function ConfsOf(ps: seq<Parser>): (cs: seq<Config>)
    ensures |cs| == |ps|
  {
    seq(|ps|, i requires 0 <= i < |ps| => ps[i].conf)
  }

  /** What becomes of node `m`: only a link is freed, and a node that stays keeps its mark, its
      references and the configurations of its parsers, and does not become a link. */
  ghost predicate TrimmedAt(h: Heap, r: Heap, m: NodeId)
    requires m < |h| == |r|
  {
    if r[m].live then
      && h[m].live && r[m].terminal == h[m].terminal && r[m].refcnt == h[m].refcnt
      && multiset(ConfsOf(r[m].parsers)) == multiset(ConfsOf(h[m].parsers)) && (IsLink(r, m) ==> IsLink(h, m))
    else h[m].live ==> IsLink(h, m)
  }

  ghost predicate Trimmed(h: Heap, r: Heap) {
    |h| == |r| && forall m: NodeId :: m < |r| ==> TrimmedAt(h, r, m)
  }

  lemma TrimmedTrans(a: Heap, b: Heap, c: Heap)
    requires Trimmed(a, b) && Trimmed(b, c)
    ensures Trimmed(a, c)
  {
    hide IsLink;
    forall m: NodeId | m < |c|
      ensures TrimmedAt(a, c, m)
    {
      assert TrimmedAt(a, b, m) && TrimmedAt(b, c, m);
    }
  }

  lemma CompactTrims(h: Heap, r: Heap, outside: multiset<NodeId>, n: NodeId, i: nat)
    requires Step(h, r, outside, n, i)
    ensures Trimmed(h, r)
  {
    hide WellFormed, Edges;
    FormedForward(h, outside);
    var c := h[n].parsers[i].node;
    TargetLive(h, outside, n, i);
    forall m: NodeId | m < |r|
      ensures TrimmedAt(h, r, m)
    {
      if m != c {
        assert ConfsOf(r[m].parsers) == ConfsOf(h[m].parsers);
        if |h[m].parsers| == 1 && m != n { OnlyWay(h, outside, n, i, m, 0); }
      }
    }
  }

  lemma {:induction false} ConfsPermuted(a: seq<Parser>, b: seq<Parser>)
    requires multiset(a) == multiset(b)
    ensures multiset(ConfsOf(a)) == multiset(ConfsOf(b))
    decreases |a|
  {
    if a == [] {
      assert |multiset(b)| == 0;
    } else {
      var i := WithoutLast(a, b);
      var a1, b1 := a[..|a| - 1], b[..i] + b[i + 1..];
      ConfsPermuted(a1, b1);
      assert ConfsOf(a) == ConfsOf(a1) + [a[|a| - 1].conf];
      assert ConfsOf(b) == ConfsOf(b)[..i] + [b[i].conf] + ConfsOf(b)[i + 1..];
      assert ConfsOf(b1) == ConfsOf(b)[..i] + ConfsOf(b)[i + 1..];
    }
  }

  lemma ReorderTrims(h: Heap, r: Heap, outside: multiset<NodeId>, n: NodeId)
    requires Reordered(h, r, n) && |h[n].parsers| > 1 && WellFormed(h, outside)
    ensures Trimmed(h, r)
  {
    hide Edges;
    assert |multiset(r[n].parsers)| == |multiset(h[n].parsers)|;
    forall m: NodeId | m < |r|
      ensures TrimmedAt(h, r, m)
    {
      assert CountedAt(h, m, outside);
      if m == n { ConfsPermuted(r[n].parsers, h[n].parsers); }
    }
  }

  lemma TrimmedRefl(h: Heap)
    ensures Trimmed(h, h)
  {
  }

  /** Nothing is left to do at any node that can be reached from `m`. */
  ghost predicate AllDone(h: Heap, m: NodeId)
    requires Forward(h) && m < |h|
    decreases |h| - m
  {
    Done(h, m) && forall j :: 0 <= j < |h[m].parsers| ==> AllDone(h, h[m].parsers[j].node)
  }

  /** Where nothing was left to do, nothing is left to do again. */
  ghost predicate Keeps(h: Heap, r: Heap) {
    && Forward(h) && Forward(r) && |r| == |h|
    && (forall m :: 0 <= m < |r| && r[m].live ==> h[m].live)
    && (forall m :: 0 <= m < |r| && r[m].live && AllDone(h, m) ==> AllDone(r, m))
  }

  /** No other parser becomes or stops being one that can be joined. */
  lemma CompactOther(h: Heap, r: Heap, outside: multiset<NodeId>, n: NodeId, i: nat, m: NodeId, j: nat)
    requires Step(h, r, outside, n, i) && m < |h| && m != h[n].parsers[i].node && j < |h[m].parsers| == |r[m].parsers|
    requires m != n || j != i
    ensures Compactable(r, m, j) <==> Compactable(h, m, j)
  {
    hide WellFormed;
    var c := h[n].parsers[i].node;
    assert Forward(h) by { FormedForward(h, outside); }
    OnlyWay(h, outside, n, i, m, j);
    var p := h[m].parsers[j];
    if |h[p.node].parsers| == 1 && p.node != n {
      OnlyWay(h, outside, n, i, p.node, 0);
    }
    OnlyWay(h, outside, n, i, c, 0);
  }

  lemma FormedForward(h: Heap, outside: multiset<NodeId>)
    requires WellFormed(h, outside)
    ensures Forward(h)
  {
  }

  lemma {:induction false} CompactKeepsAt(h: Heap, r: Heap, outside: multiset<NodeId>, n: NodeId, i: nat, m: NodeId)
    requires Step(h, r, outside, n, i) && Forward(h) && Forward(r) && m < |h| && m != h[n].parsers[i].node
    requires AllDone(h, m)
    ensures AllDone(r, m)
    decreases |h| - m
  {
    hide WellFormed, Compactable, Sorted;
    var c := h[n].parsers[i].node;
    assert m != n;
    forall j | 0 <= j < |r[m].parsers|
      ensures !Compactable(r, m, j) && AllDone(r, r[m].parsers[j].node)
    {
      CompactOther(h, r, outside, n, i, m, j);
      OnlyWay(h, outside, n, i, m, j);
      CompactKeepsAt(h, r, outside, n, i, h[m].parsers[j].node);
    }
  }

  lemma CompactKeeps(h: Heap, r: Heap, outside: multiset<NodeId>, n: NodeId, i: nat)
    requires Step(h, r, outside, n, i)
    ensures Keeps(h, r)
  {
    hide AllDone, Compactable;
    FormedForward(h, outside);
    FormedForward(r, outside);
    TargetLive(h, outside, n, i);
    forall m: NodeId | m < |r| && r[m].live && AllDone(h, m)
      ensures AllDone(r, m)
    {
      CompactKeepsAt(h, r, outside, n, i, m);
    }
  }

  lemma KeepsTrans(a: Heap, b: Heap, c: Heap)
    requires Keeps(a, b) && Keeps(b, c)
    ensures Keeps(a, c)
  {
    hide AllDone;
  }

  /** Sorting more than one parser changes nothing at the other nodes. */
  lemma ReorderOther(h: Heap, r: Heap, n: NodeId, m: NodeId, j: nat)
    requires Reordered(h, r, n) && |h[n].parsers| > 1 && m < |h| && m != n && j < |h[m].parsers|
    ensures Compactable(r, m, j) <==> Compactable(h, m, j)
  {
    assert |multiset(r[n].parsers)| == |multiset(h[n].parsers)|;
  }

  lemma ReorderDone(h: Heap, r: Heap, n: NodeId, m: NodeId)
    requires Reordered(h, r, n) && |h[n].parsers| > 1 && m < |h| && Done(h, m) && Sorted(r[n].parsers)
    ensures Done(r, m)
  {
    forall j | 0 <= j < |r[m].parsers|
      ensures !Compactable(r, m, j)
    {
      if m == n {
        var k := SameParser(r[n].parsers, h[n].parsers, j);
        assert !Compactable(h, n, k);
      } else {
        ReorderOther(h, r, n, m, j);
      }
    }
  }

  lemma {:induction false} ReorderKeepsAt(h: Heap, r: Heap, n: NodeId, m: NodeId)
    requires Reordered(h, r, n) && |h[n].parsers| > 1 && Sorted(r[n].parsers) && m < |h| && AllDone(h, m)
    ensures AllDone(r, m)
    decreases |h| - m
  {
    hide Done;
    ReorderDone(h, r, n, m);
    forall j | 0 <= j < |r[m].parsers|
      ensures AllDone(r, r[m].parsers[j].node)
    {
      var k := j;
      if m == n { k := SameParser(r[n].parsers, h[n].parsers, j); }
      assert r[m].parsers[j] == h[m].parsers[k];
      ReorderKeepsAt(h, r, n, h[m].parsers[k].node);
    }
  }

  lemma ReorderKeeps(h: Heap, r: Heap, n: NodeId)
    requires Reordered(h, r, n) && |h[n].parsers| > 1 && Sorted(r[n].parsers)
    ensures Keeps(h, r)
  {
    hide AllDone, Sorted;
    forall m: NodeId | m < |r| && r[m].live && AllDone(h, m)
      ensures AllDone(r, m)
    {
      ReorderKeepsAt(h, r, n, m);
    }
  }

  lemma KeepsRefl(h: Heap)
    requires Forward(h)
    ensures Keeps(h, h)
  {
    hide AllDone;
  }

  /** Below node `n`, and at its other parsers, nothing becomes a parser that can be joined. */
  ghost predicate NoNewChains(h: Heap, r: Heap, n: NodeId, i: nat) {
    && |r| == |h| && n < |h|
    && forall m, j :: 0 <= m <= n && 0 <= j < |r[m].parsers| && j < |h[m].parsers| && (m < n || j < i) ==>
         (Compactable(r, m, j) ==> Compactable(h, m, j))
  }

  lemma CompactNoNew(h: Heap, r: Heap, outside: multiset<NodeId>, n: NodeId, i: nat)
    requires Step(h, r, outside, n, i)
    ensures NoNewChains(h, r, n, i)
  {
    hide Compactable;
    FormedForward(h, outside);
    forall m, j | 0 <= m <= n && 0 <= j < |r[m].parsers| && j < |h[m].parsers| && (m < n || j < i)
      ensures Compactable(r, m, j) ==> Compactable(h, m, j)
    {
      assert n < h[n].parsers[i].node;
      assert |r[m].parsers| == |h[m].parsers|;
      CompactOther(h, r, outside, n, i, m, j);
    }
  }

  // ----- the code -----

  /** Every node that is left gives the same result as before, with no higher mark. */
  ghost predicate Same(h: Heap, r: Heap) {
    && Forward(h) && Forward(r) && |r| == |h|
    && (forall m :: 0 <= m < |r| && r[m].live ==> h[m].live)
    && (forall inp: Input, m: NodeId, offs: nat, partial: bool :: m < |r| && r[m].live ==>
          Match(r, inp, m, offs, partial) == Match(h, inp, m, offs, partial))
    && (forall inp: Input, m: NodeId, offs: nat, partial: bool, mark: nat :: m < |r| && r[m].live ==>
          Mark(r, inp, m, offs, partial, mark) <= Mark(h, inp, m, offs, partial, mark))
  }

  lemma SameTrans(a: Heap, b: Heap, c: Heap)
    requires Same(a, b) && Same(b, c)
    ensures Same(a, c)
  {
    hide Match, Mark;
  }

  lemma StepSame(h: Heap, r: Heap, outside: multiset<NodeId>, n: NodeId, i: nat)
    requires Step(h, r, outside, n, i)
    ensures Same(h, r)
  {
    hide Match, Mark, Edges, Compactable;
    forall inp: Input, m: NodeId, offs: nat, partial: bool | m < |r| && r[m].live
      ensures Match(r, inp, m, offs, partial) == Match(h, inp, m, offs, partial)
    {
      CompactMatch(h, r, outside, n, i, inp, m, offs, partial);
    }
    forall inp: Input, m: NodeId, offs: nat, partial: bool, mark: nat | m < |r| && r[m].live
      ensures Mark(r, inp, m, offs, partial, mark) <= Mark(h, inp, m, offs, partial, mark)
    {
      CompactMark(h, r, outside, n, i, inp, m, offs, partial, mark, mark);
    }
    TargetLive(h, outside, n, i);
  }

  /** The chain node just before it is deleted: nothing but that last reference is left. */
  lemma Unlinked(h: Heap, outside: multiset<NodeId>, n: NodeId, i: nat)
    requires WellFormed(h, outside) && n < |h| && i < |h[n].parsers| && Compactable(h, n, i)
    ensures var p := h[n].parsers[i];
      var joined := h[n].(parsers := h[n].parsers[i := Joined(p, h[p.node].parsers[0])]);
      var mid := h[n := joined][p.node := h[p.node].(parsers := [])];
      && mid[p.node].refcnt == 1 && Releasing(mid, outside + multiset{p.node}, {})
      && mid[p.node := FREED] == Compact(h, n, i)
  {
    hide Edges, Targets;
    var p := h[n].parsers[i];
    var c := p.node;
    var r := Compact(h, n, i);
    var mid := h[n := h[n].(parsers := h[n].parsers[i := Joined(p, h[c].parsers[0])])][c := h[c].(parsers := [])];
    assert mid[c := FREED] == r && r[c := mid[c]] == mid;
    CompactEdges(h, n, i);
    EdgesSet(r, c, mid[c]);
    TargetLive(h, outside, n, i);
    SoleEdgeNotOutside(h, outside, n, i);
    forall m: NodeId | m < |mid|
      ensures ReleasingAt(mid, m, outside + multiset{c}, {})
    {
      assert CountedAt(h, m, outside) && CountedAt(h, c, outside);
      assert (Edges(mid) + Targets(r[c].parsers))[m] == (Edges(r) + Targets(mid[c].parsers))[m];
      assert (Edges(r) + multiset{c})[m] == Edges(h)[m];
      assert (outside + multiset{c})[m] == outside[m] + multiset{c}[m];
    }
  }

  /** optLitPathCompact: the chain that starts with parser `i` of node `n`. */
  method OptLitPathCompact(mem: Memory, n: NodeId, i: nat, ghost outside: multiset<NodeId>)
    requires WellFormed(mem.nodes, outside) && n < |mem.nodes| && i < |mem.nodes[n].parsers|
    modifies mem
    ensures WellFormed(mem.nodes, outside) && Same(old(mem.nodes), mem.nodes)
    ensures i < |mem.nodes[n].parsers| && !Compactable(mem.nodes, n, i)
    ensures OnlyParser(old(mem.nodes), mem.nodes, n, i)
    ensures Keeps(old(mem.nodes), mem.nodes) && NoNewChains(old(mem.nodes), mem.nodes, n, i)
    ensures Trimmed(old(mem.nodes), mem.nodes)
  {
    hide WellFormed, Same, Compactable, Compact, Edges, Keeps, Trimmed;
    TrimmedRefl(mem.nodes);
    SameRefl(mem.nodes, outside);
    FormedForward(mem.nodes, outside);
    KeepsRefl(mem.nodes);
    while Compactable(mem.nodes, n, i)
      invariant WellFormed(mem.nodes, outside) && n < |mem.nodes| && i < |mem.nodes[n].parsers|
      invariant Same(old(mem.nodes), mem.nodes) && OnlyParser(old(mem.nodes), mem.nodes, n, i)
      invariant Keeps(old(mem.nodes), mem.nodes) && NoNewChains(old(mem.nodes), mem.nodes, n, i)
      invariant Trimmed(old(mem.nodes), mem.nodes)
      decreases |mem.nodes| - mem.nodes[n].parsers[i].node
    {
      ghost var h := mem.nodes;
      Chain(h, outside, n, i);
      var prs := mem.nodes[n].parsers[i];
      var childPrs := mem.nodes[prs.node].parsers[0];
      mem.nodes := mem.nodes[n := mem.nodes[n].(parsers := mem.nodes[n].parsers[i := Joined(prs, childPrs)])];
      mem.nodes := mem.nodes[prs.node := mem.nodes[prs.node].(parsers := [])];
      Unlinked(h, outside, n, i);
      mem.Delete(prs.node, outside, {});
      CompactCounts(h, outside, n, i);
      StepSame(h, mem.nodes, outside, n, i);
      SameTrans(old(mem.nodes), h, mem.nodes);
      CompactKeeps(h, mem.nodes, outside, n, i);
      CompactNoNew(h, mem.nodes, outside, n, i);
      CompactTrims(h, mem.nodes, outside, n, i);
      TrimmedTrans(old(mem.nodes), h, mem.nodes);
      KeepsTrans(old(mem.nodes), h, mem.nodes);
    }
  }

  lemma Chain(h: Heap, outside: multiset<NodeId>, n: NodeId, i: nat)
    requires WellFormed(h, outside) && n < |h| && i < |h[n].parsers| && Compactable(h, n, i)
    ensures var c := h[n].parsers[i].node;
      n < c < |h| && |h[c].parsers| == 1 && c < h[c].parsers[0].node < |h| && Forward(h)
    ensures OnlyParser(h, Compact(h, n, i), n, i)
  {
  }

  lemma SameRefl(h: Heap, outside: multiset<NodeId>)
    requires WellFormed(h, outside)
    ensures Same(h, h)
  {
  }

  /** Up to node `n` only parser `i` of that node may have changed, and not its configuration. */
  ghost predicate OnlyParser(h: Heap, r: Heap, n: NodeId, i: nat)
  {
    && |r| == |h| && n < |h| && (forall m :: 0 <= m < n ==> r[m] == h[m])
    && r[n].live == h[n].live && |r[n].parsers| == |h[n].parsers|
    && forall j :: 0 <= j < |h[n].parsers| ==>
         r[n].parsers[j].conf == h[n].parsers[j].conf && (j != i ==> r[n].parsers[j] == h[n].parsers[j])
  }

  // ----- sorting -----

  predicate Sorted(ps: seq<Parser>) {
    forall i, j :: 0 <= i < j < |ps| ==> ps[i].conf.prio <= ps[j].conf.prio
  }

  /** Stands for qsort with `qsort_parserCmp`: a permutation that is ordered by priority. */
  method SortParsers(ps: seq<Parser>) returns (sorted: seq<Parser>)
    ensures Sorted(sorted) && multiset(sorted) == multiset(ps)
  {
    sorted := [];
    var i := 0;
    while i < |ps|
      invariant i <= |ps| && Sorted(sorted) && multiset(sorted) == multiset(ps[..i])
    {
      assert ps[..i + 1] == ps[..i] + [ps[i]];
      sorted := InsertParser(sorted, ps[i]);
      i := i + 1;
    }
    assert ps[..|ps|] == ps;
  }

  lemma InsertCounts(ps: seq<Parser>, p: Parser, k: nat)
    requires k <= |ps|
    ensures multiset(ps[..k] + [p] + ps[k..]) == multiset(ps) + multiset{p}
  {
    assert ps == ps[..k] + ps[k..];
  }

  method InsertParser(ps: seq<Parser>, p: Parser) returns (r: seq<Parser>)
    requires Sorted(ps)
    ensures Sorted(r) && multiset(r) == multiset(ps) + multiset{p}
  {
    var k := |ps|;
    while k > 0 && ps[k - 1].conf.prio > p.conf.prio
      invariant 0 <= k <= |ps| && forall j :: k <= j < |ps| ==> ps[j].conf.prio > p.conf.prio
    {
      k := k - 1;
    }
    r := ps[..k] + [p] + ps[k..];
    InsertCounts(ps, p, k);
  }

  lemma WithoutLast(a: seq<Parser>, b: seq<Parser>) returns (i: nat)
    requires multiset(a) == multiset(b) && a != []
    ensures i < |b| && b[i] == a[|a| - 1] && multiset(a[..|a| - 1]) == multiset(b[..i] + b[i + 1..])
  {
    var last := a[|a| - 1];
    assert last in multiset(b);
    i :| 0 <= i < |b| && b[i] == last;
    assert a == a[..|a| - 1] + [last];
    assert b == b[..i] + [last] + b[i + 1..];
    assert multiset(a[..|a| - 1]) == multiset(a) - multiset{last};
    assert multiset(b[..i] + b[i + 1..]) == multiset(b) - multiset{last};
  }

  lemma {:induction false} TargetsPermuted(a: seq<Parser>, b: seq<Parser>)
    requires multiset(a) == multiset(b)
    ensures Targets(a) == Targets(b)
    decreases |a|
  {
    if a == [] {
      assert |multiset(b)| == 0;
    } else {
      var i := WithoutLast(a, b);
      TargetsPermuted(a[..|a| - 1], b[..i] + b[i + 1..]);
      hide Targets;
      assert a == a[..|a| - 1] + [a[|a| - 1]];
      TargetsPush(a[..|a| - 1], a[|a| - 1]);
      TargetsSplit(b, i);
      TargetsConcat(b[..i], b[i + 1..]);
    }
  }

  /** The heap with the parsers of one node in another order. */
  ghost predicate Reordered(h: Heap, r: Heap, n: NodeId) {
    && Forward(h) && Forward(r) && n < |h| == |r|
    && r == h[n := h[n].(parsers := r[n].parsers)] && multiset(r[n].parsers) == multiset(h[n].parsers)
  }

  lemma ReorderedFormed(h: Heap, outside: multiset<NodeId>, n: NodeId, ps: seq<Parser>)
    requires WellFormed(h, outside) && n < |h| && h[n].live && multiset(ps) == multiset(h[n].parsers)
    ensures var r := h[n := h[n].(parsers := ps)]; WellFormed(r, outside) && Reordered(h, r, n)
  {
    hide Edges, Targets;
    var r := h[n := h[n].(parsers := ps)];
    TargetsPermuted(ps, h[n].parsers);
    EdgesSet(h, n, r[n]);
    forall m: NodeId, i | m < |r| && 0 <= i < |r[m].parsers|
      ensures m < r[m].parsers[i].node < |r|
    {
      assert r[m].parsers[i] in multiset(h[m].parsers);
      var j :| 0 <= j < |h[m].parsers| && h[m].parsers[j] == r[m].parsers[i];
    }
    forall m: NodeId | m < |r|
      ensures CountedAt(r, m, outside)
    {
      assert CountedAt(h, m, outside);
      assert (Edges(r) + Targets(ps))[m] == (Edges(h) + Targets(ps))[m];
    }
  }

  /** The order of the parsers does not decide whether a message is accepted. */
  lemma {:induction false} ReorderedMatch(h: Heap, r: Heap, n: NodeId, inp: Input, m: NodeId, offs: nat, partial: bool)
    requires Reordered(h, r, n) && m < |h|
    ensures Match(r, inp, m, offs, partial).Some? <==> Match(h, inp, m, offs, partial).Some?
    decreases |h| - m
  {
    ReorderedLeads(h, r, n, inp, m, offs, partial);
    if MatchFrom(h, inp, m, 0, offs, partial).Some? {
      var j := MatchFromLeads(h, inp, m, 0, offs, partial);
      var k := SameParser(h[m].parsers, r[m].parsers, j);
      MatchFromReaches(r, inp, m, 0, k, offs, partial);
    }
    if MatchFrom(r, inp, m, 0, offs, partial).Some? {
      var j := MatchFromLeads(r, inp, m, 0, offs, partial);
      var k := SameParser(r[m].parsers, h[m].parsers, j);
      MatchFromReaches(h, inp, m, 0, k, offs, partial);
    }
  }

  lemma SameParser(a: seq<Parser>, b: seq<Parser>, j: nat) returns (k: nat)
    requires multiset(a) == multiset(b) && j < |a|
    ensures k < |b| && b[k] == a[j]
  {
    assert a[j] in multiset(b);
    k :| 0 <= k < |b| && b[k] == a[j];
  }

  lemma {:induction false} ReorderedLeads(h: Heap, r: Heap, n: NodeId, inp: Input, m: NodeId, offs: nat, partial: bool)
    requires Reordered(h, r, n) && m < |h|
    ensures multiset(r[m].parsers) == multiset(h[m].parsers)
    ensures forall j :: 0 <= j < |h[m].parsers| ==>
      (Leads(h, inp, h[m].parsers[j], offs, partial) <==> Leads(r, inp, h[m].parsers[j], offs, partial))
    decreases |h| - m, 0
  {
    forall j | 0 <= j < |h[m].parsers|
      ensures Leads(h, inp, h[m].parsers[j], offs, partial) <==> Leads(r, inp, h[m].parsers[j], offs, partial)
    {
      var p := h[m].parsers[j];
      var end := Parse(inp, p, offs);
      if end.Some? {
        ReorderedMatch(h, r, n, inp, p.node, end.value, partial);
      }
    }
  }

  // ----- the whole optimizer -----

  /** Every node that is left accepts the same messages as before. */
  ghost predicate Equivalent(h: Heap, r: Heap) {
    && Forward(h) && Forward(r) && |r| == |h|
    && (forall m :: 0 <= m < |r| && r[m].live ==> h[m].live)
    && (forall inp: Input, m: NodeId, offs: nat, partial: bool :: m < |r| && r[m].live ==>
          (Match(r, inp, m, offs, partial).Some? <==> Match(h, inp, m, offs, partial).Some?))
  }

  lemma EquivalentTrans(a: Heap, b: Heap, c: Heap)
    requires Equivalent(a, b) && Equivalent(b, c)
    ensures Equivalent(a, c)
  {
    hide Match;
  }

  lemma SameEquivalent(h: Heap, r: Heap)
    requires Same(h, r)
    ensures Equivalent(h, r)
  {
    hide Match, Mark;
  }

  lemma ReorderedEquivalent(h: Heap, r: Heap, n: NodeId)
    requires Reordered(h, r, n)
    ensures Equivalent(h, r)
  {
    hide Match;
    forall inp: Input, m: NodeId, offs: nat, partial: bool | m < |r| && r[m].live
      ensures Match(r, inp, m, offs, partial).Some? <==> Match(h, inp, m, offs, partial).Some?
    {
      ReorderedMatch(h, r, n, inp, m, offs, partial);
    }
  }

  /** Up to node `n` nothing but the parsers of that node may have changed. */
  ghost predicate Below(h: Heap, r: Heap, n: NodeId) {
    |r| == |h| && n < |h| && (forall m :: 0 <= m < n ==> r[m] == h[m]) && r[n].live == h[n].live
  }

  /** Nothing is left to do for the first `i` parsers of a sorted node, nor behind them. */
  ghost predicate PartDone(h: Heap, n: NodeId, i: nat) {
    && Forward(h) && n < |h| && i <= |h[n].parsers| && Sorted(h[n].parsers)
    && forall j :: 0 <= j < i ==> !Compactable(h, n, j) && AllDone(h, h[n].parsers[j].node)
  }

  lemma AllPartsDone(h: Heap, n: NodeId)
    requires Forward(h) && n < |h| && PartDone(h, n, |h[n].parsers|)
    ensures AllDone(h, n)
  {
    hide Compactable, Sorted;
  }

  /** Parser `i` and what lies behind it: first the chain is joined, then the rest optimized. */
  lemma OnePartMore(h: Heap, mid: Heap, r: Heap, outside: multiset<NodeId>, n: NodeId, i: nat)
    requires PartDone(h, n, i) && i < |h[n].parsers| && WellFormed(mid, outside) && WellFormed(r, outside)
    requires OnlyParser(h, mid, n, i) && Keeps(h, mid) && NoNewChains(h, mid, n, i) && !Compactable(mid, n, i)
    requires var c := mid[n].parsers[i].node; Below(mid, r, c) && NoNewChains(mid, r, c, 0)
    requires Keeps(mid, r) && AllDone(r, mid[n].parsers[i].node)
    ensures PartDone(r, n, i + 1)
  {
    hide WellFormed, Compactable, AllDone;
    FormedForward(mid, outside);
    FormedForward(r, outside);
    assert n < mid[n].parsers[i].node && r[n] == mid[n];
    forall j | 0 <= j < i
      ensures !Compactable(r, n, j) && AllDone(r, r[n].parsers[j].node)
    {
      TargetLive(mid, outside, n, j);
      TargetLive(r, outside, n, j);
      assert !Compactable(h, n, j) && mid[n].parsers[j] == h[n].parsers[j];
      assert !Compactable(mid, n, j);
    }
  }

  lemma NoNewTrans(a: Heap, b: Heap, c: Heap, n: NodeId, i: nat, k: NodeId)
    requires NoNewChains(a, b, n, 0) && Below(a, b, n) && Below(b, c, n)
    requires NoNewChains(b, c, k, i) && n <= k
    ensures NoNewChains(a, c, n, 0)
  {
    hide Compactable;
  }

  lemma NoNewRefl(h: Heap, n: NodeId)
    requires n < |h|
    ensures NoNewChains(h, h, n, 0)
  {
  }

  lemma NoPartDone(h: Heap, outside: multiset<NodeId>, n: NodeId)
    requires WellFormed(h, outside) && n < |h| && Sorted(h[n].parsers)
    ensures PartDone(h, n, 0)
  {
  }

  /** Sorting a node with several parsers. */
  lemma SortStep(h: Heap, outside: multiset<NodeId>, n: NodeId, ps: seq<Parser>)
    requires WellFormed(h, outside) && n < |h| && h[n].live && |h[n].parsers| > 1
    requires multiset(ps) == multiset(h[n].parsers) && Sorted(ps)
    ensures var r := h[n := h[n].(parsers := ps)];
      && WellFormed(r, outside) && Equivalent(h, r) && Below(h, r, n) && Keeps(h, r) && NoNewChains(h, r, n, 0)
      && Trimmed(h, r)
  {
    hide WellFormed, Equivalent, Keeps, Compactable, Sorted, Trimmed;
    var r := h[n := h[n].(parsers := ps)];
    ReorderedFormed(h, outside, n, ps);
    ReorderedEquivalent(h, r, n);
    ReorderKeeps(h, r, n);
    ReorderTrims(h, r, outside, n);
    forall m, j | 0 <= m < n && 0 <= j < |r[m].parsers|
      ensures Compactable(r, m, j) ==> Compactable(h, m, j)
    {
      ReorderOther(h, r, n, m, j);
    }
  }

  /** ln_pdagComponentOptimize: the same messages are accepted, and nothing is left to do at any
      node that can be reached. */
  method ComponentOptimize(mem: Memory, n: NodeId, ghost outside: multiset<NodeId>)
    requires n < |mem.nodes| && mem.nodes[n].live && WellFormed(mem.nodes, outside)
    modifies mem
    ensures WellFormed(mem.nodes, outside) && Equivalent(old(mem.nodes), mem.nodes)
    ensures Below(old(mem.nodes), mem.nodes, n)
    ensures Keeps(old(mem.nodes), mem.nodes) && NoNewChains(old(mem.nodes), mem.nodes, n, 0)
    ensures AllDone(mem.nodes, n) && Trimmed(old(mem.nodes), mem.nodes)
    decreases |mem.nodes| - n
  {
    hide WellFormed, Equivalent, Same, Edges, Compactable, Reordered, Keeps, AllDone, NoNewChains, PartDone, Trimmed;
    TrimmedRefl(mem.nodes);
    SameRefl(mem.nodes, outside);
    SameEquivalent(mem.nodes, mem.nodes);
    FormedForward(mem.nodes, outside);
    KeepsRefl(mem.nodes);
    NoNewRefl(mem.nodes, n);
    if |mem.nodes[n].parsers| > 1 {
      var sorted := SortParsers(mem.nodes[n].parsers);
      SortStep(mem.nodes, outside, n, sorted);
      mem.nodes := mem.nodes[n := mem.nodes[n].(parsers := sorted)];
    }
    NoPartDone(mem.nodes, outside, n);
    var i := 0;
    while i < |mem.nodes[n].parsers|
      invariant WellFormed(mem.nodes, outside) && Equivalent(old(mem.nodes), mem.nodes)
      invariant Below(old(mem.nodes), mem.nodes, n) && PartDone(mem.nodes, n, i)
      invariant Keeps(old(mem.nodes), mem.nodes) && NoNewChains(old(mem.nodes), mem.nodes, n, 0)
      invariant Trimmed(old(mem.nodes), mem.nodes)
      invariant i <= |mem.nodes[n].parsers|
      decreases |mem.nodes[n].parsers| - i
    {
      ghost var h := mem.nodes;
      OptLitPathCompact(mem, n, i, outside);
      ghost var mid := mem.nodes;
      SameEquivalent(h, mid);
      EquivalentTrans(old(mem.nodes), h, mid);
      KeepsTrans(old(mem.nodes), h, mid);
      TrimmedTrans(old(mem.nodes), h, mid);
      NoNewTrans(old(mem.nodes), h, mid, n, i, n);
      TargetLive(mid, outside, n, i);
      ComponentOptimize(mem, mem.nodes[n].parsers[i].node, outside);
      EquivalentTrans(old(mem.nodes), mid, mem.nodes);
      KeepsTrans(old(mem.nodes), mid, mem.nodes);
      TrimmedTrans(old(mem.nodes), mid, mem.nodes);
      NoNewTrans(old(mem.nodes), mid, mem.nodes, n, 0, mid[n].parsers[i].node);
      OnePartMore(h, mid, mem.nodes, outside, n, i);
      i := i + 1;
    }
    FormedForward(mem.nodes, outside);
    AllPartsDone(mem.nodes, n);
  }

  /** ln_pdagOptimize for the main rule base: exactly the same messages are accepted, all
      parsers are in order, and no literals are left that could be joined. */
  method Optimize(mem: Memory, root: NodeId)
    requires root < |mem.nodes| && mem.nodes[root].live && WellFormed(mem.nodes, multiset{root})
    modifies mem
    ensures WellFormed(mem.nodes, multiset{root}) && |mem.nodes| == |old(mem.nodes)|
    ensures forall inp :: Accepts(mem.nodes, inp, root, 0, false) <==> Accepts(old(mem.nodes), inp, root, 0, false)
    ensures AllDone(mem.nodes, root) && Trimmed(old(mem.nodes), mem.nodes)
  {
    ghost var h := mem.nodes;
    ComponentOptimize(mem, root, multiset{root});
    hide WellFormed, Match, Accepts;
    forall inp
      ensures Accepts(mem.nodes, inp, root, 0, false) <==> Accepts(h, inp, root, 0, false)
    {
      MatchIffAccepts(h, inp, root, 0, false);
      MatchIffAccepts(mem.nodes, inp, root, 0, false);
    }
  }
}
