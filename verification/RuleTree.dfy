/**
 How rules become a parse DAG: one edge at a time, re-using an edge that has the
 same configuration.  Without alternatives the result is a tree whose
 root-to-terminal paths are exactly the rules.
 */
module RuleTree {
  import opened Json
  import opened Pdag
  import opened PdagRefs
  import opened PdagMemory

  function NewParser(conf: Config, node: NodeId): Parser {
    Parser(conf, conf.text, node)
  }

  /** The first parser with this configuration, or the number of parsers. */
  function FindConf(ps: seq<Parser>, conf: Config): (i: nat)
    ensures i <= |ps| && (i < |ps| ==> ps[i].conf == conf)
    ensures forall j :: 0 <= j < i ==> ps[j].conf != conf
  {
    if ps == [] || ps[0].conf == conf then 0 else 1 + FindConf(ps[1..], conf)
  }

  function Push(h: Heap, n: NodeId, p: Parser): Heap
    requires n < |h|
  {
    h[n := h[n].(parsers := h[n].parsers + [p])]
  }

  /** ln_pdagAddParserInstance: the heap and the node to go on from. */
  function AddEdge(h: Heap, dag: NodeId, conf: Config, next: Option<NodeId>): (Heap, NodeId)
    requires dag < |h| && (next.Some? ==> next.value < |h|)
  {
    var i := FindConf(h[dag].parsers, conf);
    if i < |h[dag].parsers| then (h, h[dag].parsers[i].node)
    else if next.Some? then
      var r := Push(h, dag, NewParser(conf, next.value));
      (r[next.value := r[next.value].(refcnt := r[next.value].refcnt + 1)], next.value)
    else (Push(h, dag, NewParser(conf, |h|)) + [Node(true, [], false, 1)], |h|)
  }

  ghost predicate NoDuplicates(h: Heap) {
    forall n, i, j :: 0 <= n < |h| && 0 <= i < j < |h[n].parsers| ==> h[n].parsers[i].conf != h[n].parsers[j].conf
  }

  /** The place at which parsers are added, and the node that they must lead to, if there is one. */
  ghost predicate Cursor(h: Heap, dag: NodeId, next: Option<NodeId>) {
    && dag < |h| && h[dag].live
    && (next.Some? ==> dag < next.value < |h| && h[next.value].live)
  }

  /** Nothing but new nodes and new edges. */
  ghost predicate Grown(h: Heap, r: Heap) {
    |h| <= |r| && forall n :: 0 <= n < |h| ==>
      r[n].live == h[n].live && r[n].terminal == h[n].terminal && h[n].parsers <= r[n].parsers
  }

  /** Reference counts survive, and no node gets two parsers with the same configuration. */
  lemma AddEdgeFormed(h: Heap, outside: multiset<NodeId>, dag: NodeId, conf: Config, next: Option<NodeId>)
    requires WellFormed(h, outside) && NoDuplicates(h) && Cursor(h, dag, next)
    ensures var (r, n) := AddEdge(h, dag, conf, next);
      WellFormed(r, outside) && NoDuplicates(r) && Grown(h, r) && Cursor(r, dag, Some(n))
  {
    hide Edges, Targets;
    var i := FindConf(h[dag].parsers, conf);
    if i < |h[dag].parsers| {
      TargetLive(h, outside, dag, i);
    } else if next.Some? {
      AddEdgeShared(h, outside, dag, conf, next.value);
    } else {
      AddEdgeNew(h, outside, dag, conf);
    }
  }

  lemma PushEdges(h: Heap, n: NodeId, p: Parser)
    requires n < |h|
    ensures Edges(Push(h, n, p)) == Edges(h) + multiset{p.node}
  {
    hide Edges, Targets;
    var r := Push(h, n, p);
    EdgesSet(h, n, r[n]);
    TargetsPush(h[n].parsers, p);
    forall t: NodeId
      ensures Edges(r)[t] == (Edges(h) + multiset{p.node})[t]
    {
      assert (Edges(r) + Targets(h[n].parsers))[t] == (Edges(h) + Targets(r[n].parsers))[t];
    }
  }

  lemma AddEdgeShared(h: Heap, outside: multiset<NodeId>, dag: NodeId, conf: Config, next: NodeId)
    requires WellFormed(h, outside) && Cursor(h, dag, Some(next)) && FindConf(h[dag].parsers, conf) == |h[dag].parsers|
    ensures WellFormed(AddEdge(h, dag, conf, Some(next)).0, outside)
  {
    hide Edges, Targets;
    var p := NewParser(conf, next);
    var mid := Push(h, dag, p);
    PushEdges(h, dag, p);
    var r := mid[next := mid[next].(refcnt := mid[next].refcnt + 1)];
    EdgesSet(mid, next, r[next]);
    forall m: NodeId | m < |r|
      ensures CountedAt(r, m, outside)
    {
      assert CountedAt(h, m, outside);
      assert (Edges(r) + Targets(mid[next].parsers))[m] == (Edges(mid) + Targets(r[next].parsers))[m];
      assert Edges(mid)[m] == Edges(h)[m] + multiset{next}[m];
    }
  }

  lemma AddEdgeNew(h: Heap, outside: multiset<NodeId>, dag: NodeId, conf: Config)
    requires WellFormed(h, outside) && Cursor(h, dag, None) && FindConf(h[dag].parsers, conf) == |h[dag].parsers|
    ensures WellFormed(AddEdge(h, dag, conf, None).0, outside)
  {
    hide Edges, Targets;
    var p := NewParser(conf, |h|);
    var mid := Push(h, dag, p);
    PushEdges(h, dag, p);
    var node := Node(true, [], false, 1);
    var r := mid + [node];
    EdgesPush(mid, node);
    NoTargets();
    NoEdgeBeyond(h, |h|);
    forall m: NodeId | m < |r|
      ensures CountedAt(r, m, outside)
    {
      assert m < |h| ==> CountedAt(h, m, outside);
      assert Edges(mid)[m] == Edges(h)[m] + multiset{|h|}[m];
      assert (Edges(mid) + multiset{})[m] == Edges(mid)[m];
    }
  }

  lemma NoEdgeBeyond(h: Heap, t: NodeId)
    requires Forward(h) && t >= |h|
    ensures Edges(h)[t] == 0
  {
    if t in Edges(h) {
      var n, i := EdgeSource(h, t);
    }
  }

  // ----- configurations of whole rules -----

  /** A parser configuration: an object, one of type "alternative", or an array of them. */
  datatype PrsConf = Obj(conf: Config) | Alt(items: seq<PrsConf>) | Arr(items: seq<PrsConf>)

  datatype Mode = SEQ | ALTERNATIVE

  /** No array is empty: for an empty array the source goes on with a null pointer. */
  predicate Proper(c: PrsConf) {
    match c
    case Obj(_) => true
    case Alt(items) => items != [] && forall i :: 0 <= i < |items| ==> Proper(items[i])
    case Arr(items) => items != [] && forall i :: 0 <= i < |items| ==> Proper(items[i])
  }

  predicate NoAlternative(c: PrsConf) {
    match c
    case Obj(_) => true
    case Alt(_) => false
    case Arr(items) => forall i :: 0 <= i < |items| ==> NoAlternative(items[i])
  }

  /** The configurations in the order in which they are applied. */
  function Flatten(c: PrsConf): seq<Config>
    requires NoAlternative(c)
  {
    match c
    case Obj(conf) => [conf]
    case Arr(items) => FlattenAll(items)
  }

  function FlattenAll(items: seq<PrsConf>): seq<Config>
    requires forall i :: 0 <= i < |items| ==> NoAlternative(items[i])
  {
    if items == [] then [] else FlattenAll(items[..|items| - 1]) + Flatten(items[|items| - 1])
  }

  /** Add the edges of a whole path. */
  function AddPath(h: Heap, dag: NodeId, confs: seq<Config>): (r: (Heap, NodeId))
    requires dag < |h| && Forward(h)
    ensures dag <= r.1 < |r.0| && |h| <= |r.0| && Forward(r.0)
  {
    if confs == [] then (h, dag) else
    var (h1, n1) := AddPath(h, dag, confs[..|confs| - 1]);
    assert FindConf(h1[n1].parsers, confs[|confs| - 1]) <= |h1[n1].parsers|;
    AddEdge(h1, n1, confs[|confs| - 1], None)
  }

  lemma {:induction false} AddPathConcat(h: Heap, dag: NodeId, a: seq<Config>, b: seq<Config>)
    requires dag < |h| && Forward(h)
    ensures var (h1, n1) := AddPath(h, dag, a); AddPath(h, dag, a + b) == AddPath(h1, n1, b)
    decreases |b|
  {
    hide AddEdge;
    if b == [] {
      assert a + b == a;
    } else {
      var front := b[..|b| - 1];
      assert (a + b)[..|a + b| - 1] == a + front;
      AddPathConcat(h, dag, a, front);
    }
  }

  /** The same with a node to which the first parser must lead. */
  function AddPathFrom(h: Heap, dag: NodeId, confs: seq<Config>, next: Option<NodeId>): (r: (Heap, NodeId))
    requires dag < |h| && Forward(h) && (next.Some? ==> dag < next.value < |h|)
    ensures dag <= r.1 < |r.0| && |h| <= |r.0| && Forward(r.0)
    ensures confs != [] ==> dag < r.1
  {
    if confs == [] then (h, dag) else
    assert FindConf(h[dag].parsers, confs[0]) <= |h[dag].parsers|;
    var (h1, n1) := AddEdge(h, dag, confs[0], next);
    AddPath(h1, n1, confs[1..])
  }

  /** Alternatives, each a sequence of parsers: every one is added with the node
      where the one before it ended as the node to which its first parser must lead. */
  function AddAlts(h: Heap, dag: NodeId, words: seq<seq<Config>>, next: Option<NodeId>): (r: (Heap, Option<NodeId>))
    requires dag < |h| && Forward(h) && (next.Some? ==> dag < next.value < |h|)
    requires forall i :: 0 <= i < |words| ==> words[i] != []
    ensures |h| <= |r.0| && Forward(r.0) && (r.1.Some? ==> dag < r.1.value < |r.0|)
    ensures words != [] ==> r.1.Some?
  {
    if words == [] then (h, next) else
    var (h1, n1) := AddAlts(h, dag, words[..|words| - 1], next);
    var (h2, n2) := AddPathFrom(h1, dag, words[|words| - 1], n1);
    (h2, Some(n2))
  }

  lemma {:induction false} AddPathFromNone(h: Heap, dag: NodeId, confs: seq<Config>)
    requires dag < |h| && Forward(h)
    ensures AddPathFrom(h, dag, confs, None) == AddPath(h, dag, confs)
  {
    if confs != [] {
      assert [confs[0]] + confs[1..] == confs && [confs[0]][..0] == [];
      AddPathConcat(h, dag, [confs[0]], confs[1..]);
    }
  }

  lemma {:induction false} AddPathFromConcat(h: Heap, dag: NodeId, a: seq<Config>, b: seq<Config>, next: Option<NodeId>)
    requires dag < |h| && Forward(h) && (next.Some? ==> dag < next.value < |h|) && a != []
    ensures var (h1, n1) := AddPathFrom(h, dag, a, next); AddPathFrom(h, dag, a + b, next) == AddPath(h1, n1, b)
  {
    assert FindConf(h[dag].parsers, a[0]) <= |h[dag].parsers|;
    var (h1, n1) := AddEdge(h, dag, a[0], next);
    assert (a + b)[1..] == a[1..] + b;
    AddPathConcat(h1, n1, a[1..], b);
  }

  lemma {:induction false} FlattenNonEmpty(c: PrsConf)
    requires Proper(c) && NoAlternative(c)
    ensures Flatten(c) != []
    decreases c
  {
    if c.Arr? { FlattenNonEmpty(c.items[|c.items| - 1]); }
  }

  /** The alternatives as sequences of configurations. */
  function Words(items: seq<PrsConf>): (ws: seq<seq<Config>>)
    requires forall i :: 0 <= i < |items| ==> Proper(items[i]) && NoAlternative(items[i])
    ensures |ws| == |items| && forall i :: 0 <= i < |ws| ==> ws[i] == Flatten(items[i]) != []
  {
    if items == [] then [] else
    FlattenNonEmpty(items[|items| - 1]);
    Words(items[..|items| - 1]) + [Flatten(items[|items| - 1])]
  }

  // ----- the code -----

  method AddParserInstance(mem: Memory, conf: Config, dag: NodeId, next: Option<NodeId>,
      ghost outside: multiset<NodeId>)
    returns (node: NodeId)
    requires WellFormed(mem.nodes, outside) && NoDuplicates(mem.nodes) && Cursor(mem.nodes, dag, next)
    modifies mem
    ensures (mem.nodes, node) == AddEdge(old(mem.nodes), dag, conf, next)
    ensures WellFormed(mem.nodes, outside) && NoDuplicates(mem.nodes) && Grown(old(mem.nodes), mem.nodes)
    ensures Cursor(mem.nodes, dag, Some(node))
  {
    hide WellFormed, NoDuplicates;
    AddEdgeFormed(mem.nodes, outside, dag, conf, next);
    var i := 0;
    while i < |mem.nodes[dag].parsers|
      invariant i <= FindConf(mem.nodes[dag].parsers, conf)
    {
      if mem.nodes[dag].parsers[i].conf == conf {
        return mem.nodes[dag].parsers[i].node;
      }
      i := i + 1;
    }
    if next.None? {
      node := |mem.nodes|;
      mem.nodes := mem.nodes + [Node(true, [], false, 1)];
    } else {
      node := next.value;
      mem.nodes := mem.nodes[node := mem.nodes[node].(refcnt := mem.nodes[node].refcnt + 1)];
    }
    var parser := NewParser(conf, node);
    mem.nodes := mem.nodes[dag := mem.nodes[dag].(parsers := mem.nodes[dag].parsers + [parser])];
    assert mem.nodes == AddEdge(old(mem.nodes), dag, conf, next).0;
  }

  /** Everything that adding parsers keeps. */
  ghost predicate Sound(h: Heap, outside: multiset<NodeId>, dag: NodeId, next: Option<NodeId>) {
    WellFormed(h, outside) && NoDuplicates(h) && Cursor(h, dag, next)
  }

  lemma GrownRefl(h: Heap)
    ensures Grown(h, h)
  {
  }

  lemma GrownTrans(a: Heap, b: Heap, c: Heap)
    requires Grown(a, b) && Grown(b, c)
    ensures Grown(a, c)
  {
  }

  lemma SoundMove(h: Heap, r: Heap, outside: multiset<NodeId>, dag: NodeId, next: Option<NodeId>, node: NodeId)
    requires Sound(h, outside, dag, next) && Grown(h, r) && Sound(r, outside, node, None)
    ensures Sound(r, outside, dag, None)
  {
  }

  ghost predicate NoneAlternative(items: seq<PrsConf>) {
    forall i :: 0 <= i < |items| ==> Proper(items[i]) && NoAlternative(items[i])
  }

  /** What adding these parsers, without alternatives inside, has led to. */
  ghost predicate Added(h0: Heap, dag0: NodeId, items: seq<PrsConf>, mode: Mode, next0: Option<NodeId>,
      h: Heap, dag: NodeId, next: Option<NodeId>)
  {
    NoneAlternative(items) && dag0 < |h0| && Forward(h0) && (next0.Some? ==> dag0 < next0.value < |h0|) &&
    if mode == ALTERNATIVE then dag == dag0 && (h, next) == AddAlts(h0, dag0, Words(items), next0)
    else if items == [] then h == h0 && dag == dag0 && next == next0
    else FlattenAll(items) != [] && (h, dag) == AddPathFrom(h0, dag0, FlattenAll(items), next0) && next == None
  }

  lemma {:induction false} AlternativeMore(h0: Heap, dag0: NodeId, items: seq<PrsConf>, next0: Option<NodeId>,
      c: PrsConf)
    requires dag0 < |h0| && Forward(h0) && (next0.Some? ==> dag0 < next0.value < |h0|)
    requires NoneAlternative(items) && Proper(c) && NoAlternative(c)
    ensures NoneAlternative(items + [c])
    ensures var (h, next) := AddAlts(h0, dag0, Words(items), next0);
      var (r, n) := AddPathFrom(h, dag0, Flatten(c), next);
      AddAlts(h0, dag0, Words(items + [c]), next0) == (r, Some(n))
  {
    hide AddPathFrom, Flatten, Proper, NoAlternative;
    assert (items + [c])[..|items|] == items;
    assert Words(items + [c]) == Words(items) + [Flatten(c)];
    assert (Words(items) + [Flatten(c)])[..|items|] == Words(items);
  }

  lemma {:induction false} SequenceMore(h0: Heap, dag0: NodeId, items: seq<PrsConf>, next0: Option<NodeId>,
      h: Heap, dag: NodeId, c: PrsConf)
    requires dag0 < |h0| && Forward(h0) && (next0.Some? ==> dag0 < next0.value < |h0|) && dag < |h| && Forward(h)
    requires NoneAlternative(items) && Proper(c) && NoAlternative(c)
    requires if items == [] then h == h0 && dag == dag0
             else FlattenAll(items) != [] && (h, dag) == AddPathFrom(h0, dag0, FlattenAll(items), next0)
    ensures NoneAlternative(items + [c]) && FlattenAll(items + [c]) != []
    ensures AddPathFrom(h0, dag0, FlattenAll(items + [c]), next0) ==
            AddPathFrom(h, dag, Flatten(c), if items == [] then next0 else None)
  {
    hide AddPath, Flatten, Proper, NoAlternative, AddEdge;
    FlattenNonEmpty(c);
    assert (items + [c])[..|items|] == items;
    if items == [] {
      assert FlattenAll(items + [c]) == [] + Flatten(c) == Flatten(c);
    } else {
      AddPathFromConcat(h0, dag0, FlattenAll(items), Flatten(c), next0);
      AddPathFromNone(h, dag, Flatten(c));
    }
  }

  /** One more element. */
  lemma {:induction false} AddedMore(h0: Heap, dag0: NodeId, items: seq<PrsConf>, mode: Mode, next0: Option<NodeId>,
      h: Heap, dag: NodeId, next: Option<NodeId>, c: PrsConf, r: Heap, n: NodeId)
    requires Added(h0, dag0, items, mode, next0, h, dag, next) && Proper(c) && NoAlternative(c)
    requires dag < |h| && Forward(h) && (next.Some? ==> dag < next.value < |h|)
    requires (r, n) == AddPathFrom(h, dag, Flatten(c), next)
    ensures Added(h0, dag0, items + [c], mode, next0, r, if mode == SEQ then n else dag0,
                  if mode == SEQ then None else Some(n))
  {
    hide AddPath, AddPathFrom, AddAlts, Flatten, FlattenAll, Words, Proper, AddEdge;
    if mode == SEQ {
      SequenceMore(h0, dag0, items, next0, h, dag, c);
    } else {
      AlternativeMore(h0, dag0, items, next0, c);
    }
  }

  /** ln_pdagAddParsers: an array of parsers, one after the other or side by side.
      The result `last` is `*p_nextnode`. */
  method AddParsers(mem: Memory, items: seq<PrsConf>, mode: Mode, dag0: NodeId, next0: Option<NodeId>,
                    ghost outside: multiset<NodeId>)
    returns (ok: bool, dag: NodeId, last: Option<NodeId>)
    requires Sound(mem.nodes, outside, dag0, next0)
    requires items != [] && forall i :: 0 <= i < |items| ==> Proper(items[i])
    modifies mem
    ensures Sound(mem.nodes, outside, dag0, None) && Grown(old(mem.nodes), mem.nodes)
    ensures ok ==> Cursor(mem.nodes, dag0, Some(dag)) && last == if mode == SEQ then Some(dag) else next0
    ensures ok <==> NoneAlternative(items)
    ensures ok ==>
      Added(old(mem.nodes), dag0, items, mode, next0, mem.nodes, if mode == SEQ then dag else dag0,
            if mode == SEQ then None else Some(dag))
    decreases items, 1
  {
    hide WellFormed, NoDuplicates, AddEdge, Proper, NoAlternative, Added, Grown, AddPathFrom;
    ghost var plain := NoneAlternative(items);
    SoundForward(mem.nodes, outside, dag0, next0);
    NothingAdded(mem.nodes, dag0, mode, next0);
    GrownRefl(mem.nodes);
    dag, last := dag0, next0;
    var nextnode, i := next0, 0;
    assert items[..0] == [];
    while i < |items|
      invariant i <= |items| && Grown(old(mem.nodes), mem.nodes)
      invariant Sound(mem.nodes, outside, dag0, None) && Sound(mem.nodes, outside, dag, nextnode)
      invariant mode == ALTERNATIVE ==> dag == dag0 && last == next0 && (i > 0 ==> nextnode.Some?)
      invariant mode == SEQ && i > 0 ==> dag > dag0 && last == Some(dag) && nextnode == None
      invariant mode == SEQ && i == 0 ==> dag == dag0 && nextnode == next0
      invariant NoneAlternative(items[..i])
      invariant plain ==> Added(old(mem.nodes), dag0, items[..i], mode, next0, mem.nodes, dag, nextnode)
    {
      ghost var h, d, next := mem.nodes, dag, nextnode;
      SoundForward(h, outside, d, next);
      var n;
      match items[i] {
        case Obj(conf) =>
          OnePath(h, outside, d, items[i], next);
          n := AddParserInstance(mem, conf, dag, nextnode, outside);
        case Alt(_) =>
          IsAlternative(items[i]);
          HasAlternative(items, i);
          return false, dag, last; // ln_newParser knows no type "alternative"
        case Arr(more) =>
          var done, localDag, localNext := AddParserInternal(mem, items[i], mode, dag, nextnode, outside);
          GrownTrans(old(mem.nodes), h, mem.nodes);
          SoundMove(h, mem.nodes, outside, dag0, None, d);
          if !done {
            HasAlternative(items, i);
            return false, dag, last;
          }
          n := localDag;
      }
      GrownTrans(old(mem.nodes), h, mem.nodes);
      SoundMove(h, mem.nodes, outside, dag0, None, d);
      if plain {
        AddedMore(old(mem.nodes), dag0, items[..i], mode, next0, h, d, next, items[i], mem.nodes, n);
        assert items[..i + 1] == items[..i] + [items[i]];
      }
      nextnode := Some(n);
      if mode == SEQ {
        dag, last, nextnode := n, Some(n), None;
      }
      i := i + 1;
    }
    assert items[..i] == items;
    if mode == ALTERNATIVE {
      dag := nextnode.value;
    }
    ok := true;
  }

  lemma NothingAdded(h: Heap, dag: NodeId, mode: Mode, next: Option<NodeId>)
    requires dag < |h| && Forward(h) && (next.Some? ==> dag < next.value < |h|)
    ensures Added(h, dag, [], mode, next, h, dag, next)
  {
  }

  lemma HasAlternative(items: seq<PrsConf>, i: nat)
    requires i < |items| && !NoAlternative(items[i])
    ensures !NoneAlternative(items)
  {
  }

  lemma IsAlternative(c: PrsConf)
    ensures c.Alt? ==> !NoAlternative(c)
    ensures c.Obj? ==> NoAlternative(c)
  {
  }

  lemma SoundForward(h: Heap, outside: multiset<NodeId>, dag: NodeId, next: Option<NodeId>)
    requires Sound(h, outside, dag, next)
    ensures Forward(h) && dag < |h| && (next.Some? ==> dag < next.value < |h|)
  {
  }

  lemma OnePath(h: Heap, outside: multiset<NodeId>, dag: NodeId, c: PrsConf, next: Option<NodeId>)
    requires Sound(h, outside, dag, next) && c.Obj?
    ensures NoAlternative(c) && Proper(c) && Forward(h) && dag < |h| && (next.Some? ==> dag < next.value < |h|)
    ensures AddPathFrom(h, dag, Flatten(c), next) == AddEdge(h, dag, c.conf, next)
  {
  }

  /** ln_pdagAddParserInternal */
  method AddParserInternal(mem: Memory, c: PrsConf, mode: Mode, dag0: NodeId, next0: Option<NodeId>,
                           ghost outside: multiset<NodeId>)
    returns (ok: bool, dag: NodeId, next: Option<NodeId>)
    requires Sound(mem.nodes, outside, dag0, next0) && Proper(c)
    modifies mem
    ensures Sound(mem.nodes, outside, dag0, None) && Grown(old(mem.nodes), mem.nodes)
    ensures ok && (c.Obj? ==> mode == SEQ) ==> Cursor(mem.nodes, dag0, Some(dag))
    ensures ok && !c.Alt? && (c.Obj? ==> mode == SEQ) ==> next == Some(dag)
    ensures Forward(old(mem.nodes)) && dag0 < |old(mem.nodes)|
    ensures next0.Some? ==> dag0 < next0.value < |old(mem.nodes)|
    ensures ok <==> NoAlternative(c) || (c.Alt? && NoneAlternative(c.items))
    ensures NoAlternative(c) && (c.Obj? ==> mode == SEQ) ==>
      (mem.nodes, dag) == AddPathFrom(old(mem.nodes), dag0, Flatten(c), next0)
    ensures c.Alt? && NoneAlternative(c.items) ==>
      (mem.nodes, Some(dag)) == AddAlts(old(mem.nodes), dag0, Words(c.items), next0)
    decreases c, 2
  {
    hide WellFormed, NoDuplicates, AddEdge;
    dag, next := dag0, next0;
    SoundForward(mem.nodes, outside, dag0, next0);
    match c {
      case Obj(conf) =>
        OnePath(mem.nodes, outside, dag0, c, next0);
        var n := AddParserInstance(mem, conf, dag, next, outside);
        next := Some(n);
        if mode == SEQ { dag := n; }
        ok := true;
      case Alt(items) =>
        ok, dag, next := AddParsers(mem, items, ALTERNATIVE, dag0, next0, outside);
        if !ok { dag := dag0; }
      case Arr(items) =>
        ok, dag, next := AddParsers(mem, items, SEQ, dag0, next0, outside);
        if !ok { dag := dag0; }
    }
  }
}
