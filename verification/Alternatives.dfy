/**
 What an `alternative` accepts.  Its parsers are added to one node one after the
 other and are meant to lead to one common node behind it; a parser that the node
 already has is used as it is, and the rest follows it.
 */
module Alternatives {
  import opened Json
  import opened Pdag
  import opened RuleTree

  /** Where the parser with this configuration leads. */
  function Goes(h: Heap, dag: NodeId, conf: Config): Option<NodeId>
    requires dag < |h|
  {
    var ps := h[dag].parsers;
    var i := FindConf(ps, conf);
    if i < |ps| then Some(ps[i].node) else None
  }

  function Singles(confs: seq<Config>): (ws: seq<seq<Config>>)
    ensures |ws| == |confs| && forall i :: 0 <= i < |ws| ==> ws[i] == [confs[i]]
  {
    seq(|confs|, (i: nat) requires i < |confs| => [confs[i]])
  }

  /** All of them lead to the same node. */
  ghost predicate Joined(h: Heap, dag: NodeId, confs: seq<Config>, n: NodeId)
    requires dag < |h|
  {
    forall i :: 0 <= i < |confs| ==> Goes(h, dag, confs[i]) == Some(n)
  }

  /** Before anything is added: the node has none of the parsers, or it has the first,
      and those that it has lead to one node. */
  ghost predicate CanJoin(h: Heap, dag: NodeId, confs: seq<Config>)
    requires dag < |h| && confs != []
  {
    forall i :: 0 <= i < |confs| ==> Goes(h, dag, confs[i]).None? || Goes(h, dag, confs[i]) == Goes(h, dag, confs[0])
  }

  lemma {:induction false} GoesAfter(h: Heap, dag: NodeId, conf: Config, next: Option<NodeId>)
    requires dag < |h| && Forward(h) && (next.Some? ==> dag < next.value < |h|)
    ensures var (r, n) := AddEdge(h, dag, conf, next);
      && |h| <= |r| && dag < n < |r| && Goes(r, dag, conf) == Some(n)
      && (forall c :: c != conf ==> Goes(r, dag, c) == Goes(h, dag, c))
      && n == (if Goes(h, dag, conf).Some? then Goes(h, dag, conf).value else if next.Some? then next.value else |h|)
  {
    var (r, n) := AddEdge(h, dag, conf, next);
    if FindConf(h[dag].parsers, conf) == |h[dag].parsers| {
      var p := NewParser(conf, n);
      assert r[dag].parsers == h[dag].parsers + [p];
      forall c ensures FindConf(h[dag].parsers + [p], c) ==
        if FindConf(h[dag].parsers, c) < |h[dag].parsers| then FindConf(h[dag].parsers, c)
        else if c == conf then |h[dag].parsers| else |h[dag].parsers| + 1
      {
        FindAppended(h[dag].parsers, p, c);
      }
    }
  }

  lemma {:induction false} FindAppended(ps: seq<Parser>, p: Parser, c: Config)
    ensures FindConf(ps + [p], c) ==
      if FindConf(ps, c) < |ps| then FindConf(ps, c) else if c == p.conf then |ps| else |ps| + 1
    decreases |ps|
  {
    if ps != [] {
      assert (ps + [p])[1..] == ps[1..] + [p];
      FindAppended(ps[1..], p, c);
    } else {
      assert (ps + [p])[1..] == [];
    }
  }

  lemma {:induction false} LastAlternative(h: Heap, dag: NodeId, confs: seq<Config>)
    requires dag < |h| && Forward(h) && confs != []
    ensures var front := confs[..|confs| - 1];
      var (h1, n1) := AddAlts(h, dag, Singles(front), None);
      var (r, n) := AddEdge(h1, dag, confs[|confs| - 1], n1);
      AddAlts(h, dag, Singles(confs), None) == (r, Some(n))
  {
    hide AddEdge;
    assert Singles(confs)[..|confs| - 1] == Singles(confs[..|confs| - 1]);
  }

  function First(h: Heap, dag: NodeId, confs: seq<Config>): NodeId
    requires dag < |h| && confs != []
  {
    if Goes(h, dag, confs[0]).Some? then Goes(h, dag, confs[0]).value else |h|
  }

  /** What adding single parsers as alternatives has done to the node. */
  ghost predicate After(h: Heap, r: Heap, dag: NodeId, confs: seq<Config>, n: NodeId)
    requires dag < |h| <= |r| && confs != []
  {
    && (forall c :: Goes(h, dag, c).Some? ==> Goes(r, dag, c) == Goes(h, dag, c))
    && (forall c :: Goes(r, dag, c).Some? ==> Goes(h, dag, c).Some? || c in confs)
    && Goes(r, dag, confs[0]) == Some(First(h, dag, confs))
    && (CanJoin(h, dag, confs) ==> n == First(h, dag, confs) && Joined(r, dag, confs, n))
  }

  /** One edge, as `GoesAfter` describes it. */
  ghost predicate OneEdge(h: Heap, r: Heap, dag: NodeId, conf: Config, next: Option<NodeId>, n: NodeId)
    requires dag < |h| <= |r|
  {
    && Goes(r, dag, conf) == Some(n) && (forall c :: c != conf ==> Goes(r, dag, c) == Goes(h, dag, c))
    && n == (if Goes(h, dag, conf).Some? then Goes(h, dag, conf).value else if next.Some? then next.value else |h|)
  }

  lemma {:induction false} FirstSingle(h: Heap, r: Heap, dag: NodeId, conf: Config, n: NodeId)
    requires dag < |h| <= |r| && OneEdge(h, r, dag, conf, None, n)
    ensures After(h, r, dag, [conf], n)
  {
    hide Goes;
  }

  lemma {:induction false} NextSingle(h: Heap, h1: Heap, r: Heap, dag: NodeId, confs: seq<Config>, n1: NodeId,
      conf: Config, n: NodeId)
    requires dag < |h| <= |h1| <= |r| && confs != []
    requires After(h, h1, dag, confs, n1) && OneEdge(h1, r, dag, conf, Some(n1), n)
    ensures After(h, r, dag, confs + [conf], n)
  {
    hide Goes, CanJoin, Joined;
    if CanJoin(h, dag, confs + [conf]) {
      CanJoinFront(h, dag, confs, conf);
      assert Goes(h1, dag, conf).Some? && Goes(h, dag, conf).None? ==> conf in confs;
      JoinedByOne(h1, r, dag, confs, n1, conf, n);
    }
  }

  lemma {:induction false} CanJoinFront(h: Heap, dag: NodeId, confs: seq<Config>, conf: Config)
    requires dag < |h| && confs != [] && CanJoin(h, dag, confs + [conf])
    ensures CanJoin(h, dag, confs) && First(h, dag, confs) == First(h, dag, confs + [conf])
    ensures Goes(h, dag, conf).Some? ==> Goes(h, dag, conf) == Goes(h, dag, confs[0])
  {
    hide Goes;
    var all := confs + [conf];
    assert all[|confs|] == conf && all[0] == confs[0];
    forall i | 0 <= i < |confs|
      ensures Goes(h, dag, confs[i]).None? || Goes(h, dag, confs[i]) == Goes(h, dag, confs[0])
    {
      assert all[i] == confs[i];
    }
  }

  lemma {:induction false} JoinedByOne(h1: Heap, r: Heap, dag: NodeId, confs: seq<Config>, n1: NodeId,
      conf: Config, n: NodeId)
    requires dag < |h1| <= |r| && Joined(h1, dag, confs, n1) && OneEdge(h1, r, dag, conf, Some(n1), n)
    requires Goes(h1, dag, conf).None? || conf in confs || Goes(h1, dag, conf) == Some(n1)
    ensures n == n1 && Joined(r, dag, confs + [conf], n)
  {
    hide Goes;
  }

  lemma NoAlternatives(h: Heap, dag: NodeId)
    requires dag < |h| && Forward(h)
    ensures AddAlts(h, dag, Singles([]), None) == (h, None)
  {
  }

  lemma {:induction false} AddSingles(h: Heap, dag: NodeId, confs: seq<Config>)
    requires dag < |h| && Forward(h) && confs != []
    ensures var (r, n) := AddAlts(h, dag, Singles(confs), None);
      |h| <= |r| && n.Some? && After(h, r, dag, confs, n.value)
    decreases |confs|
  {
    var front, c := confs[..|confs| - 1], confs[|confs| - 1];
    LastAlternative(h, dag, confs);
    NoAlternatives(h, dag);
    var (h1, n1) := AddAlts(h, dag, Singles(front), None);
    hide AddAlts, AddEdge, Goes, FindConf, After;
    GoesAfter(h1, dag, c, n1);
    var (r, n) := AddEdge(h1, dag, c, n1);
    assert confs == front + [c];
    if front == [] {
      FirstSingle(h, r, dag, c, n);
    } else {
      AddSingles(h, dag, front);
      NextSingle(h, h1, r, dag, front, n1.value, c, n);
    }
  }

  /** Alternatives of single parsers lead to one common node, the one from which the
      rule goes on, exactly if they can. */
  lemma {:induction false} SinglesJoin(h: Heap, dag: NodeId, confs: seq<Config>)
    requires dag < |h| && Forward(h) && confs != []
    ensures var (r, n) := AddAlts(h, dag, Singles(confs), None);
      Joined(r, dag, confs, n.value) <==> CanJoin(h, dag, confs)
  {
    AddSingles(h, dag, confs);
    var (r, n) := AddAlts(h, dag, Singles(confs), None);
    TargetsExist(h, dag);
    hide AddAlts, Goes, Forward;
    if Joined(r, dag, confs, n.value) {
      forall i | 0 <= i < |confs| && Goes(h, dag, confs[i]).Some?
        ensures Goes(h, dag, confs[i]) == Goes(h, dag, confs[0])
      {
        assert Goes(r, dag, confs[i]) == Goes(r, dag, confs[0]);
      }
    }
  }

  lemma TargetsExist(h: Heap, dag: NodeId)
    requires dag < |h| && Forward(h)
    ensures forall c :: Goes(h, dag, c).Some? ==> Goes(h, dag, c).value < |h|
  {
  }

  // ----- what is accepted -----

  /** The parser matches, and the rest of the message is accepted behind it. */
  ghost predicate Continues(h: Heap, inp: Input, conf: Config, n: NodeId, offs: nat)
    requires Forward(h) && n < |h|
  {
    var end := Parse(inp, NewParser(conf, n), offs);
    end.Some? && Accepts(h, inp, n, end.value, false)
  }

  /** The node has these parsers and no others, and they lead to `n`. */
  ghost predicate OnlyThese(h: Heap, dag: NodeId, confs: seq<Config>, n: NodeId) {
    && Forward(h) && dag < |h| && n < |h| && !h[dag].terminal
    && (forall i :: 0 <= i < |h[dag].parsers| ==>
          var p := h[dag].parsers[i]; p.conf in confs && p.node == n && p.text == p.conf.text)
    && (forall c :: c in confs ==> exists i :: 0 <= i < |h[dag].parsers| && h[dag].parsers[i].conf == c)
  }

  /** A message is accepted from a node on exactly if one of its parsers matches and the
      rest is accepted behind it. */
  lemma {:induction false} FirstStep(h: Heap, inp: Input, dag: NodeId, offs: nat)
    requires Forward(h) && dag < |h| && !h[dag].terminal
    requires forall i :: 0 <= i < |h[dag].parsers| ==> h[dag].parsers[i].text == h[dag].parsers[i].conf.text
    ensures Accepts(h, inp, dag, offs, false) <==>
      exists i :: 0 <= i < |h[dag].parsers| && Continues(h, inp, h[dag].parsers[i].conf, h[dag].parsers[i].node, offs)
  {
    if path :| Accepting(h, inp, dag, offs, path, false) {
      var p := h[dag].parsers[path[0]];
      assert Accepting(h, inp, p.node, Parse(inp, p, offs).value, path[1..], false);
      assert Continues(h, inp, p.conf, p.node, offs);
    }
    if i :| 0 <= i < |h[dag].parsers| && Continues(h, inp, h[dag].parsers[i].conf, h[dag].parsers[i].node, offs) {
      var p := h[dag].parsers[i];
      var path :| Accepting(h, inp, p.node, Parse(inp, p, offs).value, path, false);
      WalkFirst(h, inp, dag, offs, i, path);
      assert Accepting(h, inp, dag, offs, [i] + path, false);
    }
  }

  /** Joined alternatives accept what one of them matches, followed by what is accepted
      from the common node on. */
  lemma {:induction false} AlternativeAccepts(h: Heap, inp: Input, dag: NodeId, offs: nat, confs: seq<Config>,
      n: NodeId)
    requires OnlyThese(h, dag, confs, n)
    ensures Accepts(h, inp, dag, offs, false) <==> exists c :: c in confs && Continues(h, inp, c, n, offs)
  {
    hide Continues, Accepts;
    FirstStep(h, inp, dag, offs);
    if c :| c in confs && Continues(h, inp, c, n, offs) {
      var i :| 0 <= i < |h[dag].parsers| && h[dag].parsers[i].conf == c;
      assert Continues(h, inp, h[dag].parsers[i].conf, h[dag].parsers[i].node, offs);
    }
  }

  /** At a node without parsers, alternatives of single parsers always join. */
  lemma {:induction false} AtEmptyNode(h: Heap, dag: NodeId, confs: seq<Config>)
    requires dag < |h| && Forward(h) && confs != [] && h[dag].parsers == []
    ensures var (r, n) := AddAlts(h, dag, Singles(confs), None); Joined(r, dag, confs, n.value) && n.value == |h|
  {
    SinglesJoin(h, dag, confs);
    AddSingles(h, dag, confs);
  }

  // ----- alternatives that do not join -----

  const ROOT := Node(true, [], false, 1)

  lemma {:induction false} TwoAlternatives(h: Heap, v: seq<Config>, w: seq<Config>)
    requires |h| > 0 && Forward(h) && v != [] && w != []
    ensures var (h1, n1) := AddPathFrom(h, 0, v, None);
      var (h2, n2) := AddPathFrom(h1, 0, w, Some(n1));
      AddAlts(h, 0, [v, w], None) == (h2, Some(n2))
  {
    hide AddPathFrom;
    assert [v, w][..1] == [v] && [v][..0] == [];
    assert AddAlts(h, 0, [], None) == (h, None);
    var (h1, n1) := AddPathFrom(h, 0, v, None);
    assert AddAlts(h, 0, [v], None) == (h1, Some(n1));
  }

  lemma {:induction false} SingleFrom(h: Heap, dag: NodeId, c: Config, next: Option<NodeId>)
    requires dag < |h| && Forward(h) && (next.Some? ==> dag < next.value < |h|)
    ensures AddPathFrom(h, dag, [c], next) == AddEdge(h, dag, c, next)
  {
    assert [c][1..] == [];
  }

  lemma {:induction false} PairFrom(h: Heap, dag: NodeId, b: Config, c: Config, next: Option<NodeId>, h1: Heap,
      n1: NodeId)
    requires dag < |h| && Forward(h) && (next.Some? ==> dag < next.value < |h|) && n1 < |h1| && Forward(h1)
    requires AddEdge(h, dag, b, next) == (h1, n1)
    ensures AddPathFrom(h, dag, [b, c], next) == AddEdge(h1, n1, c, None)
  {
    assert [b, c][1..] == [c];
    assert AddPath(h1, n1, [c]) == AddEdge(h1, n1, c, None) by { assert [c][..0] == []; }
  }

  /** A new parser that leads to a new node. */
  lemma {:induction false} NewNode(h: Heap, dag: NodeId, c: Config)
    requires dag < |h| && FindConf(h[dag].parsers, c) == |h[dag].parsers|
    ensures AddEdge(h, dag, c, None) ==
      (h[dag := h[dag].(parsers := h[dag].parsers + [NewParser(c, |h|)])] + [Node(true, [], false, 1)], |h|)
  {
  }

  /** A new parser that leads to a given node. */
  lemma {:induction false} SharedEdge(h: Heap, dag: NodeId, c: Config, n: NodeId)
    requires dag < n < |h| && FindConf(h[dag].parsers, c) == |h[dag].parsers|
    ensures AddEdge(h, dag, c, Some(n)) ==
      (h[dag := h[dag].(parsers := h[dag].parsers + [NewParser(c, n)])][n := h[n].(refcnt := h[n].refcnt + 1)], n)
  {
  }

  /** With the rule `a` in the rule base, the alternative `b | a` does not join: the rule goes
      on behind `a`, and nothing ever follows the node behind `b`. */
  lemma {:induction false} JoinExample(a: Config, b: Config)
    requires a != b
    ensures var h := [Node(true, [NewParser(a, 1)], false, 1), ROOT];
      Forward(h) && !CanJoin(h, 0, [b, a]) &&
      AddAlts(h, 0, Singles([b, a]), None) ==
        ([Node(true, [NewParser(a, 1), NewParser(b, 2)], false, 1), ROOT, ROOT], Some(1))
  {
    hide AddPath, AddPathFrom, AddAlts;
    var pa, pb := NewParser(a, 1), NewParser(b, 2);
    var h := [Node(true, [pa], false, 1), ROOT];
    assert FindConf([pa], b) == 1;
    NewNode(h, 0, b);
    assert [pa] + [pb] == [pa, pb];
    var r := [Node(true, [pa, pb], false, 1), ROOT, ROOT];
    assert h[0 := Node(true, [pa, pb], false, 1)] + [ROOT] == r;
    SingleFrom(h, 0, b, None);
    SingleFrom(r, 0, a, Some(2));
    TwoAlternatives(h, [b], [a]);
    assert Singles([b, a]) == [[b], [a]];
    assert [b, a][0] == b && [b, a][1] == a;
  }

  // ----- a sequence among the alternatives -----

  /** The rule `a | (b, c)` on an empty rule base: `b` is made to lead to where `a` leads,
      and `c` follows both. */
  function SequenceLast(a: Config, b: Config, c: Config): Heap {
    [Node(true, [NewParser(a, 1), NewParser(b, 1)], false, 1), Node(true, [NewParser(c, 2)], false, 2),
     Node(true, [], true, 1)]
  }

  /** The rule `(b, c) | a`. */
  function SequenceFirst(a: Config, b: Config, c: Config): Heap {
    [Node(true, [NewParser(b, 1), NewParser(a, 2)], false, 1), Node(true, [NewParser(c, 2)], false, 1),
     Node(true, [], true, 2)]
  }

  lemma {:induction false} SequenceFirstIs(a: Config, b: Config, c: Config)
    requires a != b
    ensures Forward([ROOT])
    ensures var (r, n) := AddAlts([ROOT], 0, [[b, c], [a]], None);
            n == Some(2) && |r| == 3 && r[2 := r[2].(terminal := true)] == SequenceFirst(a, b, c)
  {
    hide AddEdge, AddPath, AddPathFrom, AddAlts;
    var pa, pb, pc := NewParser(a, 2), NewParser(b, 1), NewParser(c, 2);
    var h1 := [Node(true, [pb], false, 1), ROOT];
    NewNode([ROOT], 0, b);
    assert ROOT.parsers + [pb] == [pb];
    assert [ROOT][0 := Node(true, [pb], false, 1)] + [ROOT] == h1;
    var h2 := [Node(true, [pb], false, 1), Node(true, [pc], false, 1), ROOT];
    NewNode(h1, 1, c);
    assert ROOT.parsers + [pc] == [pc];
    assert h1[1 := Node(true, [pc], false, 1)] + [ROOT] == h2;
    PairFrom([ROOT], 0, b, c, None, h1, 1);
    assert FindConf([pb], a) == 1;
    var h3 := [Node(true, [pb, pa], false, 1), Node(true, [pc], false, 1), Node(true, [], false, 2)];
    SharedEdge(h2, 0, a, 2);
    assert [pb] + [pa] == [pb, pa];
    assert h2[0 := Node(true, [pb, pa], false, 1)][2 := Node(true, [], false, 2)] == h3;
    SingleFrom(h2, 0, a, Some(2));
    TwoAlternatives([ROOT], [b, c], [a]);
  }

  lemma {:induction false} SequenceLastIs(a: Config, b: Config, c: Config)
    requires a != b
    ensures Forward([ROOT])
    ensures var (r, n) := AddAlts([ROOT], 0, [[a], [b, c]], None);
            n == Some(2) && |r| == 3 && r[2 := r[2].(terminal := true)] == SequenceLast(a, b, c)
  {
    hide AddEdge, AddPath, AddPathFrom, AddAlts;
    var pa, pb, pc := NewParser(a, 1), NewParser(b, 1), NewParser(c, 2);
    var h1 := [Node(true, [pa], false, 1), ROOT];
    NewNode([ROOT], 0, a);
    assert ROOT.parsers + [pa] == [pa];
    assert [ROOT][0 := Node(true, [pa], false, 1)] + [ROOT] == h1;
    SingleFrom([ROOT], 0, a, None);
    assert FindConf([pa], b) == 1;
    var h2 := [Node(true, [pa, pb], false, 1), Node(true, [], false, 2)];
    SharedEdge(h1, 0, b, 1);
    assert [pa] + [pb] == [pa, pb];
    assert h1[0 := Node(true, [pa, pb], false, 1)][1 := Node(true, [], false, 2)] == h2;
    var h3 := [Node(true, [pa, pb], false, 1), Node(true, [pc], false, 2), ROOT];
    NewNode(h2, 1, c);
    assert h2[1].parsers + [pc] == [pc];
    assert h2[1 := Node(true, [pc], false, 2)] + [ROOT] == h3;
    PairFrom(h1, 0, b, c, Some(1), h2, 1);
    TwoAlternatives([ROOT], [a], [b, c]);
  }
}
