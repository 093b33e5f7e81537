/** What rules with alternatives accept, and the rule base of such a rule. */
module AlternativeRules {
  import opened Json
  import opened Pdag
  import opened PdagRefs
  import opened PdagMemory
  import Optimizer
  import opened RuleTree
  import opened RuleBase
  import opened Alternatives
  import opened AlternativeWords

  // ----- rules of alternatives -----

  /** The groups of a rule, one behind the other; a group is a list of alternatives. */
  function AddGroups(h: Heap, dag: NodeId, groups: seq<seq<Rule>>): (r: (Heap, NodeId))
    requires Forward(h) && dag < |h| && forall i :: 0 <= i < |groups| ==> NonEmpty(groups[i]) && groups[i] != []
    ensures |h| <= |r.0| && dag <= r.1 < |r.0| && Forward(r.0)
  {
    if groups == [] then (h, dag) else
    assert NonEmpty(groups[|groups| - 1]);
    var (h1, n1) := AddGroups(h, dag, groups[..|groups| - 1]);
    var (h2, n2) := AddAlts(h1, n1, groups[|groups| - 1], None);
    (h2, n2.value)
  }

  ghost predicate GroupsOk(groups: seq<seq<Rule>>) {
    forall i :: 0 <= i < |groups| ==> NonEmpty(groups[i]) && groups[i] != [] && DistinctStarts(groups[i])
  }

  /** One alternative of every group, as it has become. */
  ghost predicate RuleWord(groups: seq<seq<Rule>>, w: Rule)
    requires GroupsOk(groups)
    decreases |groups|
  {
    if groups == [] then w == [] else
    var last := groups[|groups| - 1];
    exists j: nat :: j < |last| && EndsWith(w, Demanded(last, j)) &&
      RuleWord(groups[..|groups| - 1], Before(w, Demanded(last, j)))
  }

  lemma {:induction false} GroupsLeaf(h: Heap, dag: NodeId, groups: seq<seq<Rule>>)
    requires Forward(h) && dag < |h| && h[dag].parsers == [] && GroupsOk(groups)
    ensures var (r, n) := AddGroups(h, dag, groups); r[n].parsers == [] && (n == dag || n >= |h|)
    decreases |groups|
  {
    if groups != [] {
      GroupsLeaf(h, dag, groups[..|groups| - 1]);
      var (h1, n1) := AddGroups(h, dag, groups[..|groups| - 1]);
      hide AddAlts;
      AltsLeaf(h1, n1, groups[|groups| - 1]);
    }
  }

  /** The sequences of parsers that lead through a rule. */
  lemma {:induction false} GroupsWords(h: Heap, dag: NodeId, groups: seq<seq<Rule>>, w: Rule)
    requires Forward(h) && dag < |h| && h[dag].parsers == [] && GroupsOk(groups)
    ensures var (r, n) := AddGroups(h, dag, groups);
      && (Follow(r, dag, w) == Some(n) <==> RuleWord(groups, w))
      && forall t :: 0 <= t < |h| ==> (Follow(r, dag, w) == Some(t) <==> Follow(h, dag, w) == Some(t))
    decreases |groups|
  {
    if groups == [] {
      OnlyEmptyStays(h, dag, w);
    } else {
      var front, last := groups[..|groups| - 1], groups[|groups| - 1];
      GroupsLeaf(h, dag, front);
      var (h1, n1) := AddGroups(h, dag, front);
      hide AddAlts, Follow, Demanded, EndsWith, Before;
      AltsWords(h1, n1, last, dag, w);
      GroupsWords(h, dag, front, w);
      forall j: nat | j < |last| && EndsWith(w, Demanded(last, j))
        ensures Takes(h1, dag, n1, last, w, j) <==> RuleWord(front, Before(w, Demanded(last, j)))
      {
        GroupsWords(h, dag, front, Before(w, Demanded(last, j)));
      }
    }
  }

  /** One alternative of every group, as it is written. */
  ghost predicate Choice(groups: seq<seq<Rule>>, w: Rule)
    decreases |groups|
  {
    if groups == [] then w == [] else
    var last := groups[|groups| - 1];
    exists j: nat :: j < |last| && EndsWith(w, last[j]) && Choice(groups[..|groups| - 1], Before(w, last[j]))
  }

  /** If in every group only the first alternative is a sequence, the rule means what is written. */
  lemma {:induction false} AsWritten(groups: seq<seq<Rule>>, w: Rule)
    requires GroupsOk(groups)
    requires forall g, i :: 0 <= g < |groups| && 1 <= i < |groups[g]| ==> |groups[g][i]| == 1
    ensures RuleWord(groups, w) <==> Choice(groups, w)
    decreases |groups|
  {
    if groups != [] {
      var front, last := groups[..|groups| - 1], groups[|groups| - 1];
      forall j: nat | j < |last|
        ensures Demanded(last, j) == last[j]
        ensures EndsWith(w, last[j]) ==> (RuleWord(front, Before(w, last[j])) <==> Choice(front, Before(w, last[j])))
      {
        DemandedSingles(last, j);
        if EndsWith(w, last[j]) { AsWritten(front, Before(w, last[j])); }
      }
    }
  }

  // ----- what is accepted -----

  /** No literal was compacted, no node has a parser twice, and what is new is not terminal. */
  ghost predicate Tidy(h0: Heap, h: Heap) {
    && Forward(h) && |h0| <= |h| && Uncompacted(h) && NoDuplicates(h)
    && forall k :: 0 <= k < |h| ==> h[k].terminal == (k < |h0| && h0[k].terminal)
  }

  lemma {:induction false} EdgeTidy(h0: Heap, h: Heap, dag: NodeId, c: Config, next: Option<NodeId>)
    requires Tidy(h0, h) && dag < |h| && (next.Some? ==> dag < next.value < |h|)
    ensures Tidy(h0, AddEdge(h, dag, c, next).0)
  {
    EdgeForward(h, dag, c, next);
  }

  lemma {:induction false} PathTidy(h0: Heap, h: Heap, m: NodeId, confs: Rule)
    requires Tidy(h0, h) && m < |h|
    ensures Tidy(h0, AddPath(h, m, confs).0)
    decreases |confs|
  {
    if confs != [] {
      PathTidy(h0, h, m, confs[..|confs| - 1]);
      var (h1, n1) := AddPath(h, m, confs[..|confs| - 1]);
      hide AddEdge, Tidy;
      EdgeTidy(h0, h1, n1, confs[|confs| - 1], None);
    }
  }

  lemma {:induction false} AltsTidy(h0: Heap, h: Heap, dag: NodeId, ws: seq<Rule>)
    requires Tidy(h0, h) && dag < |h| && NonEmpty(ws)
    ensures Tidy(h0, AddAlts(h, dag, ws, None).0)
    decreases |ws|
  {
    if ws != [] {
      var front, c, rest := Snoc(ws);
      AltsStep(h, dag, front, c, rest);
      AltsTidy(h0, h, dag, front);
      var (h1, n1) := AddAlts(h, dag, front, None);
      hide AddAlts, AddEdge, AddPath, Tidy;
      EdgeTidy(h0, h1, dag, c, n1);
      var (h2, n2) := AddEdge(h1, dag, c, n1);
      PathTidy(h0, h2, n2, rest);
    }
  }

  lemma {:induction false} GroupsTidy(h0: Heap, h: Heap, dag: NodeId, groups: seq<seq<Rule>>)
    requires Tidy(h0, h) && dag < |h| && forall i :: 0 <= i < |groups| ==> NonEmpty(groups[i]) && groups[i] != []
    ensures Tidy(h0, AddGroups(h, dag, groups).0)
    decreases |groups|
  {
    if groups != [] {
      GroupsTidy(h0, h, dag, groups[..|groups| - 1]);
      var (h1, n1) := AddGroups(h, dag, groups[..|groups| - 1]);
      hide AddAlts, Tidy;
      AltsTidy(h0, h1, n1, groups[|groups| - 1]);
    }
  }

  /** Without duplicates a path leads where its configurations lead. */
  lemma {:induction false} PathFollow(h: Heap, root: NodeId, path: seq<nat>)
    requires Forward(h) && NoDuplicates(h) && root < |h| && PathEnd(h, root, path).Some?
    ensures Follow(h, root, PathConfs(h, root, path)) == PathEnd(h, root, path)
    decreases |path|
  {
    if path != [] {
      var p := h[root].parsers[path[0]];
      FindConfIs(h[root].parsers, p.conf, path[0]);
      FollowCons(h, root, p.conf, PathConfs(h, p.node, path[1..]));
      PathFollow(h, p.node, path[1..]);
    }
  }

  /** If `n` is the only terminal node that can be reached, then a message is accepted
      exactly if a sequence of parsers that leads to it consumes the message. */
  lemma {:induction false} AcceptsWords(h: Heap, inp: Input, root: NodeId, n: NodeId, offs: nat)
    requires Forward(h) && Uncompacted(h) && NoDuplicates(h) && root < |h| && n < |h| && h[n].terminal
    requires forall w ::
      Follow(h, root, w).Some? && h[Follow(h, root, w).value].terminal ==> Follow(h, root, w) == Some(n)
    ensures Accepts(h, inp, root, offs, false) <==>
      exists w :: Follow(h, root, w) == Some(n) && RunRule(inp, w, offs) == Some(|inp.msg|)
  {
    hide Follow, RunRule, Walk, PathEnd, PathConfs, NoDuplicates, Uncompacted;
    if path :| Accepting(h, inp, root, offs, path, false) {
      WalkRuns(h, inp, root, offs, path);
      PathFollow(h, root, path);
    }
    if w :| Follow(h, root, w) == Some(n) && RunRule(inp, w, offs) == Some(|inp.msg|) {
      var path := FollowPath(h, root, w);
      WalkRuns(h, inp, root, offs, path);
      assert Accepting(h, inp, root, offs, path, false);
    }
  }

  lemma {:induction false} FollowSame(h: Heap, r: Heap, root: NodeId, w: Rule)
    requires Forward(h) && Forward(r) && |h| == |r| && root < |h|
    requires forall k :: 0 <= k < |h| ==> r[k].parsers == h[k].parsers
    ensures Follow(r, root, w) == Follow(h, root, w)
    decreases |w|
  {
    if w != [] { FollowSame(h, r, root, w[..|w| - 1]); }
  }

  function Ended(h: Heap, n: NodeId): Heap
    requires n < |h|
  {
    h[n := h[n].(terminal := true)]
  }

  /** A rule of alternatives accepts exactly the messages that one alternative of every
      group, as it has become, consumes. */
  lemma {:induction false} GroupsAccept(h: Heap, inp: Input, dag: NodeId, groups: seq<seq<Rule>>, offs: nat)
    requires Tidy(h, h) && dag < |h| && h[dag].parsers == [] && !h[dag].terminal && GroupsOk(groups)
    ensures var (r, n) := AddGroups(h, dag, groups);
      && Forward(Ended(r, n))
      && (Accepts(Ended(r, n), inp, dag, offs, false) <==>
          exists w :: RuleWord(groups, w) && RunRule(inp, w, offs) == Some(|inp.msg|))
  {
    var (r, n) := AddGroups(h, dag, groups);
    var k := Ended(r, n);
    GroupsTidy(h, h, dag, groups);
    GroupsLeaf(h, dag, groups);
    EndedTidy(h, r, n);
    hide AddGroups, Follow, RuleWord, RunRule, Accepts, Ended;
    forall w
      ensures Follow(k, dag, w) == Follow(r, dag, w) && (Follow(r, dag, w) == Some(n) <==> RuleWord(groups, w))
      ensures Follow(k, dag, w).Some? && k[Follow(k, dag, w).value].terminal ==> Follow(k, dag, w) == Some(n)
    {
      FollowSame(r, k, dag, w);
      GroupsWords(h, dag, groups, w);
      OnlyEmptyStays(h, dag, w);
    }
    AcceptsWords(k, inp, dag, n, offs);
  }

  lemma {:induction false} EndedTidy(h: Heap, r: Heap, n: NodeId)
    requires Tidy(h, r) && n < |r|
    ensures var k := Ended(r, n); Forward(k) && Uncompacted(k) && NoDuplicates(k) && |k| == |r| && k[n].terminal
    ensures forall i :: 0 <= i < |r| ==> Ended(r, n)[i].parsers == r[i].parsers
    ensures forall i :: 0 <= i < |r| && i != n ==> Ended(r, n)[i].terminal == (i < |h| && h[i].terminal)
  {
  }

  lemma {:induction false} OneGroup(h: Heap, dag: NodeId, ws: seq<Rule>)
    requires Forward(h) && dag < |h| && NonEmpty(ws) && DistinctStarts(ws) && ws != []
    ensures GroupsOk([ws])
    ensures AddGroups(h, dag, [ws]) == (AddAlts(h, dag, ws, None).0, AddAlts(h, dag, ws, None).1.value)
    ensures forall w :: RuleWord([ws], w) <==> Spells(ws, w)
  {
    assert [ws][..0] == [];
    forall w ensures RuleWord([ws], w) <==> Spells(ws, w) {
      forall j: nat | j < |ws|
        ensures EndsWith(w, Demanded(ws, j)) && RuleWord([], Before(w, Demanded(ws, j))) <==> w == Demanded(ws, j)
      {
      }
    }
  }

  lemma {:induction false} SpelledRuns(inp: Input, ws: seq<Rule>, offs: nat)
    requires NonEmpty(ws) && GroupsOk([ws]) && forall w :: RuleWord([ws], w) <==> Spells(ws, w)
    ensures (exists w :: RuleWord([ws], w) && RunRule(inp, w, offs) == Some(|inp.msg|)) <==>
            (exists j: nat :: j < |ws| && RunRule(inp, Demanded(ws, j), offs) == Some(|inp.msg|))
  {
    hide RuleWord, RunRule, Demanded;
    if w :| RuleWord([ws], w) && RunRule(inp, w, offs) == Some(|inp.msg|) {
      var j: nat :| j < |ws| && w == Demanded(ws, j);
      assert RunRule(inp, Demanded(ws, j), offs) == Some(|inp.msg|);
    }
    if j: nat :| j < |ws| && RunRule(inp, Demanded(ws, j), offs) == Some(|inp.msg|) {
      var w := Demanded(ws, j);
      assert Spells(ws, w);
      assert RuleWord([ws], w) && RunRule(inp, w, offs) == Some(|inp.msg|);
    }
  }

  /** Alternatives that start differently accept what one of them, as it has become, matches. */
  lemma {:induction false} AltsAccept(h: Heap, inp: Input, dag: NodeId, ws: seq<Rule>, offs: nat)
    requires Tidy(h, h) && dag < |h| && h[dag].parsers == [] && !h[dag].terminal
    requires NonEmpty(ws) && DistinctStarts(ws) && ws != []
    ensures var (r, n) := AddAlts(h, dag, ws, None);
      && Forward(Ended(r, n.value))
      && (Accepts(Ended(r, n.value), inp, dag, offs, false) <==>
          exists j: nat :: j < |ws| && RunRule(inp, Demanded(ws, j), offs) == Some(|inp.msg|))
  {
    hide AddAlts, AddGroups, RunRule, Accepts, Ended, RuleWord, Demanded;
    OneGroup(h, dag, ws);
    GroupsAccept(h, inp, dag, [ws], offs);
    SpelledRuns(inp, ws, offs);
  }

  lemma {:induction false} TwoDemands(v: Rule, w: Rule)
    requires v != [] && w != []
    ensures NonEmpty([v, w]) && Demanded([v, w], 0) == v + w[1..] && Demanded([v, w], 1) == w
    ensures v[0] != w[0] ==> DistinctStarts([v, w])
  {
    assert [v, w][..1] == [v];
  }

  /** Two alternatives. */
  lemma {:induction false} TwoAccept(h: Heap, inp: Input, dag: NodeId, v: Rule, w: Rule, offs: nat)
    requires Tidy(h, h) && dag < |h| && h[dag].parsers == [] && !h[dag].terminal
    requires v != [] && w != [] && v[0] != w[0]
    ensures var (r, n) := AddAlts(h, dag, [v, w], None);
      && n.Some? && Forward(Ended(r, n.value))
      && (Accepts(Ended(r, n.value), inp, dag, offs, false) <==>
          RunRule(inp, v + w[1..], offs) == Some(|inp.msg|) || RunRule(inp, w, offs) == Some(|inp.msg|))
  {
    hide AddAlts, RunRule, Accepts, Ended, Demanded;
    TwoDemands(v, w);
    AltsAccept(h, inp, dag, [v, w], offs);
    var ws := [v, w];
    forall j: nat | j < |ws| ensures Demanded(ws, j) == Demanded(ws, 0) || Demanded(ws, j) == Demanded(ws, 1) {
      assert j == 0 || j == 1;
    }
    assert RunRule(inp, Demanded(ws, 0), offs) == RunRule(inp, v + w[1..], offs);
    assert RunRule(inp, Demanded(ws, 1), offs) == RunRule(inp, w, offs);
  }

  /** `a | (b, c)` at any node without parsers accepts a followed by c, or b followed by c:
      not what `a` alone matches. */
  lemma {:induction false} SequenceLastAccepts(h: Heap, inp: Input, dag: NodeId, a: Config, b: Config, c: Config,
      offs: nat)
    requires Tidy(h, h) && dag < |h| && h[dag].parsers == [] && !h[dag].terminal
    ensures var (r, n) := AddAlts(h, dag, [[a], [b, c]], None);
      && n.Some? && Forward(Ended(r, n.value))
      && (Accepts(Ended(r, n.value), inp, dag, offs, false) <==>
          RunRule(inp, [a, c], offs) == Some(|inp.msg|) || RunRule(inp, [b, c], offs) == Some(|inp.msg|))
  {
    assert [b, c][1..] == [c] && [a] + [c] == [a, c];
    if a != b {
      TwoAccept(h, inp, dag, [a], [b, c], offs);
    } else {
      SameStart(h, dag, a, c);
      AltsAccept(h, inp, dag, [[a, c]], offs);
      assert Demanded([[a, c]], 0) == [a, c];
    }
  }

  lemma {:induction false} SameStart(h: Heap, dag: NodeId, a: Config, c: Config)
    requires Forward(h) && dag < |h| && h[dag].parsers == []
    ensures AddAlts(h, dag, [[a], [a, c]], None) == AddAlts(h, dag, [[a, c]], None)
  {
    NothingAlternative(h, dag);
    assert [[a], [a, c]][..1] == [[a]] && [[a]][..0] == [] && [[a, c]][..0] == [];
    SingleFrom(h, dag, a, None);
    NewLeaf(h, dag, a);
    GoesAfter(h, dag, a, None);
    var (h1, n1) := AddEdge(h, dag, a, None);
    assert AddAlts(h, dag, [[a]], None) == (h1, Some(n1));
    assert [a, c] == [a] + [c];
    assert AddEdge(h1, dag, a, Some(n1)) == (h1, n1);
    PairFrom(h1, dag, a, c, Some(n1), h1, n1);
    PairFrom(h, dag, a, c, None, h1, n1);
  }

  /** `(b, c) | a` accepts what it says, if `a` and `b` differ. */
  lemma {:induction false} SequenceFirstAccepts(h: Heap, inp: Input, dag: NodeId, a: Config, b: Config, c: Config,
      offs: nat)
    requires Tidy(h, h) && dag < |h| && h[dag].parsers == [] && !h[dag].terminal && a != b
    ensures var (r, n) := AddAlts(h, dag, [[b, c], [a]], None);
      && n.Some? && Forward(Ended(r, n.value))
      && (Accepts(Ended(r, n.value), inp, dag, offs, false) <==>
          RunRule(inp, [b, c], offs) == Some(|inp.msg|) || RunRule(inp, [a], offs) == Some(|inp.msg|))
  {
    assert [a][1..] == [] && [b, c] + [] == [b, c];
    TwoAccept(h, inp, dag, [b, c], [a], offs);
  }

  // ----- single parsers -----

  /** At a node without parsers, alternatives of single parsers become its only parsers. */
  lemma {:induction false} SinglesAreAll(h: Heap, dag: NodeId, confs: seq<Config>)
    requires Tidy(h, h) && dag < |h| && h[dag].parsers == [] && !h[dag].terminal && confs != []
    ensures var (r, n) := AddAlts(h, dag, Singles(confs), None); n.Some? && OnlyThese(r, dag, confs, n.value)
  {
    AtEmptyNode(h, dag, confs);
    AddSingles(h, dag, confs);
    AltsTidy(h, h, dag, Singles(confs));
    var (r, n) := AddAlts(h, dag, Singles(confs), None);
    hide AddAlts;
    JoinedAreAll(r, dag, confs, n.value);
  }

  lemma {:induction false} JoinedAreAll(r: Heap, dag: NodeId, confs: seq<Config>, n: NodeId)
    requires Forward(r) && Uncompacted(r) && NoDuplicates(r) && dag < |r| && n < |r| && !r[dag].terminal
    requires Joined(r, dag, confs, n) && forall c :: Goes(r, dag, c).Some? ==> c in confs
    ensures OnlyThese(r, dag, confs, n)
  {
    var ps := r[dag].parsers;
    forall i | 0 <= i < |ps| ensures ps[i].conf in confs && ps[i].node == n {
      FindConfIs(ps, ps[i].conf, i);
      assert Goes(r, dag, ps[i].conf) == Some(ps[i].node);
    }
    forall c | c in confs ensures exists i :: 0 <= i < |ps| && ps[i].conf == c {
      var j :| 0 <= j < |confs| && confs[j] == c;
      assert Goes(r, dag, confs[j]) == Some(n);
      assert ps[FindConf(ps, c)].conf == c;
    }
  }

  // ----- the code -----

  /** The alternatives of a field description; a description without the type
      "alternative" is the only one. */
  function Group(c: PrsConf): (ws: seq<Rule>)
    requires IsField(c)
    ensures ws != [] && NonEmpty(ws)
  {
    if c.Alt? then Words(c.items)
    else
      FlattenNonEmpty(c);
      [Flatten(c)]
  }

  /** A parser or a sequence of parsers without alternatives, or alternatives of these. */
  ghost predicate IsField(c: PrsConf) {
    Proper(c) && if c.Alt? then NoneAlternative(c.items) else NoAlternative(c)
  }

  ghost predicate IsRule(items: seq<PrsConf>) {
    forall i :: 0 <= i < |items| ==> IsField(items[i]) && DistinctStarts(Group(items[i]))
  }

  ghost function Groups(items: seq<PrsConf>): (gs: seq<seq<Rule>>)
    requires IsRule(items)
    ensures |gs| == |items| && GroupsOk(gs) && forall i :: 0 <= i < |gs| ==> gs[i] == Group(items[i])
  {
    if items == [] then [] else Groups(items[..|items| - 1]) + [Group(items[|items| - 1])]
  }

  lemma {:induction false} GroupsMore(h: Heap, dag: NodeId, items: seq<PrsConf>, c: PrsConf)
    requires Forward(h) && dag < |h| && IsRule(items) && IsField(c) && DistinctStarts(Group(c))
    ensures IsRule(items + [c])
    ensures var (h1, n1) := AddGroups(h, dag, Groups(items));
      var (h2, n2) := AddAlts(h1, n1, Group(c), None);
      AddGroups(h, dag, Groups(items + [c])) == (h2, n2.value)
  {
    var gs := Groups(items + [c]);
    assert (items + [c])[..|items|] == items;
    assert gs == Groups(items) + [Group(c)];
    assert gs[..|items|] == Groups(items) && gs[|items|] == Group(c);
  }

  /** A description that is not an alternative is added like a single one. */
  lemma {:induction false} FieldIsAlternative(h: Heap, dag: NodeId, c: PrsConf)
    requires Forward(h) && dag < |h| && IsField(c) && !c.Alt?
    ensures var (r, n) := AddPathFrom(h, dag, Flatten(c), None); AddAlts(h, dag, Group(c), None) == (r, Some(n))
  {
    FlattenNonEmpty(c);
    NothingAlternative(h, dag);
    assert [Flatten(c)][..0] == [];
  }

  /** ln_pdagAddParser for such a description. */
  method AddAnyField(mem: Memory, c: PrsConf, dag0: NodeId, ghost outside: multiset<NodeId>) returns (dag: NodeId)
    requires Sound(mem.nodes, outside, dag0, None) && IsField(c)
    modifies mem
    ensures Forward(old(mem.nodes)) && dag0 < |old(mem.nodes)| && Sound(mem.nodes, outside, dag, None)
    ensures Grown(old(mem.nodes), mem.nodes)
    ensures (mem.nodes, Some(dag)) == AddAlts(old(mem.nodes), dag0, Group(c), None)
  {
    SoundForward(mem.nodes, outside, dag0, None);
    if !c.Alt? { FieldIsAlternative(mem.nodes, dag0, c); }
    hide AddAlts, AddPathFrom, WellFormed, NoDuplicates;
    var ok, next;
    ok, dag, next := AddParserInternal(mem, c, SEQ, dag0, None, outside);
  }

  lemma {:induction false} NoGroups()
    ensures Tidy([ROOT], [ROOT]) && AddGroups([ROOT], 0, Groups([])) == ([ROOT], 0)
  {
  }

  lemma {:induction false} RuleAccepts(inp: Input, items: seq<PrsConf>, r: Heap, dag: NodeId)
    requires IsRule(items) && Tidy([ROOT], [ROOT]) && (r, dag) == AddGroups([ROOT], 0, Groups(items))
    ensures Forward(Ended(r, dag))
    ensures Accepts(Ended(r, dag), inp, 0, 0, false) <==> exists w :: RuleWord(Groups(items), w) && Matches(inp, w)
  {
    hide AddGroups, Groups, RuleWord, RunRule, Accepts, Ended, Tidy;
    GroupsAccept([ROOT], inp, 0, Groups(items), 0);
  }

  /** Build the rule base of one rule of literals, fields and alternatives, optimize it, and
      it accepts exactly the messages that one alternative of every field, as it has become,
      consumes. */
  method BuildRule(items: seq<PrsConf>) returns (mem: Memory)
    requires IsRule(items)
    ensures fresh(mem) && |mem.nodes| > 0 && WellFormed(mem.nodes, multiset{0})
    ensures forall inp :: Accepts(mem.nodes, inp, 0, 0, false) <==>
      exists w :: RuleWord(Groups(items), w) && Matches(inp, w)
  {
    hide Sound, WellFormed, AddAlts, AddGroups, Grown, Groups, DistinctStarts, IsField, Group;
    mem := new Memory();
    mem.nodes := [ROOT];
    EmptyTree();
    NoGroups();
    GrownRefl(mem.nodes);
    var dag: NodeId, i := 0, 0;
    assert items[..0] == [];
    while i < |items|
      invariant i <= |items| && fresh(mem) && Sound(mem.nodes, multiset{0}, dag, None)
      invariant Grown([ROOT], mem.nodes)
      invariant Forward([ROOT]) && (mem.nodes, dag) == AddGroups([ROOT], 0, Groups(items[..i]))
    {
      ghost var h := mem.nodes;
      GroupsMore([ROOT], 0, items[..i], items[i]);
      assert items[..i + 1] == items[..i] + [items[i]];
      dag := AddAnyField(mem, items[i], dag, multiset{0});
      GrownTrans([ROOT], h, mem.nodes);
      i := i + 1;
    }
    assert items[..i] == items;
    ghost var r := mem.nodes;
    SoundForward(r, multiset{0}, dag, None);
    SoundMove([ROOT], r, multiset{0}, 0, None, dag);
    MarkSound(r, multiset{0}, dag);
    mem.nodes := mem.nodes[dag := mem.nodes[dag].(terminal := true)];
    ghost var k := mem.nodes;
    AtRoot(k);
    Optimizer.Optimize(mem, 0);
    Optimizer.FormedForward(mem.nodes, multiset{0});
    hide Accepts, Matches, RuleWord;
    forall inp
      ensures Accepts(mem.nodes, inp, 0, 0, false) <==> exists w :: RuleWord(Groups(items), w) && Matches(inp, w)
    {
      RuleAccepts(inp, items, r, dag);
    }
  }
}
