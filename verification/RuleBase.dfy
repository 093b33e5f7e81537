/**
 A rule base from the rules to the answer: the tree that is built holds exactly the
 rules, and a message is accepted exactly if one of the rules matches all of it.
 */
module RuleBase {
  import opened Json
  import opened Pdag
  import opened PdagRefs
  import opened PdagMemory
  import opened RuleTree
  import opened Optimizer

  type Rule = seq<Config>

  const LITERAL_PRIO := 30000 * 256 + 4

  /** newLiteralParserJSONConf: the configuration for one literal character. */
  function LiteralConf(c: char): Config {
    Config(Literal, [c], None, LITERAL_PRIO, "")
  }

  /** A piece of a rule: literal text, or a field description. */
  datatype Item = Text(text: string) | FieldItem(conf: PrsConf)

  predicate ProperItem(it: Item) {
    it.FieldItem? ==> Proper(it.conf) && NoAlternative(it.conf)
  }

  function LiteralConfs(text: string): Rule {
    seq(|text|, (i: nat) requires i < |text| => LiteralConf(text[i]))
  }

  function ItemConfs(it: Item): Rule
    requires ProperItem(it)
  {
    if it.Text? then LiteralConfs(it.text) else Flatten(it.conf)
  }

  /** The parser configurations of a rule. */
  function Confs(items: seq<Item>): Rule
    requires forall i :: 0 <= i < |items| ==> ProperItem(items[i])
  {
    if items == [] then [] else
    var last := items[|items| - 1];
    assert ProperItem(last);
    Confs(items[..|items| - 1]) + ItemConfs(last)
  }

  // ----- the words of the tree -----

  /** Where a word leads. */
  function Follow(h: Heap, n: NodeId, w: Rule): Option<NodeId>
    requires Forward(h) && n < |h|
    ensures Follow(h, n, w).Some? ==> Follow(h, n, w).value < |h|
  {
    if w == [] then Some(n) else
    var f := Follow(h, n, w[..|w| - 1]);
    if f.None? then None else
    var ps := h[f.value].parsers;
    var i := FindConf(ps, w[|w| - 1]);
    if i < |ps| then Some(ps[i].node) else None
  }

  /** Every node is where its word leads. */
  ghost predicate Spelled(h: Heap, words: seq<Rule>) {
    Forward(h) && |words| == |h| > 0 && forall n :: 0 <= n < |h| ==> Follow(h, 0, words[n]) == Some(n)
  }

  /** Every edge adds its configuration to the word. */
  ghost predicate EdgeWords(h: Heap, words: seq<Rule>) {
    && |words| == |h| && Forward(h)
    && forall n, i :: 0 <= n < |h| && 0 <= i < |h[n].parsers| ==>
         words[h[n].parsers[i].node] == words[n] + [h[n].parsers[i].conf]
  }

  /** No literal was compacted yet. */
  ghost predicate Uncompacted(h: Heap) {
    forall n, i :: 0 <= n < |h| && 0 <= i < |h[n].parsers| ==> h[n].parsers[i].text == h[n].parsers[i].conf.text
  }

  /** The terminal nodes are those whose word is a rule. */
  ghost predicate Marked(h: Heap, words: seq<Rule>, rules: set<Rule>) {
    |words| == |h| && forall n :: 0 <= n < |h| ==> (h[n].terminal <==> words[n] in rules)
  }

  ghost predicate Stored(h: Heap, rules: set<Rule>) {
    Forward(h) && |h| > 0 && forall r :: r in rules ==> Follow(h, 0, r).Some?
  }

  /** The DAG is a tree that holds exactly these rules. */
  ghost predicate Tree(h: Heap, words: seq<Rule>, rules: set<Rule>) {
    && Spelled(h, words) && EdgeWords(h, words) && Uncompacted(h)
    && Marked(h, words, rules) && Stored(h, rules) && NoDuplicates(h)
  }

  /** Only new nodes and new edges; other fields do not matter here. */
  ghost predicate Extends(h: Heap, r: Heap) {
    0 < |h| <= |r| && Forward(h) && Forward(r) && forall n :: 0 <= n < |h| ==> h[n].parsers <= r[n].parsers
  }

  /** Words that lead somewhere lead to the same place after an edge was added. */
  lemma {:induction false} FollowGrows(h: Heap, r: Heap, root: NodeId, w: Rule)
    requires Extends(h, r) && root < |h| && Follow(h, root, w).Some?
    ensures Follow(r, root, w) == Follow(h, root, w)
    decreases |w|
  {
    if w != [] {
      FollowGrows(h, r, root, w[..|w| - 1]);
      var n := Follow(h, root, w[..|w| - 1]).value;
      FindPrefix(h[n].parsers, r[n].parsers, w[|w| - 1]);
    }
  }

  lemma {:induction false} FindPrefix(a: seq<Parser>, b: seq<Parser>, conf: Config)
    requires a <= b && FindConf(a, conf) < |a|
    ensures FindConf(b, conf) == FindConf(a, conf)
  {
  }

  lemma {:induction false} FindConfIs(ps: seq<Parser>, conf: Config, i: nat)
    requires i < |ps| && ps[i].conf == conf && forall j :: 0 <= j < i ==> ps[j].conf != conf
    ensures FindConf(ps, conf) == i
  {
  }

  lemma {:induction false} FollowSnoc(h: Heap, w: Rule, conf: Config)
    requires Forward(h) && |h| > 0 && Follow(h, 0, w).Some?
    ensures var ps := h[Follow(h, 0, w).value].parsers;
      Follow(h, 0, w + [conf]) == if FindConf(ps, conf) < |ps| then Some(ps[FindConf(ps, conf)].node) else None
  {
    assert (w + [conf])[..|w|] == w;
  }

  /** The heap after a new node was added behind `dag`. */
  ghost predicate NewEdge(h: Heap, r: Heap, dag: NodeId, conf: Config) {
    && Forward(h) && Forward(r) && dag < |h| && FindConf(h[dag].parsers, conf) == |h[dag].parsers|
    && r == h[dag := h[dag].(parsers := h[dag].parsers + [NewParser(conf, |h|)])] + [Node(true, [], false, 1)]
  }

  lemma {:induction false} TreeShape(h: Heap, words: seq<Rule>, rules: set<Rule>)
    requires Tree(h, words, rules)
    ensures |words| == |h| > 0 && Forward(h)
  {
  }

  /** One more edge. */
  lemma {:induction false} TreeEdge(h: Heap, words: seq<Rule>, rules: set<Rule>, outside: multiset<NodeId>,
      dag: NodeId, conf: Config)
    returns (words1: seq<Rule>)
    requires Tree(h, words, rules) && Sound(h, outside, dag, None)
    ensures var (r, n) := AddEdge(h, dag, conf, None);
      Tree(r, words1, rules) && Sound(r, outside, n, None) && words1[n] == words[dag] + [conf]
  {
    hide Edges, Targets, Counted, Spelled, EdgeWords, Uncompacted, Marked, Stored, NoDuplicates, Grown;
    TreeShape(h, words, rules);
    var (r, n) := AddEdge(h, dag, conf, None);
    AddEdgeFormed(h, outside, dag, conf, None);
    words1 := words;
    if FindConf(h[dag].parsers, conf) == |h[dag].parsers| {
      words1 := words + [words[dag] + [conf]];
      NewEdgeSpelled(h, r, words, dag, conf);
      NewEdgeWords(h, r, words, dag, conf);
      NewEdgeMarked(h, r, words, rules, dag, conf);
      assert words1[|h|] == words[dag] + [conf];
    } else {
      EdgeWord(h, words, dag, FindConf(h[dag].parsers, conf));
    }
  }

  lemma {:induction false} EdgeWord(h: Heap, words: seq<Rule>, n: NodeId, i: nat)
    requires EdgeWords(h, words) && n < |h| && i < |h[n].parsers|
    ensures words[h[n].parsers[i].node] == words[n] + [h[n].parsers[i].conf]
  {
  }

  lemma {:induction false} NewEdgeExtends(h: Heap, r: Heap, dag: NodeId, conf: Config)
    requires NewEdge(h, r, dag, conf)
    ensures Extends(h, r)
  {
  }

  lemma {:induction false} NewEdgeSpelled(h: Heap, r: Heap, words: seq<Rule>, dag: NodeId, conf: Config)
    requires Spelled(h, words) && NewEdge(h, r, dag, conf)
    ensures Spelled(r, words + [words[dag] + [conf]])
  {
    hide Follow, FindConf, Extends;
    var words1 := words + [words[dag] + [conf]];
    NewEdgeExtends(h, r, dag, conf);
    forall m | 0 <= m < |r|
      ensures Follow(r, 0, words1[m]) == Some(m)
    {
      if m < |h| {
        FollowGrows(h, r, 0, words[m]);
      } else {
        FollowGrows(h, r, 0, words[dag]);
        FollowSnoc(r, words[dag], conf);
        NewConfFound(h[dag].parsers, conf, |h|);
      }
    }
  }

  lemma {:induction false} NewConfFound(ps: seq<Parser>, conf: Config, node: NodeId)
    requires FindConf(ps, conf) == |ps|
    ensures FindConf(ps + [NewParser(conf, node)], conf) == |ps|
  {
    FindConfIs(ps + [NewParser(conf, node)], conf, |ps|);
  }

  lemma {:induction false} NewEdgeWords(h: Heap, r: Heap, words: seq<Rule>, dag: NodeId, conf: Config)
    requires EdgeWords(h, words) && Uncompacted(h) && NewEdge(h, r, dag, conf)
    ensures EdgeWords(r, words + [words[dag] + [conf]]) && Uncompacted(r)
  {
  }

  lemma {:induction false} NewEdgeMarked(h: Heap, r: Heap, words: seq<Rule>, rules: set<Rule>, dag: NodeId,
      conf: Config)
    requires Marked(h, words, rules) && Stored(h, rules) && Spelled(h, words) && NewEdge(h, r, dag, conf)
    ensures Marked(r, words + [words[dag] + [conf]], rules) && Stored(r, rules)
  {
    FollowSnoc(h, words[dag], conf);
    hide Follow, FindConf, Extends;
    NewEdgeExtends(h, r, dag, conf);
    forall w | w in rules
      ensures Follow(r, 0, w).Some?
    {
      FollowGrows(h, r, 0, w);
    }
  }

  /** A whole path of edges. */
  lemma {:induction false} TreePath(h: Heap, words: seq<Rule>, rules: set<Rule>, outside: multiset<NodeId>,
                                    dag: NodeId, confs: Rule)
    returns (words1: seq<Rule>)
    requires Tree(h, words, rules) && Sound(h, outside, dag, None)
    ensures var (r, n) := AddPath(h, dag, confs);
      Tree(r, words1, rules) && Sound(r, outside, n, None) && words1[n] == words[dag] + confs
    decreases |confs|
  {
    hide AddEdge, Sound, Tree, WellFormed;
    TreeShape(h, words, rules);
    SoundForward(h, outside, dag, None);
    if confs == [] {
      words1 := words;
      assert words[dag] + [] == words[dag];
    } else {
      var front := confs[..|confs| - 1];
      var words2 := TreePath(h, words, rules, outside, dag, front);
      var (h1, n1) := AddPath(h, dag, front);
      TreeShape(h1, words2, rules);
      SoundForward(h1, outside, n1, None);
      words1 := TreeEdge(h1, words2, rules, outside, n1, confs[|confs| - 1]);
      assert front + [confs[|confs| - 1]] == confs;
      assert words[dag] + front + [confs[|confs| - 1]] == words[dag] + confs;
    }
  }

  /** The end of a rule becomes terminal. */
  lemma {:induction false} TreeTerminal(h: Heap, words: seq<Rule>, rules: set<Rule>, outside: multiset<NodeId>,
      n: NodeId)
    requires Tree(h, words, rules) && Sound(h, outside, n, None)
    ensures var r := h[n := h[n].(terminal := true)];
      Tree(r, words, rules + {words[n]}) && WellFormed(r, outside)
  {
    MarkFormed(h, outside, n);
    TerminalSpelled(h, words, rules, n);
    hide Edges, Targets, Counted, Follow, Spelled, Stored;
    var r := h[n := h[n].(terminal := true)];
    assert EdgeWords(r, words) && Uncompacted(r) && NoDuplicates(r);
  }

  lemma {:induction false} TerminalSpelled(h: Heap, words: seq<Rule>, rules: set<Rule>, n: NodeId)
    requires Spelled(h, words) && Stored(h, rules) && n < |h| && Forward(h[n := h[n].(terminal := true)])
    ensures var r := h[n := h[n].(terminal := true)]; Spelled(r, words) && Stored(r, rules + {words[n]})
    ensures forall m :: 0 <= m < |h| && words[m] == words[n] ==> m == n
  {
    hide Follow;
    var r := h[n := h[n].(terminal := true)];
    assert Extends(h, r);
    forall m | 0 <= m < |h|
      ensures Follow(r, 0, words[m]) == Some(m)
    {
      FollowGrows(h, r, 0, words[m]);
    }
    forall w | w in rules
      ensures Follow(r, 0, w).Some?
    {
      FollowGrows(h, r, 0, w);
    }
    forall m | 0 <= m < |h| && words[m] == words[n]
      ensures m == n
    {
      assert Follow(h, 0, words[m]) == Some(m);
    }
  }

  lemma {:induction false} MarkSound(h: Heap, outside: multiset<NodeId>, n: NodeId)
    requires Sound(h, outside, n, None) && Sound(h, outside, 0, None)
    ensures Sound(h[n := h[n].(terminal := true)], outside, 0, None)
  {
    MarkFormed(h, outside, n);
    hide WellFormed;
  }

  lemma {:induction false} RootWord(h: Heap, words: seq<Rule>, rules: set<Rule>)
    requires Tree(h, words, rules)
    ensures words[0] == []
  {
  }

  lemma {:induction false} MarkFormed(h: Heap, outside: multiset<NodeId>, n: NodeId)
    requires WellFormed(h, outside) && n < |h| && h[n].live
    ensures WellFormed(h[n := h[n].(terminal := true)], outside)
  {
    hide Edges, Targets;
    var r := h[n := h[n].(terminal := true)];
    EdgesSet(h, n, r[n]);
    forall m: NodeId | m < |r|
      ensures CountedAt(r, m, outside)
    {
      assert CountedAt(h, m, outside);
      assert (Edges(r) + Targets(h[n].parsers))[m] == (Edges(h) + Targets(h[n].parsers))[m];
    }
  }

  // ----- what the tree accepts -----

  /** Where a path of parser numbers ends. */
  function PathEnd(h: Heap, n: NodeId, path: seq<nat>): Option<NodeId>
    requires Forward(h) && n < |h|
    ensures PathEnd(h, n, path).Some? ==> PathEnd(h, n, path).value < |h|
    decreases |path|
  {
    if path == [] then Some(n)
    else if path[0] >= |h[n].parsers| then None
    else PathEnd(h, h[n].parsers[path[0]].node, path[1..])
  }

  /** The configurations along a path. */
  function PathConfs(h: Heap, n: NodeId, path: seq<nat>): Rule
    requires Forward(h) && n < |h| && PathEnd(h, n, path).Some?
    decreases |path|
  {
    if path == [] then [] else
    var p := h[n].parsers[path[0]];
    [p.conf] + PathConfs(h, p.node, path[1..])
  }

  lemma {:induction false} PathWord(h: Heap, words: seq<Rule>, n: NodeId, path: seq<nat>)
    requires EdgeWords(h, words) && n < |h| && PathEnd(h, n, path).Some?
    ensures words[PathEnd(h, n, path).value] == words[n] + PathConfs(h, n, path)
    decreases |path|
  {
    if path == [] {
      assert words[n] + [] == words[n];
    } else {
      var p := h[n].parsers[path[0]];
      EdgeWord(h, words, n, path[0]);
      PathWord(h, words, p.node, path[1..]);
      var rest := PathConfs(h, p.node, path[1..]);
      assert words[n] + [p.conf] + rest == words[n] + ([p.conf] + rest);
    }
  }

  lemma {:induction false} PathSnoc(h: Heap, n: NodeId, path: seq<nat>, i: nat)
    requires Forward(h) && n < |h| && PathEnd(h, n, path).Some?
    requires i < |h[PathEnd(h, n, path).value].parsers|
    ensures var p := h[PathEnd(h, n, path).value].parsers[i];
      PathEnd(h, n, path + [i]) == Some(p.node) && PathConfs(h, n, path + [i]) == PathConfs(h, n, path) + [p.conf]
    decreases |path|
  {
    if path == [] {
      assert [] + [i] == [i] && [i][1..] == [];
    } else {
      assert (path + [i])[1..] == path[1..] + [i];
      PathSnoc(h, h[n].parsers[path[0]].node, path[1..], i);
    }
  }

  lemma {:induction false} FollowPath(h: Heap, root: NodeId, w: Rule) returns (path: seq<nat>)
    requires Forward(h) && root < |h| && Follow(h, root, w).Some?
    ensures PathEnd(h, root, path) == Follow(h, root, w) && PathConfs(h, root, path) == w
    decreases |w|
  {
    path := [];
    if w != [] {
      var front := w[..|w| - 1];
      var path1 := FollowPath(h, root, front);
      var n := Follow(h, root, front).value;
      var i := FindConf(h[n].parsers, w[|w| - 1]);
      PathSnoc(h, root, path1, i);
      path := path1 + [i];
      assert front + [w[|w| - 1]] == w;
    }
  }

  /** The root-to-terminal paths are exactly the rules. */
  lemma {:induction false} TreeLanguage(h: Heap, words: seq<Rule>, rules: set<Rule>, w: Rule)
    requires Tree(h, words, rules)
    ensures w in rules <==>
      exists path :: PathEnd(h, 0, path).Some? && h[PathEnd(h, 0, path).value].terminal && PathConfs(h, 0, path) == w
  {
    RootWord(h, words, rules);
    if w in rules {
      var path := FollowPath(h, 0, w);
      PathWord(h, words, 0, path);
      assert words[0] + w == w;
    }
    if path :| PathEnd(h, 0, path).Some? && h[PathEnd(h, 0, path).value].terminal && PathConfs(h, 0, path) == w {
      PathWord(h, words, 0, path);
      assert words[0] + w == w;
    }
  }

  /** Apply the parsers of a rule one after the other. */
  function RunRule(inp: Input, rule: Rule, offs: nat): Option<nat>
    decreases |rule|
  {
    if rule == [] then Some(offs) else
    var end := Parse(inp, NewParser(rule[0], 0), offs);
    if end.Some? then RunRule(inp, rule[1..], end.value) else None
  }

  /** The rule matches the whole message. */
  predicate Matches(inp: Input, rule: Rule) {
    RunRule(inp, rule, 0) == Some(|inp.msg|)
  }

  lemma {:induction false} WalkRuns(h: Heap, inp: Input, n: NodeId, offs: nat, path: seq<nat>)
    requires Forward(h) && Uncompacted(h) && n < |h|
    ensures Walk(h, inp, n, offs, path).Some? <==>
      PathEnd(h, n, path).Some? && RunRule(inp, PathConfs(h, n, path), offs).Some?
    ensures Walk(h, inp, n, offs, path).Some? ==>
      Walk(h, inp, n, offs, path).value ==
      Place(PathEnd(h, n, path).value, RunRule(inp, PathConfs(h, n, path), offs).value)
    decreases |path|
  {
    if path != [] && path[0] < |h[n].parsers| {
      var p := h[n].parsers[path[0]];
      assert Parse(inp, p, offs) == Parse(inp, NewParser(p.conf, 0), offs);
      var end := Parse(inp, p, offs);
      if PathEnd(h, n, path).Some? {
        assert PathConfs(h, n, path)[1..] == PathConfs(h, p.node, path[1..]);
      }
      if end.Some? {
        WalkRuns(h, inp, p.node, end.value, path[1..]);
      }
    }
  }

  /** The tree accepts a message exactly if one of its rules matches it. */
  lemma {:induction false} AcceptsIffRule(h: Heap, words: seq<Rule>, rules: set<Rule>, inp: Input)
    requires Tree(h, words, rules)
    ensures Accepts(h, inp, 0, 0, false) <==> exists r :: r in rules && Matches(inp, r)
  {
    TreeShape(h, words, rules);
    if path :| Accepting(h, inp, 0, 0, path, false) {
      WalkRuns(h, inp, 0, 0, path);
      TreeLanguage(h, words, rules, PathConfs(h, 0, path));
    }
    if r :| r in rules && Matches(inp, r) {
      TreeLanguage(h, words, rules, r);
      var path :| PathEnd(h, 0, path).Some? && h[PathEnd(h, 0, path).value].terminal && PathConfs(h, 0, path) == r;
      WalkRuns(h, inp, 0, 0, path);
      assert Accepting(h, inp, 0, 0, path, false);
    }
  }

  /** Literal text in a rule matches exactly itself, although it is stored character by character. */
  lemma {:induction false} LiteralTextMatches(inp: Input, text: string, rest: Rule, offs: nat)
    requires offs <= |inp.msg|
    ensures RunRule(inp, LiteralConfs(text) + rest, offs) ==
      if PrefixAt(text, inp.msg, offs) then RunRule(inp, rest, offs + |text|) else None
    decreases |text|
  {
    var rule := LiteralConfs(text) + rest;
    if text == "" {
      assert rule == rest;
    } else {
      assert rule[0] == LiteralConf(text[0]) && rule[1..] == LiteralConfs(text[1..]) + rest;
      assert text == [text[0]] + text[1..];
      PrefixConcat([text[0]], text[1..], inp.msg, offs);
      if PrefixAt([text[0]], inp.msg, offs) {
        LiteralTextMatches(inp, text[1..], rest, offs + 1);
      }
    }
  }

  // ----- rules piece by piece -----

  /** Where a piece of a rule stops when it is started at `offs`. */
  function RunPiece(inp: Input, c: PrsConf, offs: nat): Option<nat>
    decreases c
  {
    match c
    case Obj(conf) => Parse(inp, NewParser(conf, 0), offs)
    case Alt(_) => None
    case Arr(items) => RunPieces(inp, items, 0, offs)
  }

  /** The pieces from the i-th on, one behind the other. */
  function RunPieces(inp: Input, items: seq<PrsConf>, i: nat, offs: nat): Option<nat>
    requires i <= |items|
    decreases items, |items| - i
  {
    if i == |items| then Some(offs) else
    var end := RunPiece(inp, items[i], offs);
    if end.Some? then RunPieces(inp, items, i + 1, end.value) else None
  }

  /** Literal text stands in the message as it is written; fields take what their parsers take. */
  function RunItems(inp: Input, items: seq<Item>, offs: nat): Option<nat> {
    if items == [] then Some(offs) else
    match items[0]
    case Text(text) =>
      if offs + |text| <= |inp.msg| && inp.msg[offs..offs + |text|] == text
      then RunItems(inp, items[1..], offs + |text|) else None
    case FieldItem(conf) =>
      var end := RunPiece(inp, conf, offs);
      if end.Some? then RunItems(inp, items[1..], end.value) else None
  }

  lemma {:induction false} RunConcat(inp: Input, a: Rule, b: Rule, offs: nat)
    ensures RunRule(inp, a + b, offs) ==
      if RunRule(inp, a, offs).Some? then RunRule(inp, b, RunRule(inp, a, offs).value) else None
    decreases |a|
  {
    if a == [] {
      assert a + b == b;
    } else {
      var end := Parse(inp, NewParser(a[0], 0), offs);
      assert (a + b)[1..] == a[1..] + b;
      if end.Some? { RunConcat(inp, a[1..], b, end.value); }
    }
  }

  lemma {:induction false} PieceRuns(inp: Input, c: PrsConf, offs: nat)
    requires NoAlternative(c)
    ensures RunRule(inp, Flatten(c), offs) == RunPiece(inp, c, offs)
    decreases c
  {
    match c
    case Obj(conf) =>
      var end := Parse(inp, NewParser(conf, 0), offs);
      assert [conf][1..] == [];
      assert end.Some? ==> RunRule(inp, [], end.value) == end;
    case Arr(items) =>
      PiecesRun(inp, items, |items|, offs);
      assert items[..|items|] == items;
  }

  /** The first `k` pieces. */
  function RunFirst(inp: Input, items: seq<PrsConf>, k: nat, offs: nat): Option<nat>
    requires k <= |items|
  {
    if k == 0 then Some(offs) else
    var mid := RunFirst(inp, items, k - 1, offs);
    if mid.Some? then RunPiece(inp, items[k - 1], mid.value) else None
  }

  lemma {:induction false} FirstThenRest(inp: Input, items: seq<PrsConf>, k: nat, offs: nat)
    requires k <= |items|
    ensures RunPieces(inp, items, 0, offs) ==
      if RunFirst(inp, items, k, offs).Some? then RunPieces(inp, items, k, RunFirst(inp, items, k, offs).value)
      else None
  {
    if k > 0 {
      FirstThenRest(inp, items, k - 1, offs);
    }
  }

  lemma {:induction false} PiecesRun(inp: Input, items: seq<PrsConf>, k: nat, offs: nat)
    requires k <= |items| && forall i :: 0 <= i < |items| ==> NoAlternative(items[i])
    ensures RunRule(inp, FlattenAll(items[..k]), offs) == RunFirst(inp, items, k, offs)
    ensures k == |items| ==> RunRule(inp, FlattenAll(items[..k]), offs) == RunPieces(inp, items, 0, offs)
    decreases items, k
  {
    hide Flatten;
    FirstThenRest(inp, items, k, offs);
    if k > 0 {
      PiecesRun(inp, items, k - 1, offs);
      assert items[..k][..k - 1] == items[..k - 1];
      RunConcat(inp, FlattenAll(items[..k - 1]), Flatten(items[k - 1]), offs);
      var mid := RunFirst(inp, items, k - 1, offs);
      if mid.Some? { PieceRuns(inp, items[k - 1], mid.value); }
    }
  }

  lemma ConfsLast(items: seq<Item>)
    requires forall i :: 0 <= i < |items| ==> ProperItem(items[i])
    ensures items == [] ==> Confs(items) == []
    ensures items != [] ==> Confs(items) == Confs(items[..|items| - 1]) + ItemConfs(items[|items| - 1])
  {
    hide ItemConfs;
  }

  lemma {:induction false} ConfsFirst(items: seq<Item>)
    requires items != [] && forall i :: 0 <= i < |items| ==> ProperItem(items[i])
    ensures Confs(items) == ItemConfs(items[0]) + Confs(items[1..])
    decreases |items|
  {
    hide ItemConfs, ProperItem, Confs;
    var front, last, rest := items[..|items| - 1], items[|items| - 1], items[1..];
    ConfsLast(items);
    ConfsLast(rest);
    if rest == [] {
      ConfsLast(front);
    } else {
      ConfsFirst(front);
      assert front[1..] == rest[..|rest| - 1] && rest[|rest| - 1] == last;
      var a, b, c := ItemConfs(items[0]), Confs(front[1..]), ItemConfs(last);
      assert a + b + c == a + (b + c);
    }
  }

  /** The configurations of a rule match what its pieces match one behind the other. */
  lemma {:induction false} RuleRunsItems(inp: Input, items: seq<Item>, offs: nat)
    requires offs <= |inp.msg| && forall i :: 0 <= i < |items| ==> ProperItem(items[i])
    ensures RunRule(inp, Confs(items), offs) == RunItems(inp, items, offs)
    decreases |items|
  {
    hide LiteralConfs, Parse;
    if items != [] {
      ConfsFirst(items);
      var rest := Confs(items[1..]);
      match items[0]
      case Text(text) =>
        LiteralTextMatches(inp, text, rest, offs);
        if PrefixAt(text, inp.msg, offs) { RuleRunsItems(inp, items[1..], offs + |text|); }
      case FieldItem(conf) =>
        assert ProperItem(items[0]);
        RunConcat(inp, Flatten(conf), rest, offs);
        PieceRuns(inp, conf, offs);
        var end := RunPiece(inp, conf, offs);
        if end.Some? {
          PieceBounds(inp, conf, offs);
          RuleRunsItems(inp, items[1..], end.value);
        }
    }
  }

  lemma {:induction false} PieceBounds(inp: Input, c: PrsConf, offs: nat)
    requires offs <= |inp.msg| && RunPiece(inp, c, offs).Some?
    ensures RunPiece(inp, c, offs).value <= |inp.msg|
    decreases c
  {
    match c
    case Arr(items) => PiecesBound(inp, items, 0, offs);
    case _ =>
  }

  lemma {:induction false} PiecesBound(inp: Input, items: seq<PrsConf>, i: nat, offs: nat)
    requires i <= |items| && offs <= |inp.msg| && RunPieces(inp, items, i, offs).Some?
    ensures RunPieces(inp, items, i, offs).value <= |inp.msg|
    decreases items, |items| - i
  {
    if i < |items| {
      PieceBounds(inp, items[i], offs);
      PiecesBound(inp, items, i + 1, RunPiece(inp, items[i], offs).value);
    }
  }

  // ----- the code -----

  /** parseLiteral: one parser per character. */
  method AddLiteral(mem: Memory, text: string, dag0: NodeId, ghost outside: multiset<NodeId>) returns (dag: NodeId)
    requires Sound(mem.nodes, outside, dag0, None)
    modifies mem
    ensures Forward(old(mem.nodes)) && dag0 < |old(mem.nodes)| && Sound(mem.nodes, outside, dag, None)
    ensures Grown(old(mem.nodes), mem.nodes)
    ensures (mem.nodes, dag) == AddPath(old(mem.nodes), dag0, LiteralConfs(text))
  {
    hide Sound, AddEdge;
    SoundForward(mem.nodes, outside, dag0, None);
    dag := dag0;
    var i := 0;
    assert LiteralConfs(text)[..0] == [];
    while i < |text|
      invariant i <= |text| && Sound(mem.nodes, outside, dag, None) && Grown(old(mem.nodes), mem.nodes)
      invariant (mem.nodes, dag) == AddPath(old(mem.nodes), dag0, LiteralConfs(text)[..i])
    {
      ghost var confs, h := LiteralConfs(text), mem.nodes;
      assert confs[..i + 1][..i] == confs[..i] && confs[..i + 1] == confs[..i] + [confs[i]];
      dag := AddField(mem, PrsConf.Obj(LiteralConf(text[i])), dag, outside);
      GrownTrans(old(mem.nodes), h, mem.nodes);
      AddPathConcat(old(mem.nodes), dag0, confs[..i], [confs[i]]);
      i := i + 1;
    }
    assert LiteralConfs(text)[..i] == LiteralConfs(text);
  }

  /** ln_pdagAddParser */
  method AddField(mem: Memory, c: PrsConf, dag0: NodeId, ghost outside: multiset<NodeId>) returns (dag: NodeId)
    requires Sound(mem.nodes, outside, dag0, None) && Proper(c) && NoAlternative(c)
    modifies mem
    ensures Forward(old(mem.nodes)) && dag0 < |old(mem.nodes)| && Sound(mem.nodes, outside, dag, None)
    ensures Grown(old(mem.nodes), mem.nodes)
    ensures (mem.nodes, dag) == AddPath(old(mem.nodes), dag0, Flatten(c))
  {
    SoundForward(mem.nodes, outside, dag0, None);
    AddPathFromNone(mem.nodes, dag0, Flatten(c));
    var ok, next;
    ok, dag, next := AddParserInternal(mem, c, SEQ, dag0, None, outside);
  }

  /** The loop of addSampToTree: literals and fields in turn. */
  method AddItems(mem: Memory, items: seq<Item>, ghost outside: multiset<NodeId>) returns (dag: NodeId)
    requires forall i :: 0 <= i < |items| ==> ProperItem(items[i])
    requires Sound(mem.nodes, outside, 0, None)
    modifies mem
    ensures Forward(old(mem.nodes)) && |old(mem.nodes)| > 0 && Sound(mem.nodes, outside, dag, None)
    ensures Grown(old(mem.nodes), mem.nodes) && (mem.nodes, dag) == AddPath(old(mem.nodes), 0, Confs(items))
  {
    hide Sound, AddEdge, Grown, Flatten, LiteralConfs, WellFormed, Confs;
    SoundForward(mem.nodes, outside, 0, None);
    GrownRefl(mem.nodes);
    dag := 0;
    var i := 0;
    assert items[..0] == [];
    ConfsLast([]);
    while i < |items|
      invariant i <= |items| && Sound(mem.nodes, outside, dag, None) && Grown(old(mem.nodes), mem.nodes)
      invariant (mem.nodes, dag) == AddPath(old(mem.nodes), 0, Confs(items[..i]))
    {
      assert items[..i + 1][..i] == items[..i] && items[..i + 1][i] == items[i];
      assert ProperItem(items[i]);
      ConfsLast(items[..i + 1]);
      ghost var h := mem.nodes;
      ghost var confs := ItemConfs(items[i]);
      match items[i] {
        case Text(text) => dag := AddLiteral(mem, text, dag, outside);
        case FieldItem(conf) => dag := AddField(mem, conf, dag, outside);
      }
      GrownTrans(old(mem.nodes), h, mem.nodes);
      AddPathConcat(old(mem.nodes), 0, Confs(items[..i]), confs);
      i := i + 1;
    }
    assert items[..i] == items;
  }

  /** addSampToTree: add the items of a rule and mark the last node. */
  method AddRule(mem: Memory, items: seq<Item>, ghost words: seq<Rule>, ghost rules: set<Rule>,
      ghost outside: multiset<NodeId>)
    returns (ghost words1: seq<Rule>)
    requires forall i :: 0 <= i < |items| ==> ProperItem(items[i])
    requires Tree(mem.nodes, words, rules) && Sound(mem.nodes, outside, 0, None)
    modifies mem
    ensures Tree(mem.nodes, words1, rules + {Confs(items)}) && Sound(mem.nodes, outside, 0, None)
  {
    hide Sound, Tree, AddPath, Confs, WellFormed;
    TreeShape(mem.nodes, words, rules);
    var dag := AddItems(mem, items, outside);
    words1 := TreePath(old(mem.nodes), words, rules, outside, 0, Confs(items));
    RootWord(old(mem.nodes), words, rules);
    TreeShape(mem.nodes, words1, rules);
    assert words[0] + Confs(items) == Confs(items);
    SoundMove(old(mem.nodes), mem.nodes, outside, 0, None, dag);
    TreeTerminal(mem.nodes, words1, rules, outside, dag);
    MarkSound(mem.nodes, outside, dag);
    SoundForward(mem.nodes, outside, dag, None);
    mem.nodes := mem.nodes[dag := mem.nodes[dag].(terminal := true)];
  }

  /** The rules of a rule base as sequences of configurations. */
  ghost function RuleSet(rules: seq<seq<Item>>): set<Rule>
    requires forall i, j :: 0 <= i < |rules| && 0 <= j < |rules[i]| ==> ProperItem(rules[i][j])
  {
    set i | 0 <= i < |rules| :: Confs(rules[i])
  }

  lemma {:induction false} EmptyTree()
    ensures var h := [Node(true, [], false, 1)]; Tree(h, [[]], {}) && Sound(h, multiset{0}, 0, None)
  {
  }

  /** Build a rule base without alternatives, optimize it, and it accepts exactly the
      messages that one of its rules matches. */
  method BuildRuleBase(rules: seq<seq<Item>>) returns (mem: Memory)
    requires forall i, j :: 0 <= i < |rules| && 0 <= j < |rules[i]| ==> ProperItem(rules[i][j])
    ensures fresh(mem) && |mem.nodes| > 0 && WellFormed(mem.nodes, multiset{0})
    ensures forall inp :: Accepts(mem.nodes, inp, 0, 0, false) <==> exists r :: r in RuleSet(rules) && Matches(inp, r)
    ensures forall inp :: Accepts(mem.nodes, inp, 0, 0, false) <==>
      exists i :: 0 <= i < |rules| && RunItems(inp, rules[i], 0) == Some(|inp.msg|)
  {
    hide Sound, Tree, WellFormed;
    mem := new Memory();
    mem.nodes := [Node(true, [], false, 1)];
    EmptyTree();
    ghost var words: seq<Rule> := [[]];
    var i := 0;
    ghost var done: set<Rule> := {};
    while i < |rules|
      invariant i <= |rules| && fresh(mem) && done == set k | 0 <= k < i :: Confs(rules[k])
      invariant Tree(mem.nodes, words, done) && Sound(mem.nodes, multiset{0}, 0, None)
    {
      words := AddRule(mem, rules[i], words, done, multiset{0});
      done := done + {Confs(rules[i])};
      i := i + 1;
    }
    ghost var h := mem.nodes;
    TreeShape(h, words, done);
    AtRoot(h);
    Optimize(mem, 0);
    FormedForward(mem.nodes, multiset{0});
    assert done == RuleSet(rules);
    hide Accepts, Matches, RuleSet;
    forall inp
      ensures Accepts(mem.nodes, inp, 0, 0, false) <==> exists r :: r in RuleSet(rules) && Matches(inp, r)
    {
      AcceptsIffRule(h, words, done, inp);
    }
    forall inp
      ensures Accepts(mem.nodes, inp, 0, 0, false) <==>
        exists i :: 0 <= i < |rules| && RunItems(inp, rules[i], 0) == Some(|inp.msg|)
    {
      SomeRuleMatches(inp, rules);
    }
  }

  lemma SomeRuleMatches(inp: Input, rules: seq<seq<Item>>)
    requires forall i, j :: 0 <= i < |rules| && 0 <= j < |rules[i]| ==> ProperItem(rules[i][j])
    ensures (exists r :: r in RuleSet(rules) && Matches(inp, r)) <==>
      exists i :: 0 <= i < |rules| && RunItems(inp, rules[i], 0) == Some(|inp.msg|)
  {
    hide Confs, RunItems, RunRule;
    forall i | 0 <= i < |rules|
      ensures Matches(inp, Confs(rules[i])) <==> RunItems(inp, rules[i], 0) == Some(|inp.msg|)
      ensures Confs(rules[i]) in RuleSet(rules)
    {
      RuleRunsItems(inp, rules[i], 0);
    }
  }

  lemma {:induction false} AtRoot(h: Heap)
    requires Sound(h, multiset{0}, 0, None)
    ensures |h| > 0 && h[0].live && WellFormed(h, multiset{0}) && Forward(h)
  {
  }
}
