/**
 Sequences among alternatives: which sequences of parsers lead through the nodes that
 are built for them.
 */
module AlternativeWords {
  import opened Json
  import opened Pdag
  import opened RuleTree
  import opened RuleBase
  import opened Alternatives

  predicate EndsWith(w: Rule, v: Rule) {
    |v| <= |w| && w[|w| - |v|..] == v
  }

  function Before(w: Rule, v: Rule): Rule
    requires EndsWith(w, v)
  {
    w[..|w| - |v|]
  }

  lemma {:induction false} EndsConcat(w: Rule, a: Rule, b: Rule)
    ensures EndsWith(w, a + b) <==> EndsWith(w, b) && EndsWith(Before(w, b), a)
    ensures EndsWith(w, a + b) ==> Before(w, a + b) == Before(Before(w, b), a)
  {
    if EndsWith(w, b) && EndsWith(Before(w, b), a) {
      var k := |w| - |a| - |b|;
      assert w[k..] == w[k..|w| - |b|] + w[|w| - |b|..];
      assert Before(w, b)[k..] == w[k..|w| - |b|];
    }
    if EndsWith(w, a + b) {
      var k := |w| - |a| - |b|;
      assert w[|w| - |b|..] == w[k..][|a|..] == b;
      assert Before(w, b)[k..] == w[k..][..|a|] == a;
    }
  }

  lemma {:induction false} EndsOne(w: Rule, c: Config)
    ensures EndsWith(w, [c]) <==> w != [] && w[|w| - 1] == c
    ensures EndsWith(w, [c]) ==> Before(w, [c]) == w[..|w| - 1]
  {
  }

  // ----- an edge to a leaf -----

  ghost predicate LeafEdge(h: Heap, r: Heap, m: NodeId, c: Config, t: NodeId) {
    && Forward(h) && Forward(r) && m < |h| <= |r| && m < t < |r|
    && FindConf(h[m].parsers, c) == |h[m].parsers| && r[m].parsers == h[m].parsers + [NewParser(c, t)]
    && r[t].parsers == [] && (t < |h| ==> h[t].parsers == [])
    && forall k :: 0 <= k < |h| && k != m ==> r[k].parsers == h[k].parsers
  }

  /** The new edge adds the words that take it last, and no others. */
  lemma {:induction false} LeafEdgeWords(h: Heap, r: Heap, m: NodeId, c: Config, t: NodeId, root: NodeId, w: Rule)
    requires LeafEdge(h, r, m, c, t) && root < |h|
    ensures Follow(r, root, w) ==
      if Follow(h, root, w).Some? then Follow(h, root, w)
      else if EndsWith(w, [c]) && Follow(h, root, Before(w, [c])) == Some(m) then Some(t) else None
    decreases |w|
  {
    if w != [] {
      var u, x := w[..|w| - 1], w[|w| - 1];
      EndsOne(w, c);
      LeafEdgeWords(h, r, m, c, t, root, u);
      if Follow(h, root, u) == Some(m) { FindAppended(h[m].parsers, NewParser(c, t), x); }
    }
  }

  lemma {:induction false} NewLeaf(h: Heap, m: NodeId, c: Config)
    requires Forward(h) && m < |h| && FindConf(h[m].parsers, c) == |h[m].parsers|
    ensures var (r, t) := AddEdge(h, m, c, None); LeafEdge(h, r, m, c, t) && t == |h| && |r| == |h| + 1
  {
  }

  lemma {:induction false} SharedLeaf(h: Heap, m: NodeId, c: Config, t: NodeId)
    requires Forward(h) && m < t < |h| && h[t].parsers == [] && FindConf(h[m].parsers, c) == |h[m].parsers|
    ensures var (r, n) := AddEdge(h, m, c, Some(t)); LeafEdge(h, r, m, c, t) && n == t && |r| == |h|
  {
  }

  // ----- a path behind a leaf -----

  /** A path that is added behind a leaf ends at a leaf; nothing else gets a parser. */
  lemma {:induction false} PathLeaf(h: Heap, m: NodeId, rest: Rule)
    requires Forward(h) && m < |h| && h[m].parsers == []
    ensures var (r, n) := AddPath(h, m, rest);
      && r[n].parsers == [] && (if rest == [] then r == h && n == m else n >= |h|)
      && forall k :: 0 <= k < |h| && k != m ==> r[k].parsers == h[k].parsers
    decreases |rest|
  {
    if rest != [] {
      var front, c := rest[..|rest| - 1], rest[|rest| - 1];
      PathLeaf(h, m, front);
      var (h1, m1) := AddPath(h, m, front);
      hide AddEdge;
      NewLeaf(h1, m1, c);
    }
  }

  /** To the end of the path lead the words to the leaf with the path appended; to the
      nodes that were there lead the same words as before. */
  lemma {:induction false} PathWords(h: Heap, m: NodeId, rest: Rule, root: NodeId, w: Rule)
    requires Forward(h) && m < |h| && h[m].parsers == [] && root < |h|
    ensures var (r, n) := AddPath(h, m, rest);
      && (Follow(r, root, w) == Some(n) <==> EndsWith(w, rest) && Follow(h, root, Before(w, rest)) == Some(m))
      && forall t :: 0 <= t < |h| ==> (Follow(r, root, w) == Some(t) <==> Follow(h, root, w) == Some(t))
    decreases |rest|
  {
    if rest == [] {
      assert Before(w, []) == w;
    } else {
      var front, c := rest[..|rest| - 1], rest[|rest| - 1];
      assert front + [c] == rest;
      EndsConcat(w, front, [c]);
      EndsOne(w, c);
      PathLeaf(h, m, front);
      var (h1, m1) := AddPath(h, m, front);
      var (r, n) := AddEdge(h1, m1, c, None);
      assert AddPath(h, m, rest) == (r, n);
      hide AddEdge, AddPath, Follow, FindConf, EndsWith, Before;
      NewLeaf(h1, m1, c);
      LeafEdgeWords(h1, r, m1, c, n, root, w);
      hide LeafEdge;
      PathWords(h, m, front, root, w);
      if EndsWith(w, [c]) { PathWords(h, m, front, root, Before(w, [c])); }
    }
  }

  // ----- alternatives behind a leaf -----

  ghost predicate NonEmpty(ws: seq<Rule>) {
    forall i :: 0 <= i < |ws| ==> ws[i] != []
  }

  ghost predicate DistinctStarts(ws: seq<Rule>)
    requires NonEmpty(ws)
  {
    forall i, j :: 0 <= i < j < |ws| ==> ws[i][0] != ws[j][0]
  }

  /** What alternative `j` has become: of every later alternative all but the first parser
      is demanded behind it. */
  function Demanded(ws: seq<Rule>, j: nat): (w: Rule)
    requires NonEmpty(ws) && j < |ws|
    ensures ws[j] <= w
  {
    if j == |ws| - 1 then ws[j] else Demanded(ws[..|ws| - 1], j) + ws[|ws| - 1][1..]
  }

  lemma {:induction false} AltsStep(h: Heap, dag: NodeId, front: seq<Rule>, c: Config, rest: Rule)
    requires Forward(h) && dag < |h| && NonEmpty(front)
    ensures NonEmpty(front + [[c] + rest])
    ensures var (h1, n1) := AddAlts(h, dag, front, None);
      var (h2, n2) := AddEdge(h1, dag, c, n1);
      && n2 < |h2| && Forward(h2)
      && AddAlts(h, dag, front + [[c] + rest], None) == (AddPath(h2, n2, rest).0, Some(AddPath(h2, n2, rest).1))
  {
    var ws := front + [[c] + rest];
    assert ws[..|ws| - 1] == front && ([c] + rest)[1..] == rest;
    var (h1, n1) := AddAlts(h, dag, front, None);
    hide AddEdge, AddPath;
    EdgeForward(h1, dag, c, n1);
  }

  lemma {:induction false} EdgeForward(h: Heap, dag: NodeId, c: Config, next: Option<NodeId>)
    requires Forward(h) && dag < |h| && (next.Some? ==> dag < next.value < |h|)
    ensures var (r, n) := AddEdge(h, dag, c, next); Forward(r) && n < |r|
  {
    assert FindConf(h[dag].parsers, c) <= |h[dag].parsers|;
  }

  lemma {:induction false} Snoc(ws: seq<Rule>) returns (front: seq<Rule>, c: Config, rest: Rule)
    requires NonEmpty(ws) && ws != []
    ensures ws == front + [[c] + rest] && NonEmpty(front) && front == ws[..|ws| - 1] && [c] + rest == ws[|ws| - 1]
    ensures DistinctStarts(ws) ==> DistinctStarts(front) && forall i :: 0 <= i < |front| ==> front[i][0] != c
  {
    front, c, rest := ws[..|ws| - 1], ws[|ws| - 1][0], ws[|ws| - 1][1..];
    assert [c] + rest == ws[|ws| - 1];
  }

  lemma NothingAlternative(h: Heap, dag: NodeId)
    requires Forward(h) && dag < |h|
    ensures AddAlts(h, dag, [], None) == (h, None)
  {
  }

  predicate IsStart(ws: seq<Rule>, c: Config)
    requires NonEmpty(ws)
  {
    exists i :: 0 <= i < |ws| && ws[i][0] == c
  }

  /** The node has only parsers with which one of the alternatives starts. */
  ghost predicate OnlyStarts(r: Heap, dag: NodeId, ws: seq<Rule>)
    requires dag < |r| && NonEmpty(ws)
  {
    forall c :: Goes(r, dag, c).Some? ==> IsStart(ws, c)
  }

  lemma {:induction false} StartsGrow(h: Heap, r: Heap, dag: NodeId, front: seq<Rule>, c: Config, rest: Rule, t: NodeId)
    requires LeafEdge(h, r, dag, c, t) && NonEmpty(front) && OnlyStarts(h, dag, front)
    ensures NonEmpty(front + [[c] + rest]) && OnlyStarts(r, dag, front + [[c] + rest])
  {
    var ws := front + [[c] + rest];
    assert ws[|front|][0] == c;
    forall x | Goes(r, dag, x).Some? ensures IsStart(ws, x) {
      FindAppended(h[dag].parsers, NewParser(c, t), x);
      if x != c {
        assert Goes(h, dag, x).Some? && IsStart(front, x);
        var i :| 0 <= i < |front| && front[i][0] == x;
        assert ws[i][0] == x;
      }
    }
  }

  /** Behind a leaf, alternatives that start differently end at a leaf, and only the node
      itself gets new parsers. */
  ghost predicate AltsShape(h: Heap, r: Heap, dag: NodeId, ws: seq<Rule>, n: Option<NodeId>)
    requires NonEmpty(ws)
  {
    && dag < |h| <= |r| && Forward(r) && OnlyStarts(r, dag, ws)
    && (n.Some? ==> |h| <= n.value < |r| && r[n.value].parsers == [])
    && (forall k :: 0 <= k < |h| && k != dag ==> r[k].parsers == h[k].parsers)
  }

  /** The first edge of the next alternative leads to a leaf. */
  lemma {:induction false} AltsEdge(h: Heap, h1: Heap, dag: NodeId, front: seq<Rule>, n1: Option<NodeId>, c: Config)
    requires NonEmpty(front) && AltsShape(h, h1, dag, front, n1) && !IsStart(front, c)
    ensures var (h2, n2) := AddEdge(h1, dag, c, n1); LeafEdge(h1, h2, dag, c, n2) && n2 >= |h|
  {
    assert Goes(h1, dag, c).None?;
    if n1.Some? { SharedLeaf(h1, dag, c, n1.value); } else { NewLeaf(h1, dag, c); }
  }

  lemma {:induction false} AltsLeaf(h: Heap, dag: NodeId, ws: seq<Rule>)
    requires Forward(h) && dag < |h| && h[dag].parsers == [] && NonEmpty(ws) && DistinctStarts(ws)
    ensures var (r, n) := AddAlts(h, dag, ws, None); AltsShape(h, r, dag, ws, n)
    decreases |ws|
  {
    NothingAlternative(h, dag);
    if ws != [] {
      var front, c, rest := Snoc(ws);
      AltsStep(h, dag, front, c, rest);
      AltsLeaf(h, dag, front);
      hide AddAlts, AddPath, AddEdge, OnlyStarts, Goes;
      var (h1, n1) := AddAlts(h, dag, front, None);
      AltsEdge(h, h1, dag, front, n1, c);
      var (h2, n2) := AddEdge(h1, dag, c, n1);
      StartsGrow(h1, h2, dag, front, c, rest, n2);
      PathLeaf(h2, n2, rest);
      StartsSame(h2, AddPath(h2, n2, rest).0, dag, ws);
    }
  }

  lemma StartsSame(h: Heap, r: Heap, dag: NodeId, ws: seq<Rule>)
    requires dag < |h| && dag < |r| && r[dag].parsers == h[dag].parsers && NonEmpty(ws) && OnlyStarts(h, dag, ws)
    ensures OnlyStarts(r, dag, ws)
  {
    assert forall c :: Goes(r, dag, c) == Goes(h, dag, c);
  }

  lemma {:induction false} DemandedMore(front: seq<Rule>, last: Rule)
    requires NonEmpty(front) && last != []
    ensures var ws := front + [last];
      && NonEmpty(ws) && Demanded(ws, |front|) == last
      && forall j :: 0 <= j < |front| ==> Demanded(ws, j) == Demanded(front, j) + last[1..]
  {
    assert (front + [last])[..|front|] == front;
  }

  /** `w` ends with what an alternative has become, and leads to the node before that. */
  ghost predicate Takes(h: Heap, root: NodeId, dag: NodeId, ws: seq<Rule>, w: Rule, j: nat)
    requires Forward(h) && root < |h| && NonEmpty(ws) && j < |ws|
  {
    EndsWith(w, Demanded(ws, j)) && Follow(h, root, Before(w, Demanded(ws, j))) == Some(dag)
  }

  ghost predicate TakesOne(h: Heap, root: NodeId, dag: NodeId, ws: seq<Rule>, w: Rule)
    requires Forward(h) && root < |h| && NonEmpty(ws)
  {
    exists j: nat :: j < |ws| && Takes(h, root, dag, ws, w, j)
  }

  ghost predicate TakesEdge(h: Heap, root: NodeId, dag: NodeId, w: Rule, c: Config)
    requires Forward(h) && root < |h|
  {
    EndsWith(w, [c]) && Follow(h, root, Before(w, [c])) == Some(dag)
  }

  lemma {:induction false} TakesMore(h: Heap, root: NodeId, dag: NodeId, front: seq<Rule>, c: Config, rest: Rule,
      w: Rule)
    requires Forward(h) && root < |h| && NonEmpty(front)
    ensures NonEmpty(front + [[c] + rest])
    ensures TakesOne(h, root, dag, front + [[c] + rest], w) <==>
      (EndsWith(w, rest) &&
       (TakesOne(h, root, dag, front, Before(w, rest)) || TakesEdge(h, root, dag, Before(w, rest), c)))
  {
    var ws := front + [[c] + rest];
    DemandedMore(front, [c] + rest);
    assert ([c] + rest)[1..] == rest;
    EndsConcat(w, [c], rest);
    forall j: nat | j < |front|
      ensures Takes(h, root, dag, ws, w, j) <==>
        EndsWith(w, rest) && Takes(h, root, dag, front, Before(w, rest), j)
    {
      EndsConcat(w, Demanded(front, j), rest);
    }
    hide Demanded, EndsWith, Before, Follow;
    assert Takes(h, root, dag, ws, w, |front|) <==> EndsWith(w, rest) && TakesEdge(h, root, dag, Before(w, rest), c);
  }

  /** To the end of the alternatives lead the words to the node with one of them, as it
      has become, appended; to the nodes that were there lead the same words as before. */
  lemma {:induction false} AltsWords(h: Heap, dag: NodeId, ws: seq<Rule>, root: NodeId, w: Rule)
    requires Forward(h) && dag < |h| && h[dag].parsers == [] && root < |h|
    requires NonEmpty(ws) && DistinctStarts(ws)
    ensures var (r, n) := AddAlts(h, dag, ws, None);
      && (n.Some? ==> (Follow(r, root, w) == n <==> TakesOne(h, root, dag, ws, w)))
      && forall t :: 0 <= t < |h| ==> (Follow(r, root, w) == Some(t) <==> Follow(h, root, w) == Some(t))
    decreases |ws|, 0
  {
    NothingAlternative(h, dag);
    if ws != [] {
      var front, c, rest := Snoc(ws);
      AltsStep(h, dag, front, c, rest);
      AltsLeaf(h, dag, front);
      var (h1, n1) := AddAlts(h, dag, front, None);
      AltsEdge(h, h1, dag, front, n1, c);
      var (h2, n2) := AddEdge(h1, dag, c, n1);
      hide AddAlts, AddPath, AddEdge, OnlyStarts, Goes, EndsWith, Before, Follow, TakesOne, TakesEdge;
      PathWords(h2, n2, rest, root, w);
      EdgeWords(h, dag, front, c, root, w);
      TakesMore(h, root, dag, front, c, rest, w);
      if EndsWith(w, rest) { EdgeWords(h, dag, front, c, root, Before(w, rest)); }
    }
  }

  /** The same behind the first edge of the next alternative. */
  lemma {:induction false} EdgeWords(h: Heap, dag: NodeId, front: seq<Rule>, c: Config, root: NodeId, w: Rule)
    requires Forward(h) && dag < |h| && h[dag].parsers == [] && root < |h|
    requires NonEmpty(front) && DistinctStarts(front) && !IsStart(front, c)
    ensures var (h1, n1) := AddAlts(h, dag, front, None);
      var (h2, n2) := AddEdge(h1, dag, c, n1);
      && Forward(h2) && root < |h2|
      && (Follow(h2, root, w) == Some(n2) <==> TakesOne(h, root, dag, front, w) || TakesEdge(h, root, dag, w, c))
      && forall t :: 0 <= t < |h| ==> (Follow(h2, root, w) == Some(t) <==> Follow(h, root, w) == Some(t))
    decreases |front|, 1
  {
    AltsLeaf(h, dag, front);
    NothingAlternative(h, dag);
    var (h1, n1) := AddAlts(h, dag, front, None);
    AltsEdge(h, h1, dag, front, n1, c);
    GoesAfter(h1, dag, c, n1);
    assert Goes(h1, dag, c).None?;
    var (h2, n2) := AddEdge(h1, dag, c, n1);
    hide AddAlts, AddEdge, OnlyStarts, Goes, EndsWith, Before, TakesOne, FindConf;
    LeafEdgeWords(h1, h2, dag, c, n2, root, w);
    AltsWords(h, dag, front, root, w);
    if EndsWith(w, [c]) { AltsWords(h, dag, front, root, Before(w, [c])); }
  }

  /** One of the alternatives, as it has become. */
  ghost predicate Spells(ws: seq<Rule>, w: Rule)
    requires NonEmpty(ws)
  {
    exists j: nat :: j < |ws| && w == Demanded(ws, j)
  }

  lemma {:induction false} OnlyEmptyStays(h: Heap, dag: NodeId, w: Rule)
    requires Forward(h) && dag < |h| && h[dag].parsers == []
    ensures Follow(h, dag, w) == if w == [] then Some(dag) else None
    decreases |w|
  {
    if w != [] { OnlyEmptyStays(h, dag, w[..|w| - 1]); }
  }

  /** The sequences of parsers that lead through the alternatives are exactly what the
      alternatives have become. */
  lemma {:induction false} AltsLanguage(h: Heap, dag: NodeId, ws: seq<Rule>, w: Rule)
    requires Forward(h) && dag < |h| && h[dag].parsers == []
    requires NonEmpty(ws) && DistinctStarts(ws) && ws != []
    ensures var (r, n) := AddAlts(h, dag, ws, None);
      r[n.value].parsers == [] && (Follow(r, dag, w) == n <==> Spells(ws, w))
  {
    AltsLeaf(h, dag, ws);
    AltsWords(h, dag, ws, dag, w);
    hide AddAlts, Follow, Demanded;
    forall j: nat | j < |ws| ensures Takes(h, dag, dag, ws, w, j) <==> w == Demanded(ws, j) {
      var v := Demanded(ws, j);
      if EndsWith(w, v) { OnlyEmptyStays(h, dag, Before(w, v)); }
      OnlyEmptyStays(h, dag, []);
    }
  }

  lemma {:induction false} DemandedFirst(ws: seq<Rule>)
    requires NonEmpty(ws) && ws != [] && Demanded(ws, 0) == ws[0]
    ensures forall i :: 1 <= i < |ws| ==> |ws[i]| == 1
    decreases |ws|
  {
    if |ws| > 1 {
      var front := ws[..|ws| - 1];
      assert Demanded(front, 0) == ws[0];
      DemandedFirst(front);
    }
  }

  lemma {:induction false} DemandedSingles(ws: seq<Rule>, j: nat)
    requires NonEmpty(ws) && j < |ws| && forall i :: 1 <= i < |ws| ==> |ws[i]| == 1
    ensures Demanded(ws, j) == ws[j]
    decreases |ws|
  {
    if j < |ws| - 1 { DemandedSingles(ws[..|ws| - 1], j); }
  }

  /** Every alternative, and nothing else, leads through exactly if behind the first there
      are only single parsers. */
  lemma {:induction false} SpellsItself(ws: seq<Rule>)
    requires NonEmpty(ws) && DistinctStarts(ws) && ws != []
    ensures (forall w :: Spells(ws, w) <==> w in ws) <==> (forall i :: 1 <= i < |ws| ==> |ws[i]| == 1)
  {
    if forall i :: 1 <= i < |ws| ==> |ws[i]| == 1 {
      forall j: nat | j < |ws| ensures Demanded(ws, j) == ws[j] { DemandedSingles(ws, j); }
      assert forall w :: w in ws ==> exists j: nat :: j < |ws| && w == ws[j] == Demanded(ws, j);
    }
    if forall w :: Spells(ws, w) <==> w in ws {
      assert ws[0] in ws && Spells(ws, ws[0]);
      var j: nat :| j < |ws| && ws[0] == Demanded(ws, j);
      assert ws[j] <= ws[0] && ws[j][0] == ws[0][0];
      DemandedFirst(ws);
    }
  }

  // ----- alternatives that may start alike -----

  lemma {:induction false} FollowUp(h: Heap, root: NodeId, w: Rule)
    requires Forward(h) && root < |h|
    ensures Follow(h, root, w).Some? && w != [] ==> Follow(h, root, w).value > root
    decreases |w|
  {
    if w != [] {
      FollowUp(h, root, w[..|w| - 1]);
      if |w| == 1 { assert w[..0] == []; }
    }
  }

  lemma {:induction false} FollowCons(h: Heap, root: NodeId, c: Config, w: Rule)
    requires Forward(h) && root < |h|
    ensures Goes(h, root, c).Some? ==> Goes(h, root, c).value < |h|
    ensures Follow(h, root, [c] + w) ==
      if Goes(h, root, c).Some? then Follow(h, Goes(h, root, c).value, w) else None
    decreases |w|
  {
    if w == [] {
      assert [c] + w == [c] && [c][..0] == [];
    } else {
      var u := w[..|w| - 1];
      FollowCons(h, root, c, u);
      assert ([c] + w)[..|w|] == [c] + u;
    }
  }

  lemma {:induction false} EdgeExtends(h: Heap, dag: NodeId, c: Config, next: Option<NodeId>)
    requires Forward(h) && dag < |h| && (next.Some? ==> dag < next.value < |h|)
    ensures var (r, n) := AddEdge(h, dag, c, next); Extends(h, r) && n < |r|
  {
    EdgeForward(h, dag, c, next);
  }

  lemma {:induction false} PathExtends(h: Heap, m: NodeId, confs: Rule)
    requires Forward(h) && m < |h|
    ensures Extends(h, AddPath(h, m, confs).0)
    decreases |confs|
  {
    if confs != [] {
      var front := confs[..|confs| - 1];
      PathExtends(h, m, front);
      var (h1, n1) := AddPath(h, m, front);
      hide AddEdge;
      EdgeExtends(h1, n1, confs[|confs| - 1], None);
    }
  }

  /** A path ends where its word leads. */
  lemma {:induction false} PathLeads(h: Heap, m: NodeId, confs: Rule)
    requires Forward(h) && m < |h|
    ensures var (r, n) := AddPath(h, m, confs); Follow(r, m, confs) == Some(n)
    decreases |confs|
  {
    if confs != [] {
      var front, c := confs[..|confs| - 1], confs[|confs| - 1];
      PathLeads(h, m, front);
      var (h1, n1) := AddPath(h, m, front);
      EdgeExtends(h1, n1, c, None);
      GoesAfter(h1, n1, c, None);
      hide AddEdge, Extends;
      FollowGrows(h1, AddEdge(h1, n1, c, None).0, m, front);
    }
  }

  lemma ExtendsTrans(a: Heap, b: Heap, c: Heap)
    requires Extends(a, b) && Extends(b, c)
    ensures Extends(a, c)
  {
  }

  lemma {:induction false} GoesGrows(h: Heap, r: Heap, dag: NodeId, c: Config)
    requires Extends(h, r) && dag < |h| && Goes(h, dag, c).Some?
    ensures Goes(r, dag, c) == Goes(h, dag, c)
  {
    FindPrefix(h[dag].parsers, r[dag].parsers, c);
  }

  lemma {:induction false} PathFromLeads(h: Heap, dag: NodeId, c: Config, rest: Rule, next: Option<NodeId>)
    requires Forward(h) && dag < |h| && (next.Some? ==> dag < next.value < |h|)
    ensures var (r, n) := AddPathFrom(h, dag, [c] + rest, next); Extends(h, r) && Follow(r, dag, [c] + rest) == Some(n)
  {
    assert ([c] + rest)[1..] == rest;
    EdgeExtends(h, dag, c, next);
    GoesAfter(h, dag, c, next);
    var (h1, n1) := AddEdge(h, dag, c, next);
    assert AddPathFrom(h, dag, [c] + rest, next) == AddPath(h1, n1, rest);
    hide AddEdge, AddPath, AddPathFrom, Goes, Follow;
    PathExtends(h1, n1, rest);
    PathLeads(h1, n1, rest);
    var r := AddPath(h1, n1, rest).0;
    ExtendsTrans(h, h1, r);
    GoesGrows(h1, r, dag, c);
    FollowCons(r, dag, c, rest);
  }

  /** A path that is there already is not added again. */
  lemma {:induction false} PathThere(h: Heap, m: NodeId, confs: Rule)
    requires Forward(h) && m < |h| && Follow(h, m, confs).Some?
    ensures AddPath(h, m, confs) == (h, Follow(h, m, confs).value)
    decreases |confs|
  {
    if confs != [] { PathThere(h, m, confs[..|confs| - 1]); }
  }

  /** A path that ends at an old node was there already. */
  lemma {:induction false} PathOld(h: Heap, m: NodeId, confs: Rule)
    requires Forward(h) && m < |h|
    ensures var (r, n) := AddPath(h, m, confs); n < |h| ==> Follow(h, m, confs) == Some(n)
    decreases |confs|
  {
    if confs != [] {
      var front, c := confs[..|confs| - 1], confs[|confs| - 1];
      PathOld(h, m, front);
      var (h1, n1) := AddPath(h, m, front);
      GoesAfter(h1, n1, c, None);
      if n1 < |h| { PathThere(h, m, front); }
    }
  }

  /** When the node has the first parser, the node in question does not matter. */
  lemma {:induction false} PathFromKnown(h: Heap, dag: NodeId, c: Config, rest: Rule, next: Option<NodeId>)
    requires Forward(h) && dag < |h| && (next.Some? ==> dag < next.value < |h|) && Goes(h, dag, c).Some?
    ensures AddPathFrom(h, dag, [c] + rest, next) == AddPath(h, dag, [c] + rest)
  {
    AddPathFromNone(h, dag, [c] + rest);
    hide AddPath;
    assert AddEdge(h, dag, c, next) == AddEdge(h, dag, c, None);
  }

  /** Behind the first alternative there are only repetitions of it, and single parsers
      with which it does not start. */
  ghost predicate Sayable(ws: seq<Rule>)
    requires NonEmpty(ws) && ws != []
  {
    forall i :: 1 <= i < |ws| ==> Follows(ws[0], ws[i])
  }

  predicate Follows(first: Rule, v: Rule)
    requires first != [] && v != []
  {
    v == first || (|v| == 1 && v[0] != first[0])
  }

  lemma {:induction false} SayableFront(ws: seq<Rule>)
    requires NonEmpty(ws) && |ws| > 1
    ensures Sayable(ws) <==> Sayable(ws[..|ws| - 1]) && Follows(ws[0], ws[|ws| - 1])
  {
    var front := ws[..|ws| - 1];
    assert forall i :: 0 <= i < |front| ==> front[i] == ws[i];
  }

  /** What holds at the node behind such alternatives. */
  ghost predicate Said(h: Heap, r: Heap, dag: NodeId, ws: seq<Rule>, n: NodeId)
    requires NonEmpty(ws)
  {
    && dag < |h| <= |r| && Forward(r) && dag < n < |r| && r[n].parsers == [] && OnlyStarts(r, dag, ws)
    && forall w :: Follow(r, dag, w) == Some(n) <==> w in ws
  }

  lemma {:induction false} FirstSaid(h: Heap, dag: NodeId, v: Rule)
    requires Forward(h) && dag < |h| && h[dag].parsers == [] && v != []
    ensures NonEmpty([v]) && var (r, n) := AddAlts(h, dag, [v], None); Said(h, r, dag, [v], n.value)
  {
    AltsLeaf(h, dag, [v]);
    hide AddAlts, Follow, OnlyStarts;
    forall w ensures Follow(AddAlts(h, dag, [v], None).0, dag, w) == AddAlts(h, dag, [v], None).1 <==> w in [v] {
      AltsLanguage(h, dag, [v], w);
      assert Spells([v], w) <==> w == Demanded([v], 0) == v;
    }
  }

  /** An alternative that is there already changes nothing. */
  lemma {:induction false} SaidAgain(h: Heap, h1: Heap, dag: NodeId, front: seq<Rule>, n1: NodeId, v: Rule)
    requires NonEmpty(front) && Said(h, h1, dag, front, n1) && v in front
    ensures AddPathFrom(h1, dag, v, Some(n1)) == (h1, n1) && Said(h, h1, dag, front + [v], n1)
  {
    assert v == [v[0]] + v[1..];
    hide Follow, AddPath, AddPathFrom;
    assert Follow(h1, dag, v) == Some(n1);
    FollowCons(h1, dag, v[0], v[1..]);
    PathFromKnown(h1, dag, v[0], v[1..], Some(n1));
    PathThere(h1, dag, v);
    StartsMore(h1, dag, front, v);
  }

  lemma {:induction false} StartsMore(h: Heap, dag: NodeId, front: seq<Rule>, v: Rule)
    requires dag < |h| && NonEmpty(front) && OnlyStarts(h, dag, front) && v != []
    ensures OnlyStarts(h, dag, front + [v])
  {
    forall c | Goes(h, dag, c).Some? ensures IsStart(front + [v], c) {
      var i :| 0 <= i < |front| && front[i][0] == c;
      assert (front + [v])[i] == front[i];
    }
  }

  /** A new single parser. */
  lemma {:induction false} SaidSingle(h: Heap, h1: Heap, dag: NodeId, front: seq<Rule>, n1: NodeId, c: Config)
    requires NonEmpty(front) && Said(h, h1, dag, front, n1) && Goes(h1, dag, c).None?
    ensures var (r, n) := AddEdge(h1, dag, c, Some(n1)); n == n1 && Said(h, r, dag, front + [[c]], n1)
  {
    SharedLeaf(h1, dag, c, n1);
    var (r, n) := AddEdge(h1, dag, c, Some(n1));
    hide AddEdge, Follow, OnlyStarts;
    assert [c] + [] == [c];
    StartsGrow(h1, r, dag, front, c, [], n1);
    forall w ensures Follow(r, dag, w) == Some(n1) <==> w in front + [[c]] {
      LeafEdgeWords(h1, r, dag, c, n1, dag, w);
      NewSingle(h1, dag, c, w);
    }
  }

  /** Through a parser that the node lacks nothing leads, and to the node itself only the
      empty sequence. */
  lemma {:induction false} NewSingle(h: Heap, dag: NodeId, c: Config, w: Rule)
    requires Forward(h) && dag < |h| && Goes(h, dag, c).None?
    ensures TakesEdge(h, dag, dag, w, c) <==> w == [c]
    ensures w == [c] ==> Follow(h, dag, w).None?
  {
    EndsOne(w, c);
    if EndsWith(w, [c]) {
      FollowUp(h, dag, Before(w, [c]));
      if Before(w, [c]) == [] { assert w == [] + [c]; }
    }
    FollowCons(h, dag, c, []);
    assert [c] + [] == [c] && Before([c], [c]) == [];
  }

  /** Alternatives of this form say what they mean. */
  lemma {:induction false} SayableSaid(h: Heap, dag: NodeId, ws: seq<Rule>)
    requires Forward(h) && dag < |h| && h[dag].parsers == [] && NonEmpty(ws) && ws != [] && Sayable(ws)
    ensures var (r, n) := AddAlts(h, dag, ws, None); Said(h, r, dag, ws, n.value)
    decreases |ws|
  {
    if |ws| == 1 {
      assert ws == [ws[0]];
      FirstSaid(h, dag, ws[0]);
    } else {
      var front, v := ws[..|ws| - 1], ws[|ws| - 1];
      assert ws == front + [v];
      SayableFront(ws);
      SayableSaid(h, dag, front);
      var (h1, n1) := AddAlts(h, dag, front, None);
      if v in front {
        SaidAgain(h, h1, dag, front, n1.value, v);
      } else {
        SingleIsNew(h, h1, dag, front, n1.value, v);
        SaidSingle(h, h1, dag, front, n1.value, v[0]);
        SingleFrom(h1, dag, v[0], n1);
        assert v == [v[0]];
      }
    }
  }

  lemma {:induction false} StartIsSingle(front: seq<Rule>, v: Rule)
    requires NonEmpty(front) && front != [] && Sayable(front)
    requires v != [] && Follows(front[0], v) && IsStart(front, v[0])
    ensures v in front
  {
    var i :| 0 <= i < |front| && front[i][0] == v[0];
    assert front[0] in front && front[i] in front;
    if v != front[0] { assert front[i] == v; }
  }

  lemma {:induction false} SingleIsNew(h: Heap, h1: Heap, dag: NodeId, front: seq<Rule>, n1: NodeId, v: Rule)
    requires NonEmpty(front) && front != [] && Sayable(front) && Said(h, h1, dag, front, n1)
    requires v != [] && Follows(front[0], v) && v !in front
    ensures |v| == 1 && Goes(h1, dag, v[0]).None?
  {
    assert front[0] in front;
    if IsStart(front, v[0]) { StartIsSingle(front, v); }
  }

  lemma {:induction false} FromShared(h: Heap, dag: NodeId, c: Config, rest: Rule, n: NodeId)
    requires Forward(h) && dag < n < |h| && h[n].parsers == [] && Goes(h, dag, c).None?
    ensures var h2 := AddEdge(h, dag, c, Some(n)).0;
      Forward(h2) && n < |h2| && AddPathFrom(h, dag, [c] + rest, Some(n)) == AddPath(h2, n, rest)
  {
    assert ([c] + rest)[1..] == rest;
    SharedLeaf(h, dag, c, n);
  }

  lemma {:induction false} FollowsIfIn(front: seq<Rule>, v: Rule)
    requires NonEmpty(front) && front != [] && Sayable(front) && v != [] && v in front
    ensures Follows(front[0], v)
  {
  }

  /** An alternative that breaks the form ends elsewhere: one with a known first parser, */
  lemma {:induction false} KnownElsewhere(h: Heap, h1: Heap, dag: NodeId, front: seq<Rule>, n1: NodeId, v: Rule)
    requires NonEmpty(front) && front != [] && Sayable(front) && Said(h, h1, dag, front, n1)
    requires v != [] && !Follows(front[0], v) && Goes(h1, dag, v[0]).Some?
    ensures AddPathFrom(h1, dag, v, Some(n1)).1 != n1
  {
    assert v == [v[0]] + v[1..];
    hide AddPath, AddPathFrom, Follow, Goes, Sayable, Follows;
    PathFromKnown(h1, dag, v[0], v[1..], Some(n1));
    PathOld(h1, dag, v);
    if v in front { FollowsIfIn(front, v); }
  }

  lemma {:induction false} FirstKnown(h: Heap, dag: NodeId, v: Rule, n: NodeId)
    requires Forward(h) && dag < |h| && v != [] && Follow(h, dag, v) == Some(n)
    ensures Goes(h, dag, v[0]).Some?
  {
    FollowCons(h, dag, v[0], v[1..]);
    assert v == [v[0]] + v[1..];
  }

  /** ... or one with a new first parser. */
  lemma {:induction false} NewElsewhere(h: Heap, h1: Heap, dag: NodeId, front: seq<Rule>, n1: NodeId, v: Rule)
    requires NonEmpty(front) && front != [] && Said(h, h1, dag, front, n1)
    requires v != [] && !Follows(front[0], v) && Goes(h1, dag, v[0]).None?
    ensures AddPathFrom(h1, dag, v, Some(n1)).1 != n1
  {
    var c, rest := v[0], v[1..];
    assert v == [c] + rest;
    FirstKnown(h1, dag, front[0], n1);
    SharedLeaf(h1, dag, c, n1);
    var h2 := AddEdge(h1, dag, c, Some(n1)).0;
    assert rest != [];
    hide AddPath, AddPathFrom, AddEdge, Follow, Goes, OnlyStarts;
    PathLeaf(h2, n1, rest);
    FromShared(h1, dag, c, rest, n1);
  }

  /** Otherwise two of them end at different nodes. */
  lemma {:induction false} EndsApart(h: Heap, dag: NodeId, ws: seq<Rule>) returns (a: Rule, b: Rule)
    requires Forward(h) && dag < |h| && h[dag].parsers == [] && NonEmpty(ws) && ws != [] && !Sayable(ws)
    ensures a in ws && b in ws
    ensures var r := AddAlts(h, dag, ws, None).0;
      Follow(r, dag, a).Some? && Follow(r, dag, b).Some? && Follow(r, dag, a) != Follow(r, dag, b)
    decreases |ws|
  {
    var front, v := ws[..|ws| - 1], ws[|ws| - 1];
    assert ws == front + [v];
    SayableFront(ws);
    var (h1, n1) := AddAlts(h, dag, front, None);
    var (r, n) := AddPathFrom(h1, dag, v, n1);
    assert v == [v[0]] + v[1..];
    hide AddPathFrom;
    PathFromLeads(h1, dag, v[0], v[1..], n1);
    if Sayable(front) {
      SayableSaid(h, dag, front);
      a, b := front[0], v;
      if Goes(h1, dag, v[0]).Some? {
        KnownElsewhere(h, h1, dag, front, n1.value, v);
      } else {
        NewElsewhere(h, h1, dag, front, n1.value, v);
      }
      FollowGrows(h1, r, dag, a);
    } else {
      a, b := EndsApart(h, dag, front);
      FollowGrows(h1, r, dag, a);
      FollowGrows(h1, r, dag, b);
    }
  }

  /** For all alternatives of sequences of parsers, also such that start alike, at a node
      without parsers: what leads through them is exactly the alternatives if and only if
      they have this form. */
  lemma {:induction false} AlternativesSay(h: Heap, dag: NodeId, ws: seq<Rule>)
    requires Forward(h) && dag < |h| && h[dag].parsers == [] && NonEmpty(ws) && ws != []
    ensures var (r, n) := AddAlts(h, dag, ws, None);
      (forall w :: Follow(r, dag, w) == n <==> w in ws) <==> Sayable(ws)
  {
    if Sayable(ws) {
      SayableSaid(h, dag, ws);
    } else {
      var a, b := EndsApart(h, dag, ws);
    }
  }
}
