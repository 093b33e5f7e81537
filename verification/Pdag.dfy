/**
 The v2 parse DAG of liblognorm.  Nodes live in a heap that is a sequence; a
 pointer is an index.  Nodes are always created after the nodes that point to
 them, so every edge leads to a larger index.
 */
module Pdag {
  import opened Json

  const LN_WRONGPARSER := -1000

  type NodeId = nat

  /** The configuration of a parser instance.  Two configurations that print as
      the same JSON text are the same value here. */
  datatype Config = Config(prsid: PrsId, text: string, name: Option<string>, prio: int, extra: string)

  /** PRS_LITERAL, or any field parser. */
  datatype PrsId = Literal | Field(id: nat)

  /** struct ln_parser_s; `text` is the data of a literal, which grows by compaction. */
  datatype Parser = Parser(conf: Config, text: string, node: NodeId)
  {
    predicate IsLiteral() {
      conf.prsid == Literal
    }
  }

  /** struct ln_pdag; `live` is false once the node was freed. */
  datatype Node = Node(live: bool, parsers: seq<Parser>, terminal: bool, refcnt: int)

  type Heap = seq<Node>

  const FREED := Node(false, [], false, 0)

  ghost predicate Forward(h: Heap) {
    forall n, i :: 0 <= n < |h| && 0 <= i < |h[n].parsers| ==> n < h[n].parsers[i].node < |h|
  }

  // ----- what one parser does -----

  /** The message, and the field parsers: from a configuration and an offset to the
      length they consume, if they match.  A literal that is a C string can never
      match a NUL, so messages are taken to be free of NULs. */
  datatype Input = Input(msg: string, field: (Config, nat) -> Option<nat>)

  predicate PrefixAt(text: string, msg: string, offs: nat) {
    offs + |text| <= |msg| && msg[offs..offs + |text|] == text
  }

  /** The parser takes this part of the message: the text of a literal stands there, a field
      parser consumes it. */
  predicate Consumes(inp: Input, p: Parser, from: nat, to: nat) {
    from <= to <= |inp.msg| &&
    if p.IsLiteral() then inp.msg[from..to] == p.text else inp.field(p.conf, from) == Some(to - from)
  }

  /** Where the parser stops when it is started at `offs`. */
  function Parse(inp: Input, p: Parser, offs: nat): (end: Option<nat>)
    ensures end.Some? ==> offs <= end.value && (offs <= |inp.msg| ==> end.value <= |inp.msg|)
  {
    if p.IsLiteral() then
      if PrefixAt(p.text, inp.msg, offs) then Some(offs + |p.text|) else None
    else
      var len := inp.field(p.conf, offs);
      if len.Some? && offs + len.value <= |inp.msg| then Some(offs + len.value) else None
  }

  lemma ParseIffConsumes(inp: Input, p: Parser, offs: nat, to: nat)
    ensures Parse(inp, p, offs) == Some(to) <==> Consumes(inp, p, offs, to)
  {
    if p.IsLiteral() && Consumes(inp, p, offs, to) {
      assert to - offs == |inp.msg[offs..to]|;
    }
  }

  /** A field that a named parser adds to the event. */
  datatype Extract = Extract(conf: Config, from: nat, to: nat)

  function Named(p: Parser, from: nat, to: nat): seq<Extract> {
    if p.conf.name.Some? then [Extract(p.conf, from, to)] else []
  }

  predicate AtGoal(inp: Input, node: Node, offs: nat, partial: bool) {
    node.terminal && (offs == |inp.msg| || partial)
  }

  // ----- the ordered search -----

  /** The end node and the fields, in the order in which they are added. */
  datatype Hit = Hit(endNode: NodeId, fields: seq<Extract>)

  /** The result of `ln_normalizeRec`. */
  function Match(h: Heap, inp: Input, n: NodeId, offs: nat, partial: bool): Option<Hit>
    requires Forward(h) && n < |h|
    decreases |h| - n, 1, 0
  {
    var r := MatchFrom(h, inp, n, 0, offs, partial);
    if AtGoal(inp, h[n], offs, partial) then Some(Hit(n, if r.Some? then r.value.fields else [])) else r
  }

  /** The loop over the parsers of a node, from parser `i` on. */
  function MatchFrom(h: Heap, inp: Input, n: NodeId, i: nat, offs: nat, partial: bool): Option<Hit>
    requires Forward(h) && n < |h| && i <= |h[n].parsers|
    decreases |h| - n, 0, |h[n].parsers| - i
  {
    if i == |h[n].parsers| then None else
    var p := h[n].parsers[i];
    var end := Parse(inp, p, offs);
    var sub := if end.Some? then Match(h, inp, p.node, end.value, partial) else None;
    if sub.Some? then Some(Hit(sub.value.endNode, sub.value.fields + Named(p, offs, end.value)))
    else MatchFrom(h, inp, n, i + 1, offs, partial)
  }

  /** The parser succeeds and the rest of the message matches behind it. */
  predicate Leads(h: Heap, inp: Input, p: Parser, offs: nat, partial: bool)
    requires Forward(h)
  {
    var end := Parse(inp, p, offs);
    p.node < |h| && end.Some? && Match(h, inp, p.node, end.value, partial).Some?
  }

  lemma {:induction false} MatchFromReaches(h: Heap, inp: Input, n: NodeId, i: nat, j: nat, offs: nat, partial: bool)
    requires Forward(h) && n < |h| && i <= j < |h[n].parsers| && Leads(h, inp, h[n].parsers[j], offs, partial)
    ensures MatchFrom(h, inp, n, i, offs, partial).Some?
    decreases j - i
  {
    if i < j {
      MatchFromReaches(h, inp, n, i + 1, j, offs, partial);
    }
  }

  /** Whether a node matches does not depend on the order of its parsers. */
  lemma {:induction false} MatchFromLeads(h: Heap, inp: Input, n: NodeId, i: nat, offs: nat, partial: bool)
    returns (j: nat)
    requires Forward(h) && n < |h| && i <= |h[n].parsers| && MatchFrom(h, inp, n, i, offs, partial).Some?
    ensures i <= j < |h[n].parsers| && Leads(h, inp, h[n].parsers[j], offs, partial)
    decreases |h[n].parsers| - i
  {
    j := i;
    if !Leads(h, inp, h[n].parsers[i], offs, partial) {
      j := MatchFromLeads(h, inp, n, i + 1, offs, partial);
    }
  }

  // ----- paths -----

  datatype Place = Place(node: NodeId, offs: nat)

  /** Where a path leads, given by the numbers of the parsers to take. */
  function Walk(h: Heap, inp: Input, n: NodeId, offs: nat, path: seq<nat>): Option<Place>
    requires Forward(h) && n < |h|
    ensures Walk(h, inp, n, offs, path).Some? ==> n <= Walk(h, inp, n, offs, path).value.node < |h|
    decreases |path|
  {
    if path == [] then Some(Place(n, offs))
    else if path[0] >= |h[n].parsers| then None
    else
      var p := h[n].parsers[path[0]];
      var end := Parse(inp, p, offs);
      if end.Some? then Walk(h, inp, p.node, end.value, path[1..]) else None
  }

  /** The path consists of parsers that succeed, and it ends on a terminal node at
      the end of the message. */
  predicate Accepting(h: Heap, inp: Input, n: NodeId, offs: nat, path: seq<nat>, partial: bool)
    requires Forward(h) && n < |h|
  {
    var w := Walk(h, inp, n, offs, path);
    w.Some? && AtGoal(inp, h[w.value.node], w.value.offs, partial)
  }

  ghost predicate Accepts(h: Heap, inp: Input, n: NodeId, offs: nat, partial: bool)
    requires Forward(h) && n < |h|
  {
    exists path :: Accepting(h, inp, n, offs, path, partial)
  }

  /** The fields that a path extracts, deepest first. */
  function FieldsOf(h: Heap, inp: Input, n: NodeId, offs: nat, path: seq<nat>): seq<Extract>
    requires Forward(h) && n < |h| && Walk(h, inp, n, offs, path).Some?
    decreases |path|
  {
    if path == [] then [] else
    var p := h[n].parsers[path[0]];
    var end := Parse(inp, p, offs).value;
    FieldsOf(h, inp, p.node, end, path[1..]) + Named(p, offs, end)
  }

  lemma WalkFirst(h: Heap, inp: Input, n: NodeId, offs: nat, i: nat, path: seq<nat>)
    requires Forward(h) && n < |h| && i < |h[n].parsers|
    ensures var p := h[n].parsers[i];
      Walk(h, inp, n, offs, [i] + path) ==
      (if Parse(inp, p, offs).Some? then Walk(h, inp, p.node, Parse(inp, p, offs).value, path) else None)
    ensures var p, end := h[n].parsers[i], Parse(inp, h[n].parsers[i], offs);
      Walk(h, inp, n, offs, [i] + path).Some? ==>
      FieldsOf(h, inp, n, offs, [i] + path) == FieldsOf(h, inp, p.node, end.value, path) + Named(p, offs, end.value)
  {
    assert ([i] + path)[1..] == path;
  }

  /** Where the path is before its i-th parser. */
  function PlaceAt(h: Heap, inp: Input, n: NodeId, offs: nat, path: seq<nat>, i: nat): (p: Option<Place>)
    requires Forward(h) && n < |h| && i <= |path|
    ensures p.Some? ==> p.value.node < |h|
  {
    Walk(h, inp, n, offs, path[..i])
  }

  /** The i-th parser of the path, if the path leads there. */
  function ParserAt(h: Heap, inp: Input, n: NodeId, offs: nat, path: seq<nat>, i: nat): Option<Parser>
    requires Forward(h) && n < |h| && i < |path|
  {
    var w := PlaceAt(h, inp, n, offs, path, i);
    if w.Some? && path[i] < |h[w.value.node].parsers| then Some(h[w.value.node].parsers[path[i]]) else None
  }

  /** The field that the i-th parser of the path stands for: its configuration, and the part
      of the message between the places before and behind it. */
  predicate IsField(h: Heap, inp: Input, n: NodeId, offs: nat, path: seq<nat>, i: nat, f: Extract)
    requires Forward(h) && n < |h| && i < |path|
  {
    var from, to := PlaceAt(h, inp, n, offs, path, i), PlaceAt(h, inp, n, offs, path, i + 1);
    var p := ParserAt(h, inp, n, offs, path, i);
    && p.Some? && f.conf == p.value.conf
    && from.Some? && f.from == from.value.offs
    && to.Some? && f.to == to.value.offs
    && f.from <= f.to && (offs <= |inp.msg| ==> f.to <= |inp.msg|)
  }

  /** The path succeeds, and its parsers that have names, from the last to the first, are at
      the positions `at` and stand for these fields. */
  ghost predicate Extracts(h: Heap, inp: Input, n: NodeId, offs: nat, path: seq<nat>, at: seq<nat>, fs: seq<Extract>)
    requires Forward(h) && n < |h|
  {
    && (forall i :: 0 <= i < |path| ==> ParserAt(h, inp, n, offs, path, i).Some?)
    && (forall k :: 0 <= k < |at| ==> at[k] < |path|)
    && (forall j, k :: 0 <= j < k < |at| ==> at[j] > at[k])
    && (forall i :: 0 <= i < |path| ==> (i in at <==> ParserAt(h, inp, n, offs, path, i).value.conf.name.Some?))
    && |fs| == |at|
    && (forall k :: 0 <= k < |at| ==> IsField(h, inp, n, offs, path, at[k], fs[k]))
  }

  lemma {:induction false} PlaceBehind(h: Heap, inp: Input, n: NodeId, offs: nat, path: seq<nat>, i: nat)
    requires Forward(h) && n < |h| && path != [] && i < |path| && Walk(h, inp, n, offs, path).Some?
    ensures var p := h[n].parsers[path[0]];
      var end := Parse(inp, p, offs);
      && p.node < |h| && end.Some?
      && PlaceAt(h, inp, n, offs, path, i + 1) == PlaceAt(h, inp, p.node, end.value, path[1..], i)
      && (i > 0 ==> ParserAt(h, inp, n, offs, path, i) == ParserAt(h, inp, p.node, end.value, path[1..], i - 1))
  {
    assert path[..i + 1][1..] == path[1..][..i];
    if i > 0 {
      assert path[..i][1..] == path[1..][..i - 1];
    }
  }

  lemma {:induction false} FieldsExtracted(h: Heap, inp: Input, n: NodeId, offs: nat, path: seq<nat>)
    returns (at: seq<nat>)
    requires Forward(h) && n < |h| && Walk(h, inp, n, offs, path).Some?
    ensures Extracts(h, inp, n, offs, path, at, FieldsOf(h, inp, n, offs, path))
    decreases |path|
  {
    at := [];
    if path != [] {
      var p := h[n].parsers[path[0]];
      var end := Parse(inp, p, offs).value;
      var rest := FieldsExtracted(h, inp, p.node, end, path[1..]);
      at := ExtractsMore(h, inp, n, offs, path, rest, FieldsOf(h, inp, p.node, end, path[1..]));
    }
  }

  function Behind(at: seq<nat>): (r: seq<nat>)
    ensures |r| == |at| && forall k :: 0 <= k < |at| ==> r[k] == at[k] + 1
    ensures forall i :: i in r <==> i > 0 && i - 1 in at
  {
    var r := seq(|at|, k requires 0 <= k < |at| => at[k] + 1);
    assert forall i :: i in r ==> i > 0 && i - 1 in at;
    assert forall i :: i > 0 && i - 1 in at ==> i in r by {
      forall i: int | i > 0 && i - 1 in at ensures i in r {
        var k :| 0 <= k < |at| && at[k] == i - 1;
        assert r[k] == i;
      }
    }
    r
  }

  /** The place and the parser at the beginning of a path. */
  lemma FirstPlace(h: Heap, inp: Input, n: NodeId, offs: nat, path: seq<nat>)
    requires Forward(h) && n < |h| && path != [] && Walk(h, inp, n, offs, path).Some?
    ensures path[0] < |h[n].parsers| && PlaceAt(h, inp, n, offs, path, 0) == Some(Place(n, offs))
    ensures var p := h[n].parsers[path[0]];
      && ParserAt(h, inp, n, offs, path, 0) == Some(p) && Parse(inp, p, offs).Some?
      && IsField(h, inp, n, offs, path, 0, Extract(p.conf, offs, Parse(inp, p, offs).value))
  {
    PlaceBehind(h, inp, n, offs, path, 0);
    assert path[..0] == [] && path[1..][..0] == [];
  }

  /** A field of the rest of the path is a field of the path. */
  lemma FieldBehind(h: Heap, inp: Input, n: NodeId, offs: nat, path: seq<nat>, i: nat, f: Extract)
    requires Forward(h) && n < |h| && path != [] && i < |path| - 1 && Walk(h, inp, n, offs, path).Some?
    requires var p := h[n].parsers[path[0]]; IsField(h, inp, p.node, Parse(inp, p, offs).value, path[1..], i, f)
    ensures IsField(h, inp, n, offs, path, i + 1, f)
  {
    PlaceBehind(h, inp, n, offs, path, i);
    PlaceBehind(h, inp, n, offs, path, i + 1);
    FirstPlace(h, inp, n, offs, path);
  }

  lemma {:induction false} ExtractsMore(h: Heap, inp: Input, n: NodeId, offs: nat, path: seq<nat>, rest: seq<nat>,
      fs: seq<Extract>)
    returns (at: seq<nat>)
    requires Forward(h) && n < |h| && path != [] && Walk(h, inp, n, offs, path).Some?
    requires var p := h[n].parsers[path[0]];
      Extracts(h, inp, p.node, Parse(inp, p, offs).value, path[1..], rest, fs)
    ensures var p := h[n].parsers[path[0]];
      Extracts(h, inp, n, offs, path, at, fs + Named(p, offs, Parse(inp, p, offs).value))
  {
    FirstPlace(h, inp, n, offs, path);
    hide Parse, Walk, ParserAt, IsField;
    var p := h[n].parsers[path[0]];
    at := Behind(rest) + if p.conf.name.Some? then [0] else [];
    forall i | 0 < i < |path|
      ensures ParserAt(h, inp, n, offs, path, i) ==
              ParserAt(h, inp, p.node, Parse(inp, p, offs).value, path[1..], i - 1)
    {
      PlaceBehind(h, inp, n, offs, path, i);
    }
    forall k | 0 <= k < |rest|
      ensures IsField(h, inp, n, offs, path, at[k], fs[k])
    {
      FieldBehind(h, inp, n, offs, path, rest[k], fs[k]);
    }
  }

  /** Completeness: if any path is accepting, the search finds one. */
  lemma {:induction false} MatchComplete(h: Heap, inp: Input, n: NodeId, offs: nat, path: seq<nat>, partial: bool)
    requires Forward(h) && n < |h| && Accepting(h, inp, n, offs, path, partial)
    ensures Match(h, inp, n, offs, partial).Some?
    decreases |path|, 0
  {
    if path != [] {
      MatchFromComplete(h, inp, n, 0, offs, path, partial);
    }
  }

  lemma {:induction false} MatchFromComplete(h: Heap, inp: Input, n: NodeId, i: nat, offs: nat, path: seq<nat>,
      partial: bool)
    requires Forward(h) && n < |h| && path != [] && i <= path[0] && Accepting(h, inp, n, offs, path, partial)
    ensures i < |h[n].parsers| && MatchFrom(h, inp, n, i, offs, partial).Some?
    decreases |path|, 0, path[0] - i
  {
    if i == path[0] {
      var p := h[n].parsers[i];
      MatchComplete(h, inp, p.node, Parse(inp, p, offs).value, path[1..], partial);
    } else {
      MatchFromComplete(h, inp, n, i + 1, offs, path, partial);
    }
  }

  /** The parser succeeds, and from there some path is accepting. */
  ghost predicate LeadsOn(h: Heap, inp: Input, p: Parser, offs: nat, partial: bool)
    requires Forward(h)
  {
    var end := Parse(inp, p, offs);
    p.node < |h| && end.Some? && Accepts(h, inp, p.node, end.value, partial)
  }

  /** At every place of the path no parser before the one that is taken leads to acceptance,
      and at its end none does. */
  ghost predicate Preferred(h: Heap, inp: Input, n: NodeId, offs: nat, path: seq<nat>, partial: bool)
    requires Forward(h) && n < |h| && Walk(h, inp, n, offs, path).Some?
    decreases |path|
  {
    var ps := h[n].parsers;
    && (forall j :: 0 <= j < |ps| && (path == [] || j < path[0]) ==> !LeadsOn(h, inp, ps[j], offs, partial))
    && (path != [] ==>
         var p := ps[path[0]]; Preferred(h, inp, p.node, Parse(inp, p, offs).value, path[1..], partial))
  }

  lemma {:induction false} OnePreferred(h: Heap, inp: Input, n: NodeId, offs: nat, a: seq<nat>, b: seq<nat>,
      partial: bool)
    requires Forward(h) && n < |h|
    requires Accepting(h, inp, n, offs, a, partial) && Preferred(h, inp, n, offs, a, partial)
    requires Accepting(h, inp, n, offs, b, partial) && Preferred(h, inp, n, offs, b, partial)
    ensures a == b
    decreases |a|
  {
    if a != [] { FirstLeadsOn(h, inp, n, offs, a, partial); }
    if b != [] { FirstLeadsOn(h, inp, n, offs, b, partial); }
    if a != [] && b != [] {
      var p := h[n].parsers[a[0]];
      OnePreferred(h, inp, p.node, Parse(inp, p, offs).value, a[1..], b[1..], partial);
      assert a == [a[0]] + a[1..] && b == [b[0]] + b[1..];
    }
  }

  lemma FirstLeadsOn(h: Heap, inp: Input, n: NodeId, offs: nat, path: seq<nat>, partial: bool)
    requires Forward(h) && n < |h| && path != [] && Accepting(h, inp, n, offs, path, partial)
    ensures LeadsOn(h, inp, h[n].parsers[path[0]], offs, partial)
  {
    var p := h[n].parsers[path[0]];
    assert Accepting(h, inp, p.node, Parse(inp, p, offs).value, path[1..], partial);
  }

  /** The k-th place is the first one on the path where the message is matched. */
  predicate FirstGoal(h: Heap, inp: Input, n: NodeId, offs: nat, path: seq<nat>, partial: bool, k: nat)
    requires Forward(h) && n < |h|
  {
    k <= |path| && Accepting(h, inp, n, offs, path[..k], partial) &&
    forall i :: 0 <= i < k ==> !Accepting(h, inp, n, offs, path[..i], partial)
  }

  /** Soundness: a result comes from the preferred accepting path, which also gives the
      fields; the end node is the first accepting place on that path. */
  lemma {:induction false} MatchSound(h: Heap, inp: Input, n: NodeId, offs: nat, partial: bool)
    returns (path: seq<nat>, k: nat)
    requires Forward(h) && n < |h| && Match(h, inp, n, offs, partial).Some?
    ensures Accepting(h, inp, n, offs, path, partial) && Preferred(h, inp, n, offs, path, partial)
    ensures Match(h, inp, n, offs, partial).value.fields == FieldsOf(h, inp, n, offs, path)
    ensures FirstGoal(h, inp, n, offs, path, partial, k)
    ensures Walk(h, inp, n, offs, path[..k]).value.node == Match(h, inp, n, offs, partial).value.endNode
    decreases |h| - n, 1, 0
  {
    path, k := [], 0;
    if MatchFrom(h, inp, n, 0, offs, partial).Some? {
      path, k := MatchFromSound(h, inp, n, 0, offs, partial);
    } else {
      NothingLeads(h, inp, n, offs, partial);
    }
    if AtGoal(inp, h[n], offs, partial) {
      k := 0;
      assert path[..0] == [];
    }
  }

  lemma NothingLeads(h: Heap, inp: Input, n: NodeId, offs: nat, partial: bool)
    requires Forward(h) && n < |h| && MatchFrom(h, inp, n, 0, offs, partial).None?
    ensures Preferred(h, inp, n, offs, [], partial)
  {
    forall j | 0 <= j < |h[n].parsers|
      ensures !LeadsOn(h, inp, h[n].parsers[j], offs, partial)
    {
      LeadsSame(h, inp, h[n].parsers[j], offs, partial);
      if Leads(h, inp, h[n].parsers[j], offs, partial) {
        MatchFromReaches(h, inp, n, 0, j, offs, partial);
      }
    }
  }

  lemma LeadsSame(h: Heap, inp: Input, p: Parser, offs: nat, partial: bool)
    requires Forward(h) && p.node < |h|
    ensures LeadsOn(h, inp, p, offs, partial) ==> Leads(h, inp, p, offs, partial)
  {
    if LeadsOn(h, inp, p, offs, partial) {
      var end := Parse(inp, p, offs).value;
      var path :| Accepting(h, inp, p.node, end, path, partial);
      MatchComplete(h, inp, p.node, end, path, partial);
    }
  }

  /** Behind parsers that do not lead to acceptance. */
  lemma {:induction false} MatchFromSound(h: Heap, inp: Input, n: NodeId, i: nat, offs: nat, partial: bool)
    returns (path: seq<nat>, k: nat)
    requires Forward(h) && n < |h| && i <= |h[n].parsers| && MatchFrom(h, inp, n, i, offs, partial).Some?
    requires forall j :: 0 <= j < i ==> !LeadsOn(h, inp, h[n].parsers[j], offs, partial)
    ensures path != [] && Accepting(h, inp, n, offs, path, partial) && Preferred(h, inp, n, offs, path, partial)
    ensures MatchFrom(h, inp, n, i, offs, partial).value.fields == FieldsOf(h, inp, n, offs, path)
    ensures !AtGoal(inp, h[n], offs, partial) ==> FirstGoal(h, inp, n, offs, path, partial, k)
    ensures k <= |path| && Walk(h, inp, n, offs, path[..k]).Some?
    ensures Walk(h, inp, n, offs, path[..k]).value.node == MatchFrom(h, inp, n, i, offs, partial).value.endNode
    decreases |h| - n, 0, |h[n].parsers| - i
  {
    var p := h[n].parsers[i];
    var end := Parse(inp, p, offs);
    if end.Some? && Match(h, inp, p.node, end.value, partial).Some? {
      path, k := MatchSound(h, inp, p.node, end.value, partial);
      path, k := PathFirst(h, inp, n, i, offs, path, partial, k);
    } else {
      LeadsSame(h, inp, p, offs, partial);
      path, k := MatchFromSound(h, inp, n, i + 1, offs, partial);
    }
  }

  /** One parser more in front of a path. */
  lemma PathFirst(h: Heap, inp: Input, n: NodeId, i: nat, offs: nat, rest: seq<nat>, partial: bool, k: nat)
    returns (path: seq<nat>, k1: nat)
    requires Forward(h) && n < |h| && i < |h[n].parsers| && Parse(inp, h[n].parsers[i], offs).Some?
    requires var p, end := h[n].parsers[i], Parse(inp, h[n].parsers[i], offs).value;
      && Accepting(h, inp, p.node, end, rest, partial) && Preferred(h, inp, p.node, end, rest, partial)
      && FirstGoal(h, inp, p.node, end, rest, partial, k)
    requires forall j :: 0 <= j < i ==> !LeadsOn(h, inp, h[n].parsers[j], offs, partial)
    ensures path == [i] + rest && k1 == k + 1
    ensures Accepting(h, inp, n, offs, path, partial) && Preferred(h, inp, n, offs, path, partial)
    ensures !AtGoal(inp, h[n], offs, partial) ==> FirstGoal(h, inp, n, offs, path, partial, k1)
    ensures var p, end := h[n].parsers[i], Parse(inp, h[n].parsers[i], offs).value;
      && FieldsOf(h, inp, n, offs, path) == FieldsOf(h, inp, p.node, end, rest) + Named(p, offs, end)
      && Walk(h, inp, n, offs, path[..k1]) == Walk(h, inp, p.node, end, rest[..k])
  {
    path, k1 := [i] + rest, k + 1;
    WalkFirst(h, inp, n, offs, i, rest);
    assert path[1..] == rest;
    forall m | 0 < m <= |path|
      ensures path[..m] == [i] + rest[..m - 1]
      ensures Accepting(h, inp, n, offs, path[..m], partial) <==>
        Accepting(h, inp, h[n].parsers[i].node, Parse(inp, h[n].parsers[i], offs).value, rest[..m - 1], partial)
    {
      assert path[..m] == [i] + rest[..m - 1];
      WalkFirst(h, inp, n, offs, i, rest[..m - 1]);
    }
    WalkFirst(h, inp, n, offs, i, rest[..k]);
    assert path[..0] == [];
  }

  /** Full match: success exactly when some path of successful parsers reaches a
      terminal node at the end of the message, and the end node is such a node. */
  lemma MatchIffAccepts(h: Heap, inp: Input, n: NodeId, offs: nat, partial: bool)
    requires Forward(h) && n < |h|
    ensures Match(h, inp, n, offs, partial).Some? <==> Accepts(h, inp, n, offs, partial)
  {
    if Match(h, inp, n, offs, partial).Some? {
      var path, k := MatchSound(h, inp, n, offs, partial);
    }
    if Accepts(h, inp, n, offs, partial) {
      var path :| Accepting(h, inp, n, offs, path, partial);
      MatchComplete(h, inp, n, offs, path, partial);
    }
  }

  /** A result read off the rule base: its path, the place on it that gives the end node,
      and the positions of the parsers that give the fields. */
  ghost predicate IsResult(h: Heap, inp: Input, n: NodeId, offs: nat, partial: bool, path: seq<nat>, k: nat,
      at: seq<nat>, hit: Hit)
    requires Forward(h) && n < |h|
  {
    && Accepting(h, inp, n, offs, path, partial) && Preferred(h, inp, n, offs, path, partial)
    && FirstGoal(h, inp, n, offs, path, partial, k)
    && Walk(h, inp, n, offs, path[..k]).value.node == hit.endNode
    && Extracts(h, inp, n, offs, path, at, hit.fields)
  }

  /** Every result of the search can be read off one path. */
  lemma ResultRead(h: Heap, inp: Input, n: NodeId, offs: nat, partial: bool)
    returns (path: seq<nat>, k: nat, at: seq<nat>)
    requires Forward(h) && n < |h| && Match(h, inp, n, offs, partial).Some?
    ensures IsResult(h, inp, n, offs, partial, path, k, at, Match(h, inp, n, offs, partial).value)
  {
    path, k := MatchSound(h, inp, n, offs, partial);
    at := FieldsExtracted(h, inp, n, offs, path);
  }

  lemma {:induction false} SamePositions(n: nat, a: seq<nat>, b: seq<nat>)
    requires forall k :: 0 <= k < |a| ==> a[k] < n
    requires forall j, k :: 0 <= j < k < |a| ==> a[j] > a[k]
    requires forall j, k :: 0 <= j < k < |b| ==> b[j] > b[k]
    requires forall i :: i in a <==> i in b
    ensures a == b
    decreases |a|
  {
    assert b != [] ==> b[0] in b;
    if a != [] {
      assert a[0] in b;
      assert b[0] in a;
      assert a[0] == b[0];
      var ra, rb := a[1..], b[1..];
      forall i
        ensures i in ra <==> i in rb
      {
        assert i in ra ==> i in a && i < a[0];
        assert i in rb ==> i in b && i < b[0];
        assert i in a && i < a[0] ==> i in ra;
        assert i in b && i < b[0] ==> i in rb;
      }
      SamePositions(a[0], ra, rb);
      assert a == [a[0]] + ra && b == [b[0]] + rb;
    }
  }

  /** And nothing else can be read off: the search returns the one result there is. */
  lemma MatchIffResult(h: Heap, inp: Input, n: NodeId, offs: nat, partial: bool, hit: Hit)
    requires Forward(h) && n < |h|
    ensures Match(h, inp, n, offs, partial) == Some(hit) <==>
      exists path, k, at :: IsResult(h, inp, n, offs, partial, path, k, at, hit)
  {
    if exists path, k, at :: IsResult(h, inp, n, offs, partial, path, k, at, hit) {
      var path, k, at :| IsResult(h, inp, n, offs, partial, path, k, at, hit);
      MatchComplete(h, inp, n, offs, path, partial);
      var path1, k1, at1 := ResultRead(h, inp, n, offs, partial);
      OnePreferred(h, inp, n, offs, path, path1, partial);
      OneResult(h, inp, n, offs, partial, path, k, at, hit, k1, at1, Match(h, inp, n, offs, partial).value);
    }
    if Match(h, inp, n, offs, partial) == Some(hit) {
      var path, k, at := ResultRead(h, inp, n, offs, partial);
    }
  }

  lemma OneResult(h: Heap, inp: Input, n: NodeId, offs: nat, partial: bool, path: seq<nat>, k: nat, at: seq<nat>,
      hit: Hit, k1: nat, at1: seq<nat>, hit1: Hit)
    requires Forward(h) && n < |h|
    requires IsResult(h, inp, n, offs, partial, path, k, at, hit)
    requires IsResult(h, inp, n, offs, partial, path, k1, at1, hit1)
    ensures hit == hit1
  {
    hide Walk, Preferred, ParserAt;
    SamePositions(|path|, at, at1);
    assert k == k1;
    assert hit.fields == hit1.fields;
  }
}
