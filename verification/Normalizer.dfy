/**
 `ln_normalizeRec` and `ln_normalize`: the backtracking search through the parse
 DAG, with the mark of the furthest offset that any successful parser reached.
 */
module Normalizer {
  import opened Json
  import opened Pdag

  function Max(a: nat, b: nat): nat {
    if a < b then b else a
  }

  /** `npb->parsedTo` after `ln_normalizeRec`, when it was `mark` before. */
  function Mark(h: Heap, inp: Input, n: NodeId, offs: nat, partial: bool, mark: nat): nat
    requires Forward(h) && n < |h|
    decreases |h| - n, 1, 0
  {
    MarkFrom(h, inp, n, 0, offs, partial, mark)
  }

  function MarkFrom(h: Heap, inp: Input, n: NodeId, i: nat, offs: nat, partial: bool, mark: nat): nat
    requires Forward(h) && n < |h| && i <= |h[n].parsers|
    decreases |h| - n, 0, |h[n].parsers| - i
  {
    if i == |h[n].parsers| then mark else
    var p := h[n].parsers[i];
    var end := Parse(inp, p, offs);
    if end.None? then MarkFrom(h, inp, n, i + 1, offs, partial, mark) else
    var m := Max(Mark(h, inp, p.node, end.value, partial, mark), end.value);
    if Match(h, inp, p.node, end.value, partial).Some? then m
    else MarkFrom(h, inp, n, i + 1, offs, partial, m)
  }

  /** The search looks at this path: on the way no earlier alternative has matched. */
  ghost predicate Explored(h: Heap, inp: Input, n: NodeId, offs: nat, path: seq<nat>, partial: bool)
    requires Forward(h) && n < |h|
    decreases |path|
  {
    path != [] && path[0] < |h[n].parsers| &&
    var p := h[n].parsers[path[0]];
    var end := Parse(inp, p, offs);
    && end.Some?
    && (forall j :: 0 <= j < path[0] ==> !Leads(h, inp, h[n].parsers[j], offs, partial))
    && (|path| > 1 ==> Explored(h, inp, p.node, end.value, path[1..], partial))
  }

  lemma {:induction false} ExploredWalks(h: Heap, inp: Input, n: NodeId, offs: nat, path: seq<nat>, partial: bool)
    requires Forward(h) && n < |h| && Explored(h, inp, n, offs, path, partial)
    ensures Walk(h, inp, n, offs, path).Some?
    decreases |path|
  {
    if |path| > 1 {
      var p := h[n].parsers[path[0]];
      ExploredWalks(h, inp, p.node, Parse(inp, p, offs).value, path[1..], partial);
    }
  }

  /** When nothing matches, every path of successful parsers is looked at. */
  lemma {:induction false} FailureExploresAll(h: Heap, inp: Input, n: NodeId, offs: nat, path: seq<nat>, partial: bool)
    requires Forward(h) && n < |h| && Match(h, inp, n, offs, partial).None?
    requires path != [] && Walk(h, inp, n, offs, path).Some?
    ensures Explored(h, inp, n, offs, path, partial)
    decreases |path|
  {
    var ps := h[n].parsers;
    forall j | 0 <= j < |ps|
      ensures !Leads(h, inp, ps[j], offs, partial)
    {
      if Leads(h, inp, ps[j], offs, partial) {
        MatchFromReaches(h, inp, n, 0, j, offs, partial);
      }
    }
    if |path| > 1 {
      var p := ps[path[0]];
      FailureExploresAll(h, inp, p.node, Parse(inp, p, offs).value, path[1..], partial);
    }
  }

  /** The mark is at least every offset that an explored path reaches... */
  lemma {:induction false} MarkCovers(h: Heap, inp: Input, n: NodeId, offs: nat, path: seq<nat>, partial: bool,
      mark: nat)
    requires Forward(h) && n < |h| && Explored(h, inp, n, offs, path, partial)
    ensures Walk(h, inp, n, offs, path).Some?
    ensures Walk(h, inp, n, offs, path).value.offs <= Mark(h, inp, n, offs, partial, mark)
    decreases |path|, 1, 0
  {
    ExploredWalks(h, inp, n, offs, path, partial);
    MarkFromCovers(h, inp, n, 0, offs, path, partial, mark);
  }

  lemma {:induction false} MarkFromCovers(h: Heap, inp: Input, n: NodeId, i: nat, offs: nat, path: seq<nat>,
      partial: bool, mark: nat)
    requires Forward(h) && n < |h| && Explored(h, inp, n, offs, path, partial) && i <= path[0]
    requires Walk(h, inp, n, offs, path).Some?
    ensures Walk(h, inp, n, offs, path).value.offs <= MarkFrom(h, inp, n, i, offs, partial, mark)
    decreases |path|, 0, path[0] - i
  {
    var p := h[n].parsers[i];
    var end := Parse(inp, p, offs);
    if i == path[0] {
      var m := Mark(h, inp, p.node, end.value, partial, mark);
      if |path| > 1 {
        MarkCovers(h, inp, p.node, end.value, path[1..], partial, mark);
      }
      MarkGrows(h, inp, n, i + 1, offs, partial, Max(m, end.value));
    } else {
      assert !Leads(h, inp, p, offs, partial);
      var m := if end.Some? then Max(Mark(h, inp, p.node, end.value, partial, mark), end.value) else mark;
      MarkFromCovers(h, inp, n, i + 1, offs, path, partial, m);
    }
  }

  lemma {:induction false} MarkGrows(h: Heap, inp: Input, n: NodeId, i: nat, offs: nat, partial: bool, mark: nat)
    requires Forward(h) && n < |h| && i <= |h[n].parsers|
    ensures MarkFrom(h, inp, n, i, offs, partial, mark) >= mark
    decreases |h| - n, |h[n].parsers| - i
  {
    if i < |h[n].parsers| {
      var p := h[n].parsers[i];
      var end := Parse(inp, p, offs);
      if end.Some? {
        MarkGrows(h, inp, p.node, 0, end.value, partial, mark);
        MarkGrows(h, inp, n, i + 1, offs, partial, Max(Mark(h, inp, p.node, end.value, partial, mark), end.value));
      } else {
        MarkGrows(h, inp, n, i + 1, offs, partial, mark);
      }
    }
  }

  /** ... and it is one of them, unless it did not move at all. */
  lemma {:induction false} MarkReached(h: Heap, inp: Input, n: NodeId, offs: nat, partial: bool, mark: nat)
    returns (path: seq<nat>)
    requires Forward(h) && n < |h| && Mark(h, inp, n, offs, partial, mark) != mark
    ensures Explored(h, inp, n, offs, path, partial) && Walk(h, inp, n, offs, path).Some?
    ensures Walk(h, inp, n, offs, path).value.offs == Mark(h, inp, n, offs, partial, mark)
    decreases |h| - n, 1, 0
  {
    path := MarkFromReached(h, inp, n, 0, offs, partial, mark);
  }

  lemma {:induction false} MarkFromReached(h: Heap, inp: Input, n: NodeId, i: nat, offs: nat, partial: bool, mark: nat)
    returns (path: seq<nat>)
    requires Forward(h) && n < |h| && i <= |h[n].parsers| && MarkFrom(h, inp, n, i, offs, partial, mark) != mark
    requires forall j :: 0 <= j < i ==> !Leads(h, inp, h[n].parsers[j], offs, partial)
    ensures Explored(h, inp, n, offs, path, partial) && Walk(h, inp, n, offs, path).Some?
    ensures Walk(h, inp, n, offs, path).value.offs == MarkFrom(h, inp, n, i, offs, partial, mark)
    decreases |h| - n, 0, |h[n].parsers| - i
  {
    var p := h[n].parsers[i];
    var end := Parse(inp, p, offs);
    if end.None? {
      path := MarkFromReached(h, inp, n, i + 1, offs, partial, mark);
      return;
    }
    var sub := Mark(h, inp, p.node, end.value, partial, mark);
    var m := Max(sub, end.value);
    if MarkFrom(h, inp, n, i, offs, partial, mark) != m {
      path := MarkFromReached(h, inp, n, i + 1, offs, partial, m);
    } else if m == end.value {
      path := [i];
      WalkFirst(h, inp, n, offs, i, []);
      assert [i] + [] == [i];
    } else {
      var rest := MarkReached(h, inp, p.node, end.value, partial, mark);
      WalkFirst(h, inp, n, offs, i, rest);
      path := [i] + rest;
      assert path[1..] == rest;
    }
  }

  /** struct npb, with the event that is built and the end node. */
  class Npb {
    const inp: Input
    var parsedTo: nat
    var json: seq<Extract>
    var endNode: Option<NodeId>

    constructor (i: Input)
      ensures inp == i && parsedTo == 0 && json == [] && endNode == None
    {
      inp, parsedTo, json, endNode := i, 0, [], None;
    }

    /** PARSER_Parse(Literal): compare character by character. */
    method ParseLiteral(lit: string, offs: nat) returns (r: int, parsed: nat)
      requires offs <= |inp.msg|
      ensures r == 0 || r == LN_WRONGPARSER
      ensures r == 0 <==> PrefixAt(lit, inp.msg, offs)
      ensures r == 0 ==> parsed == |lit|
    {
      var i, j := offs, 0;
      while i < |inp.msg| && j < |lit| && lit[j] == inp.msg[i]
        invariant j <= |lit| && i == offs + j && i <= |inp.msg|
        invariant inp.msg[offs..i] == lit[..j]
        decreases |inp.msg| - i
      {
        assert inp.msg[offs..i + 1] == inp.msg[offs..i] + [inp.msg[i]];
        assert lit[..j + 1] == lit[..j] + [lit[j]];
        i, j := i + 1, j + 1;
      }
      if j == |lit| {
        return 0, j;
      }
      if offs + |lit| <= |inp.msg| {
        assert inp.msg[offs..offs + |lit|][j] == inp.msg[offs + j];
      }
      return LN_WRONGPARSER, j;
    }

    /** tryParser, without custom types; the caller's mark is restored. */
    method TryParser(p: Parser, offs: nat) returns (r: int, parsed: nat)
      requires offs <= |inp.msg|
      ensures r == 0 <==> Parse(inp, p, offs).Some?
      ensures r == 0 ==> Parse(inp, p, offs) == Some(offs + parsed)
    {
      if p.IsLiteral() {
        r, parsed := ParseLiteral(p.text, offs);
      } else {
        var len := inp.field(p.conf, offs);
        if len.Some? && offs + len.value <= |inp.msg| {
          r, parsed := 0, len.value;
        } else {
          r, parsed := LN_WRONGPARSER, 0;
        }
      }
    }

    /** fixJSON: unnamed parsers extract nothing. */
    method FixJson(p: Parser, from: nat, to: nat)
      modifies this`json
      ensures json == old(json) + Named(p, from, to)
    {
      if p.conf.name.Some? {
        json := json + [Extract(p.conf, from, to)];
      }
    }

    /** ln_normalizeRec */
    method NormalizeRec(h: Heap, n: NodeId, offs: nat, partial: bool) returns (r: int)
      requires Forward(h) && n < |h| && offs <= |inp.msg|
      modifies this
      ensures r == 0 || r == LN_WRONGPARSER
      ensures r == 0 <==> Match(h, inp, n, offs, partial).Some?
      ensures r == 0 ==> endNode == Some(Match(h, inp, n, offs, partial).value.endNode)
      ensures r == 0 ==> json == old(json) + Match(h, inp, n, offs, partial).value.fields
      ensures r != 0 ==> json == old(json) && endNode == old(endNode)
      ensures parsedTo == Mark(h, inp, n, offs, partial, old(parsedTo))
      decreases |h| - n
    {
      hide Parse;
      r := LN_WRONGPARSER;
      var to := parsedTo;
      var iprs := 0;
      var dag := h[n];
      while iprs < |dag.parsers| && r != 0
        invariant iprs <= |dag.parsers| && (r == 0 || r == LN_WRONGPARSER)
        invariant to <= parsedTo
        invariant r != 0 ==> json == old(json) && endNode == old(endNode)
        invariant r != 0 ==> MatchFrom(h, inp, n, 0, offs, partial) == MatchFrom(h, inp, n, iprs, offs, partial)
        invariant r != 0 ==>
          Mark(h, inp, n, offs, partial, old(parsedTo)) == MarkFrom(h, inp, n, iprs, offs, partial, parsedTo)
        invariant r == 0 ==> MatchFrom(h, inp, n, 0, offs, partial).Some?
        invariant r == 0 ==> endNode == Some(MatchFrom(h, inp, n, 0, offs, partial).value.endNode)
        invariant r == 0 ==> json == old(json) + MatchFrom(h, inp, n, 0, offs, partial).value.fields
        invariant r == 0 ==> Mark(h, inp, n, offs, partial, old(parsedTo)) == parsedTo
      {
        var prs := dag.parsers[iprs];
        var localR, parsed := TryParser(prs, offs);
        if localR == 0 {
          ParseBounds(inp, prs, offs);
          to := offs + parsed;
          r := NormalizeRec(h, prs.node, to, partial);
          if r == 0 {
            FixJson(prs, offs, to);
          }
        }
        if to > parsedTo {
          parsedTo := to;
        }
        iprs := iprs + 1;
      }
      if dag.terminal && (offs == |inp.msg| || partial) {
        endNode := Some(n);
        r := 0;
      }
    }
  }

  lemma ParseBounds(inp: Input, p: Parser, offs: nat)
    requires offs <= |inp.msg| && Parse(inp, p, offs).Some?
    ensures offs <= Parse(inp, p, offs).value <= |inp.msg|
  {
  }

  lemma {:induction false} WalkBounds(h: Heap, inp: Input, n: NodeId, offs: nat, path: seq<nat>)
    requires Forward(h) && n < |h| && offs <= |inp.msg| && Walk(h, inp, n, offs, path).Some?
    ensures offs <= Walk(h, inp, n, offs, path).value.offs <= |inp.msg|
    decreases |path|
  {
    if path != [] {
      var p := h[n].parsers[path[0]];
      WalkBounds(h, inp, p.node, Parse(inp, p, offs).value, path[1..]);
    }
  }

  /** No path of successful parsers gets beyond `to`, and one gets there. */
  ghost predicate Furthest(h: Heap, inp: Input, root: NodeId, to: int)
    requires Forward(h) && root < |h|
  {
    && (forall path :: Walk(h, inp, root, 0, path).Some? ==> Walk(h, inp, root, 0, path).value.offs <= to)
    && (exists path :: Walk(h, inp, root, 0, path).Some? && Walk(h, inp, root, 0, path).value.offs == to)
  }

  /** What the caller of `ln_normalize` gets: the extracted fields, or the message
      and the part of it that could not be parsed. */
  datatype Event =
    | Parsed(fields: seq<Extract>, endNode: NodeId)
    | Unparsed(originalMsg: string, unparsedData: string)

  /** ln_normalize: the event is complete exactly if the rules accept the message, and then it
      is what can be read off the preferred path: the text between the places before and
      behind each named parser.  Otherwise no path of parsers gets beyond the place where
      the unparsed data begins. */
  method Normalize(h: Heap, inp: Input, root: NodeId) returns (e: Event)
    requires Forward(h) && root < |h|
    ensures e.Parsed? <==> Accepts(h, inp, root, 0, false)
    ensures e.Parsed? ==> e.endNode < |h| && h[e.endNode].terminal
    ensures e.Parsed? ==> Match(h, inp, root, 0, false) == Some(Hit(e.endNode, e.fields))
    ensures e.Parsed? ==>
      exists path, k, at :: IsResult(h, inp, root, 0, false, path, k, at, Hit(e.endNode, e.fields))
    ensures e.Unparsed? ==> e.originalMsg == inp.msg && |e.unparsedData| <= |inp.msg|
    ensures e.Unparsed? ==> inp.msg == inp.msg[..|inp.msg| - |e.unparsedData|] + e.unparsedData
    ensures e.Unparsed? ==> Furthest(h, inp, root, |inp.msg| - |e.unparsedData|)
  {
    var npb := new Npb(inp);
    var r := npb.NormalizeRec(h, root, 0, false);
    MatchIffAccepts(h, inp, root, 0, false);
    if r == 0 {
      var path, k, at := ResultRead(h, inp, root, 0, false);
      assert npb.json == Match(h, inp, root, 0, false).value.fields;
    }
    if r == 0 && h[npb.endNode.value].terminal {
      e := Parsed(npb.json, npb.endNode.value);
    } else {
      FailureMark(h, inp, root);
      hide Furthest;
      e := Unparsed(inp.msg, inp.msg[npb.parsedTo..]);
    }
  }

  /** After a failed search the mark is the furthest offset of any path. */
  lemma FailureMark(h: Heap, inp: Input, root: NodeId)
    requires Forward(h) && root < |h| && Match(h, inp, root, 0, false).None?
    ensures Mark(h, inp, root, 0, false, 0) <= |inp.msg|
    ensures Furthest(h, inp, root, Mark(h, inp, root, 0, false, 0))
  {
    forall path: seq<nat> | Walk(h, inp, root, 0, path).Some?
      ensures Walk(h, inp, root, 0, path).value.offs <= Mark(h, inp, root, 0, false, 0)
    {
      if path != [] {
        FailureExploresAll(h, inp, root, 0, path, false);
        MarkCovers(h, inp, root, 0, path, false, 0);
      }
    }
    assert Walk(h, inp, root, 0, []) == Some(Place(root, 0));
    if Mark(h, inp, root, 0, false, 0) != 0 {
      var path := MarkReached(h, inp, root, 0, false, 0);
      WalkBounds(h, inp, root, 0, path);
    }
  }
}
