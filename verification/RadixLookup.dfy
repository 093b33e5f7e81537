/** Looking up a message in the v1 parse tree: the literal part of `ln_v1_normalizeRec`. */
module RadixLookup {
  import opened Json
  import opened RadixTree

  /** `c[offs] != cpfix[ipfix]` compares a `char` with an `unsigned char`: where plain
      `char` is signed, bytes from 0x80 on are never equal. */
  predicate Equal(signed: bool, c: char, p: char) {
    c == p && (!signed || c < 0x80 as char)
  }

  /** How many bytes of the prefix the message follows. */
  function Common(signed: bool, m: string, offs: nat, p: string): (k: nat)
    requires offs <= |m|
    ensures k <= |p| && offs + k <= |m|
    decreases |p|
  {
    if p == "" || offs == |m| || !Equal(signed, m[offs], p[0]) then 0 else 1 + Common(signed, m, offs + 1, p[1..])
  }

  /** The return value and `*endNode`, if it is set. */
  datatype Found = Found(left: int, endNode: Option<nat>)

  /** All links lead to nodes. */
  ghost predicate Linked(nodes: seq<Node>) {
    forall n, b :: 0 <= n < |nodes| && b in nodes[n].subtree ==> nodes[n].subtree[b] < |nodes|
  }

  function Lookup(signed: bool, nodes: seq<Node>, n: nat, m: string, offs: nat): (f: Found)
    requires Linked(nodes) && n < |nodes|
    ensures offs <= |m| ==> f.left <= |m| - offs
    decreases |m| - offs
  {
    var p := Prefix(nodes[n]);
    if offs >= |m| then Found(-|p|, Some(n)) else
    var k := Common(signed, m, offs, p);
    var left := |m| - offs - k;
    if k < |p| then Found(if left > 0 then left else k - |p|, None)
    else if left == 0 then Found(0, Some(n))
    else if m[offs + k] in nodes[n].subtree then Lookup(signed, nodes, nodes[n].subtree[m[offs + k]], m, offs + k + 1)
    else Found(left, None)
  }

  /** The literal part of ln_v1_normalizeRec. */
  method NormalizeRec(signed: bool, nodes: seq<Node>, tree: nat, str: string, offs0: nat)
    returns (r: int, endNode: Option<nat>)
    requires Linked(nodes) && tree < |nodes| && offs0 <= |str|
    ensures Found(r, endNode) == Lookup(signed, nodes, tree, str, offs0)
    decreases |str| - offs0
  {
    hide Equal, Prefix;
    var offs := offs0;
    var cpfix := Prefix(nodes[tree]);
    endNode := None;
    if offs >= |str| {
      return -|cpfix|, Some(tree);
    }
    r := |str| - offs;
    var ipfix := 0;
    assert cpfix[0..] == cpfix;
    while offs < |str| && ipfix < |cpfix|
      invariant ipfix <= |cpfix| && offs == offs0 + ipfix <= |str| && r == |str| - offs0
      invariant Common(signed, str, offs0, cpfix) == ipfix + Common(signed, str, offs, cpfix[ipfix..])
    {
      if !Equal(signed, str[offs], cpfix[ipfix]) {
        r := r - ipfix;
        return;
      }
      assert cpfix[ipfix..][1..] == cpfix[ipfix + 1..];
      offs, ipfix := offs + 1, ipfix + 1;
    }
    if ipfix != |cpfix| {
      r := ipfix - |cpfix|;
      return;
    }
    r := r - ipfix;
    if offs == |str| {
      return 0, Some(tree);
    }
    if str[offs] in nodes[tree].subtree {
      var left;
      left, endNode := NormalizeRec(signed, nodes, nodes[tree].subtree[str[offs]], str, offs + 1);
      if left < r {
        r := left;
      }
    }
  }

  // ----- what the result means -----

  /** `x` is `t` or below it, going up from parent to parent. */
  ghost predicate Under(nodes: seq<Node>, root: nat, paths: seq<string>, t: nat, x: nat)
    requires Tree(nodes, root, paths) && x < |nodes|
    decreases |paths[x]|
  {
    x == t ||
    (x != root && Up(nodes, root, paths, x) < |nodes| && Under(nodes, root, paths, t, Up(nodes, root, paths, x)))
  }

  /** The parent. */
  ghost function Up(nodes: seq<Node>, root: nat, paths: seq<string>, x: nat): (p: nat)
    requires Tree(nodes, root, paths) && x < |nodes| && x != root
    ensures p < |nodes| && |paths[p]| < |paths[x]| && nodes[x].parentptr.Some?
    ensures var b := nodes[x].parentptr.value.byte;
      b in nodes[p].subtree && nodes[p].subtree[b] == x && paths[x] == Full(nodes[p], paths[p]) + [b]
  {
    RootHasNoParent(nodes, root, paths, x);
    ParentIsOther(nodes, root, paths, x);
    nodes[x].parentptr.value.node
  }

  lemma {:induction false} AllUnderRoot(nodes: seq<Node>, root: nat, paths: seq<string>, x: nat)
    requires Tree(nodes, root, paths) && x < |nodes|
    ensures Under(nodes, root, paths, root, x)
    decreases |paths[x]|
  {
    if x != root {
      AllUnderRoot(nodes, root, paths, Up(nodes, root, paths, x));
    }
  }

  /** The first step from `t` down to `x`. */
  lemma {:induction false} StepDown(nodes: seq<Node>, root: nat, paths: seq<string>, t: nat, x: nat) returns (b: char)
    requires Tree(nodes, root, paths) && t < |nodes| && x < |nodes| && x != t && Under(nodes, root, paths, t, x)
    ensures b in nodes[t].subtree && nodes[t].subtree[b] < |nodes| && Under(nodes, root, paths, nodes[t].subtree[b], x)
    decreases |paths[x]|
  {
    var p := Up(nodes, root, paths, x);
    if p == t {
      b := nodes[x].parentptr.value.byte;
    } else {
      b := StepDown(nodes, root, paths, t, p);
    }
  }

  lemma {:induction false} UnderPath(nodes: seq<Node>, root: nat, paths: seq<string>, t: nat, x: nat)
    requires Tree(nodes, root, paths) && t < |nodes| && x < |nodes| && Under(nodes, root, paths, t, x)
    ensures paths[t] <= paths[x]
    decreases |paths[x]|
  {
    if x != t {
      var p := Up(nodes, root, paths, x);
      UnderPath(nodes, root, paths, t, p);
      assert paths[p] <= Full(nodes[p], paths[p]) <= paths[x];
    }
  }

  lemma {:induction false} TreeLinked(nodes: seq<Node>, root: nat, paths: seq<string>)
    requires Tree(nodes, root, paths)
    ensures Linked(nodes)
  {
    forall n, b | 0 <= n < |nodes| && b in nodes[n].subtree
      ensures nodes[n].subtree[b] < |nodes|
    {
      ChildOf(nodes, root, paths, n, b);
    }
  }

  lemma {:induction false} CommonIs(signed: bool, m: string, offs: nat, p: string)
    requires offs <= |m|
    ensures var k := Common(signed, m, offs, p);
      && m[offs..offs + k] == p[..k]
      && (k < |p| && offs + k < |m| ==> !Equal(signed, m[offs + k], p[k]))
    decreases |p|
  {
    var k := Common(signed, m, offs, p);
    if k > 0 {
      CommonIs(signed, m, offs + 1, p[1..]);
      assert m[offs..offs + k] == [m[offs]] + m[offs + 1..offs + k];
      assert p[..k] == [p[0]] + p[1..][..k - 1];
    }
  }

  /** Comparing bytes with prefixes is exact for this message. */
  predicate Plain(signed: bool, m: string) {
    signed ==> forall i :: 0 <= i < |m| ==> m[i] < 0x80 as char
  }

  /** What was read of the message is the path to the node. */
  ghost predicate AtNode(nodes: seq<Node>, paths: seq<string>, n: nat, m: string, offs: nat) {
    n < |nodes| == |paths| && offs <= |m| && m[..offs] == paths[n]
  }

  lemma {:induction false} AtChild(nodes: seq<Node>, root: nat, paths: seq<string>, n: nat, m: string, at: nat)
    requires Tree(nodes, root, paths) && n < |nodes| && at < |m| && m[..at] == Full(nodes[n], paths[n])
    requires m[at] in nodes[n].subtree
    ensures AtNode(nodes, paths, nodes[n].subtree[m[at]], m, at + 1)
  {
    ChildOf(nodes, root, paths, n, m[at]);
    assert m[..at + 1] == m[..at] + [m[at]];
  }

  /** The prefix agrees for `k` bytes. */
  lemma {:induction false} Read(signed: bool, nodes: seq<Node>, paths: seq<string>, n: nat, m: string, offs: nat)
    requires AtNode(nodes, paths, n, m, offs)
    ensures var p := Prefix(nodes[n]);
      var k := Common(signed, m, offs, p);
      m[..offs + k] == paths[n] + p[..k]
  {
    var p := Prefix(nodes[n]);
    var k := Common(signed, m, offs, p);
    CommonIs(signed, m, offs, p);
    assert m[..offs + k] == m[..offs] + m[offs..offs + k];
  }

  /** One level of the lookup. */
  lemma {:induction false} LookupStep(signed: bool, nodes: seq<Node>, n: nat, m: string, offs: nat, k: nat)
    requires Linked(nodes) && n < |nodes| && offs <= |m| && k == Common(signed, m, offs, Prefix(nodes[n]))
    ensures var f, len := Lookup(signed, nodes, n, m, offs), |Prefix(nodes[n])|;
      && (offs + k == |m| ==> f.left == k - len && (f.left == 0 ==> f.endNode == Some(n)))
      && (offs + k < |m| && k < len ==> f == Found(|m| - offs - k, None))
      && (offs + k < |m| && k == len && m[offs + k] !in nodes[n].subtree ==> f == Found(|m| - offs - k, None))
      && (offs + k < |m| && k == len && m[offs + k] in nodes[n].subtree ==>
          f == Lookup(signed, nodes, nodes[n].subtree[m[offs + k]], m, offs + k + 1))
  {
    hide Prefix;
  }

  /** Soundness: the result says where in the tree the message ends. */
  lemma {:induction false} LookupSound(signed: bool, nodes: seq<Node>, root: nat, paths: seq<string>, n: nat,
      m: string, offs: nat)
    returns (x: nat)
    requires Tree(nodes, root, paths) && Linked(nodes) && AtNode(nodes, paths, n, m, offs)
    ensures var f := Lookup(signed, nodes, n, m, offs);
      f.left <= 0 ==>
        x < |nodes| && paths[x] <= m <= Full(nodes[x], paths[x]) && f.left == |m| - |Full(nodes[x], paths[x])|
    ensures var f := Lookup(signed, nodes, n, m, offs); f.left == 0 ==> f.endNode == Some(x)
    decreases |m| - offs
  {
    x := n;
    var p := Prefix(nodes[n]);
    Read(signed, nodes, paths, n, m, offs);
    var k := Common(signed, m, offs, p);
    LookupStep(signed, nodes, n, m, offs, k);
    hide Lookup, Common, Prefix, Tree, Linked, StorageOk;
    assert offs + k == |m| ==> m[..offs + k] == m;
    assert k == |p| ==> p[..k] == p;
    if offs + k < |m| && k == |p| && m[offs + k] in nodes[n].subtree {
      AtChild(nodes, root, paths, n, m, offs + k);
      x := LookupSound(signed, nodes, root, paths, nodes[n].subtree[m[offs + k]], m, offs + k + 1);
    }
  }

  /** The message ends at `x` or inside its prefix. */
  ghost predicate EndsAt(nodes: seq<Node>, paths: seq<string>, x: nat, m: string)
  {
    x < |nodes| == |paths| && paths[x] <= m <= Full(nodes[x], paths[x])
  }

  ghost predicate FoundAt(f: Found, nodes: seq<Node>, paths: seq<string>, m: string, x: nat) {
    x < |nodes| == |paths| && f.left == |m| - |Full(nodes[x], paths[x])| && (f.left == 0 ==> f.endNode == Some(x))
  }

  /** Completeness: a message that ends at a node, or inside its prefix, is found there. */
  lemma {:induction false} LookupComplete(signed: bool, nodes: seq<Node>, root: nat, paths: seq<string>, n: nat,
      m: string, offs: nat, x: nat)
    requires Tree(nodes, root, paths) && Linked(nodes) && AtNode(nodes, paths, n, m, offs)
    requires Plain(signed, m) && x < |nodes| && Under(nodes, root, paths, n, x)
    requires EndsAt(nodes, paths, x, m)
    ensures FoundAt(Lookup(signed, nodes, n, m, offs), nodes, paths, m, x)
    decreases |m| - offs
  {
    Inside(nodes, paths, n, m, offs);
    hide Lookup, Plain, Prefix, Common, Under, Full, Tree, Linked, EndsAt, AtNode, FoundAt;
    if x == n {
      EndsHere(signed, nodes, paths, n, m, offs);
    } else {
      var c, at := Deeper(signed, nodes, root, paths, n, m, offs, x);
      LookupComplete(signed, nodes, root, paths, c, m, at, x);
    }
  }

  lemma {:induction false} LookupDown(signed: bool, nodes: seq<Node>, n: nat, m: string, offs: nat, at: nat)
    requires Linked(nodes) && n < |nodes| && offs <= |m| && at == offs + |Prefix(nodes[n])| < |m|
    requires Common(signed, m, offs, Prefix(nodes[n])) == |Prefix(nodes[n])| && m[at] in nodes[n].subtree
    ensures Lookup(signed, nodes, n, m, offs) == Lookup(signed, nodes, nodes[n].subtree[m[at]], m, at + 1)
  {
    LookupStep(signed, nodes, n, m, offs, |Prefix(nodes[n])|);
  }

  lemma {:induction false} Inside(nodes: seq<Node>, paths: seq<string>, n: nat, m: string, offs: nat)
    requires AtNode(nodes, paths, n, m, offs)
    ensures n < |nodes| == |paths| && offs <= |m|
  {
  }

  lemma {:induction false} EndsHere(signed: bool, nodes: seq<Node>, paths: seq<string>, n: nat, m: string, offs: nat)
    requires Linked(nodes) && AtNode(nodes, paths, n, m, offs)
    requires Plain(signed, m) && EndsAt(nodes, paths, n, m)
    ensures FoundAt(Lookup(signed, nodes, n, m, offs), nodes, paths, m, n)
  {
    var p := Prefix(nodes[n]);
    FollowsPrefix(signed, m, offs, p, paths[n]);
    LookupStep(signed, nodes, n, m, offs, Common(signed, m, offs, p));
  }

  /** A message that ends below `n` passes its prefix and goes on to a child. */
  lemma {:induction false} Descends(signed: bool, nodes: seq<Node>, root: nat, paths: seq<string>, n: nat, m: string,
      offs: nat, x: nat)
    returns (b: char)
    requires Tree(nodes, root, paths) && Linked(nodes) && AtNode(nodes, paths, n, m, offs)
    requires Plain(signed, m) && x < |nodes| && x != n && Under(nodes, root, paths, n, x) && EndsAt(nodes, paths, x, m)
    ensures var p := Prefix(nodes[n]);
      && b in nodes[n].subtree && nodes[n].subtree[b] < |nodes| && Under(nodes, root, paths, nodes[n].subtree[b], x)
      && Common(signed, m, offs, p) == |p| && offs + |p| < |m| && m[offs + |p|] == b
      && AtNode(nodes, paths, nodes[n].subtree[b], m, offs + |p| + 1)
  {
    b := StepDown(nodes, root, paths, n, x);
    var c := nodes[n].subtree[b];
    ChildOf(nodes, root, paths, n, b);
    UnderPath(nodes, root, paths, c, x);
    hide Under, Tree, Plain, Common;
    assert paths[n] + Prefix(nodes[n]) + [b] <= m;
    PassesPrefix(signed, m, offs, Prefix(nodes[n]), paths[n], b);
  }

  lemma {:induction false} Deeper(signed: bool, nodes: seq<Node>, root: nat, paths: seq<string>, n: nat, m: string,
      offs: nat, x: nat)
    returns (c: nat, at: nat)
    requires Tree(nodes, root, paths) && Linked(nodes) && AtNode(nodes, paths, n, m, offs)
    requires Plain(signed, m) && x < |nodes| && x != n && Under(nodes, root, paths, n, x) && EndsAt(nodes, paths, x, m)
    ensures offs < at <= |m| && c < |nodes| && AtNode(nodes, paths, c, m, at) && Under(nodes, root, paths, c, x)
    ensures Lookup(signed, nodes, n, m, offs) == Lookup(signed, nodes, c, m, at)
  {
    var b := Descends(signed, nodes, root, paths, n, m, offs, x);
    hide Lookup, Tree, Plain, Under, EndsAt, AtNode, Common, Prefix, Linked;
    c, at := nodes[n].subtree[b], offs + |Prefix(nodes[n])| + 1;
    LookupDown(signed, nodes, n, m, offs, at - 1);
  }

  lemma {:induction false} FollowsPrefix(signed: bool, m: string, offs: nat, p: string, path: string)
    requires Plain(signed, m) && offs == |path| <= |m| && path <= m <= path + p
    ensures Common(signed, m, offs, p) == |m| - offs
  {
    CommonIs(signed, m, offs, p);
    assert forall i :: 0 <= i < |m| - offs ==> m[offs + i] == (path + p)[offs + i] == p[i];
  }

  lemma {:induction false} PassesPrefix(signed: bool, m: string, offs: nat, p: string, path: string, b: char)
    requires Plain(signed, m) && offs == |path| <= |m| && path + p + [b] <= m
    ensures Common(signed, m, offs, p) == |p| && offs + |p| < |m| && m[offs + |p|] == b
  {
    CommonIs(signed, m, offs, p);
    assert m[offs + |p|] == (path + p + [b])[offs + |p|];
    assert forall i :: 0 <= i < |p| ==> m[offs + i] == (path + p + [b])[offs + i] == p[i];
  }

  /** The longest common prefix of two strings. */
  function Shared(a: string, b: string): (k: nat)
    ensures k <= |a| && k <= |b| && a[..k] == b[..k]
    ensures k < |a| && k < |b| ==> a[k] != b[k]
  {
    if a == "" || b == "" || a[0] != b[0] then 0
    else
      var k := 1 + Shared(a[1..], b[1..]);
      assert a[..k] == [a[0]] + a[1..][..k - 1] && b[..k] == [b[0]] + b[1..][..k - 1];
      k
  }

  lemma {:induction false} SharedIs(a: string, b: string, k: nat)
    requires k <= |a| && k <= |b| && a[..k] == b[..k]
    ensures Shared(a, b) >= k
    ensures k < |a| && k < |b| && a[k] != b[k] ==> Shared(a, b) == k
    ensures k == |a| || k == |b| ==> Shared(a, b) == k
  {
  }

  /** No stored text below `n` agrees with the message for longer than the lookup did. */
  lemma {:induction false} LookupLongest(signed: bool, nodes: seq<Node>, root: nat, paths: seq<string>, n: nat,
      m: string, offs: nat, x: nat)
    requires Tree(nodes, root, paths) && Linked(nodes) && AtNode(nodes, paths, n, m, offs)
    requires Plain(signed, m) && x < |nodes| && Under(nodes, root, paths, n, x)
    ensures var f := Lookup(signed, nodes, n, m, offs);
      f.left > 0 ==> Shared(m, Full(nodes[x], paths[x])) <= |m| - f.left
    decreases |m| - offs, 1
  {
    var k := Common(signed, m, offs, Prefix(nodes[n]));
    LookupStep(signed, nodes, n, m, offs, k);
    if offs + k < |m| && k < |Prefix(nodes[n])| {
      InPrefix(signed, nodes, root, paths, n, m, offs, x);
    } else if offs + k < |m| {
      PrefixRead(signed, nodes, paths, n, m, offs);
      hide Lookup, Plain, Full, Prefix, Under, Tree, Shared, Linked, Common, AtNode;
      AtBranch(signed, nodes, root, paths, n, m, offs + k, x);
    }
  }

  lemma {:induction false} PrefixRead(signed: bool, nodes: seq<Node>, paths: seq<string>, n: nat, m: string, offs: nat)
    requires AtNode(nodes, paths, n, m, offs)
    requires Common(signed, m, offs, Prefix(nodes[n])) == |Prefix(nodes[n])|
    ensures m[..offs + |Prefix(nodes[n])|] == Full(nodes[n], paths[n])
  {
    var p := Prefix(nodes[n]);
    Read(signed, nodes, paths, n, m, offs);
    assert p[..|p|] == p;
  }

  lemma {:induction false} InPrefix(signed: bool, nodes: seq<Node>, root: nat, paths: seq<string>, n: nat, m: string,
      offs: nat, x: nat)
    requires Tree(nodes, root, paths) && AtNode(nodes, paths, n, m, offs)
    requires Plain(signed, m) && x < |nodes| && Under(nodes, root, paths, n, x)
    requires var k := Common(signed, m, offs, Prefix(nodes[n])); k < |Prefix(nodes[n])| && offs + k < |m|
    ensures Shared(m, Full(nodes[x], paths[x])) == offs + Common(signed, m, offs, Prefix(nodes[n]))
  {
    var p := Prefix(nodes[n]);
    var k := Common(signed, m, offs, p);
    CommonIs(signed, m, offs, p);
    Read(signed, nodes, paths, n, m, offs);
    UnderFull(nodes, root, paths, n, x);
    var w := Full(nodes[x], paths[x]);
    assert paths[n] + p <= w && |paths[n]| == offs;
    hide Full, Prefix, Under, Tree, Shared, Common, Equal, Plain;
    LeavesPrefix(signed, m, w, paths[n], p, offs, k);
  }

  lemma {:induction false} LeavesPrefix(signed: bool, m: string, w: string, path: string, p: string, offs: nat, k: nat)
    requires Plain(signed, m) && offs == |path| && k < |p| && offs + k < |m| && path + p <= w
    requires m[..offs + k] == path + p[..k] && !Equal(signed, m[offs + k], p[k])
    ensures Shared(m, w) == offs + k
  {
  }

  /** The same at the branch table: `n` was read completely and the message goes on. */
  lemma {:induction false} AtBranch(signed: bool, nodes: seq<Node>, root: nat, paths: seq<string>, n: nat, m: string,
      at: nat, x: nat)
    requires Tree(nodes, root, paths) && Linked(nodes) && n < |nodes| && at < |m| && m[..at] == Full(nodes[n], paths[n])
    requires Plain(signed, m) && x < |nodes| && Under(nodes, root, paths, n, x)
    ensures if m[at] in nodes[n].subtree then
        var f := Lookup(signed, nodes, nodes[n].subtree[m[at]], m, at + 1);
        f.left > 0 ==> Shared(m, Full(nodes[x], paths[x])) <= |m| - f.left
      else Shared(m, Full(nodes[x], paths[x])) <= at
    decreases |m| - at, 0
  {
    var w := Full(nodes[x], paths[x]);
    if m[at] in nodes[n].subtree {
      LookupDeeper(signed, nodes, nodes[n].subtree[m[at]], m, at + 1);
    }
    if x == n {
      SharedIs(m, w, at);
    } else {
      var b := StepDown(nodes, root, paths, n, x);
      var c := nodes[n].subtree[b];
      ChildOf(nodes, root, paths, n, b);
      if b == m[at] {
        AtChild(nodes, root, paths, n, m, at);
        LookupLongest(signed, nodes, root, paths, c, m, at + 1, x);
      } else {
        UnderPath(nodes, root, paths, c, x);
        assert paths[c][..at] == m[..at];
        StopsAt(m, w, paths[c], at);
      }
    }
  }

  lemma {:induction false} LookupDeeper(signed: bool, nodes: seq<Node>, n: nat, m: string, offs: nat)
    requires Linked(nodes) && n < |nodes| && offs <= |m|
    ensures Lookup(signed, nodes, n, m, offs).left <= |m| - offs
  {
  }

  lemma {:induction false} StopsAt(m: string, w: string, stem: string, k: nat)
    requires stem <= w && k < |stem| && k < |m| && m[..k] == stem[..k] && m[k] != stem[k]
    ensures Shared(m, w) == k
  {
  }

  lemma {:induction false} UnderFull(nodes: seq<Node>, root: nat, paths: seq<string>, n: nat, x: nat)
    requires Tree(nodes, root, paths) && n < |nodes| && x < |nodes| && Under(nodes, root, paths, n, x)
    ensures Full(nodes[n], paths[n]) <= Full(nodes[x], paths[x])
  {
    if x != n {
      var b := StepDown(nodes, root, paths, n, x);
      ChildOf(nodes, root, paths, n, b);
      UnderPath(nodes, root, paths, nodes[n].subtree[b], x);
    }
  }

  function MaxPath(paths: seq<string>): (b: nat)
    ensures forall i :: 0 <= i < |paths| ==> |paths[i]| <= b
  {
    if paths == [] then 0 else
    var b := MaxPath(paths[..|paths| - 1]);
    assert forall i :: 0 <= i < |paths| - 1 ==> paths[i] == paths[..|paths| - 1][i];
    if b < |paths[|paths| - 1]| then |paths[|paths| - 1]| else b
  }

  /** Every node of a tree in use leads to a stored word. */
  lemma {:induction false} LeadsToWord(nodes: seq<Node>, root: nat, paths: seq<string>, n: nat) returns (w: string)
    requires Tree(nodes, root, paths) && n < |nodes|
    requires forall i :: 0 <= i < |nodes| ==> nodes[i].terminal || nodes[i].subtree != map[]
    ensures w in Words(nodes, paths) && Full(nodes[n], paths[n]) <= w
    decreases MaxPath(paths) - |paths[n]|
  {
    if nodes[n].terminal {
      w := Full(nodes[n], paths[n]);
    } else {
      EmptyKeys(nodes[n].subtree);
      var b :| b in nodes[n].subtree;
      var c := nodes[n].subtree[b];
      ChildOf(nodes, root, paths, n, b);
      w := LeadsToWord(nodes, root, paths, c);
    }
  }

  /** When the message leaves the tree, the part that was read is the start of a stored word. */
  lemma {:induction false} LeavesInTree(signed: bool, nodes: seq<Node>, root: nat, paths: seq<string>, n: nat,
      m: string, offs: nat)
    returns (x: nat)
    requires Tree(nodes, root, paths) && Linked(nodes) && AtNode(nodes, paths, n, m, offs)
    ensures x < |nodes|
    ensures var f := Lookup(signed, nodes, n, m, offs); f.left > 0 ==> m[..|m| - f.left] <= Full(nodes[x], paths[x])
    decreases |m| - offs
  {
    x := n;
    Read(signed, nodes, paths, n, m, offs);
    var k := Common(signed, m, offs, Prefix(nodes[n]));
    LookupStep(signed, nodes, n, m, offs, k);
    Begins(nodes[n], paths[n], k);
    assert k == |Prefix(nodes[n])| ==> Prefix(nodes[n])[..k] == Prefix(nodes[n]);
    hide Lookup, Common, Prefix, Tree, Linked, StorageOk;
    if offs + k < |m| && k == |Prefix(nodes[n])| && m[offs + k] in nodes[n].subtree {
      AtChild(nodes, root, paths, n, m, offs + k);
      x := LeavesInTree(signed, nodes, root, paths, nodes[n].subtree[m[offs + k]], m, offs + k + 1);
    }
  }

  lemma {:induction false} Begins(n: Node, path: string, k: nat)
    requires k <= |Prefix(n)|
    ensures path + Prefix(n)[..k] <= Full(n, path)
  {
  }

  /** `k` bytes of the message are the longest common prefix with any of the words. */
  ghost predicate Longest(m: string, words: set<string>, k: int) {
    && (forall w :: w in words ==> Shared(m, w) <= k)
    && (if words == {} then k == 0 else exists w :: w in words && Shared(m, w) == k)
  }

  /** The message ends `missing` bytes before the end of a prefix, and behind its beginning. */
  ghost predicate EndsInside(nodes: seq<Node>, paths: seq<string>, m: string, missing: int)
    requires |nodes| == |paths|
  {
    exists x ::
      0 <= x < |nodes| && paths[x] <= m < Full(nodes[x], paths[x]) && |m| + missing == |Full(nodes[x], paths[x])|
  }

  /** The return value of the lookup, for every tree that was built from words: 0 exactly if
      the message ends at a node; negative, by the number of missing bytes, exactly if it
      ends inside a prefix; otherwise what is left behind the longest common prefix with
      any stored word. */
  lemma {:induction false} LookupResult(signed: bool, nodes: seq<Node>, root: nat, paths: seq<string>, m: string)
    requires Tree(nodes, root, paths) && Used(nodes) && Linked(nodes) && Plain(signed, m)
    ensures var f := Lookup(signed, nodes, root, m, 0);
      && (f.left == 0 <==> exists x :: 0 <= x < |nodes| && Full(nodes[x], paths[x]) == m)
      && (forall missing :: missing > 0 ==> (f.left == -missing <==> EndsInside(nodes, paths, m, missing)))
      && (f.left > 0 ==> Longest(m, Words(nodes, paths), |m| - f.left))
  {
    RootPath(nodes, root, paths);
    assert m[..0] == "";
    var f := Lookup(signed, nodes, root, m, 0);
    var x := LookupSound(signed, nodes, root, paths, root, m, 0);
    forall y: nat | y < |nodes| && EndsAt(nodes, paths, y, m)
      ensures f.left == |m| - |Full(nodes[y], paths[y])|
    {
      AllUnderRoot(nodes, root, paths, y);
      LookupComplete(signed, nodes, root, paths, root, m, 0, y);
    }
    hide Tree, Lookup, Plain;
    if f.left > 0 {
      LookupLeftOver(signed, nodes, root, paths, m);
    }
  }

  lemma {:induction false} RootPath(nodes: seq<Node>, root: nat, paths: seq<string>)
    requires Tree(nodes, root, paths)
    ensures paths[root] == "" && root < |nodes| == |paths|
  {
    assert Placed(nodes, root, paths, root);
  }

  lemma {:induction false} LookupLeftOver(signed: bool, nodes: seq<Node>, root: nat, paths: seq<string>, m: string)
    requires Tree(nodes, root, paths) && Used(nodes) && Linked(nodes) && Plain(signed, m)
    requires Lookup(signed, nodes, root, m, 0).left > 0
    ensures Longest(m, Words(nodes, paths), |m| - Lookup(signed, nodes, root, m, 0).left)
  {
    RootPath(nodes, root, paths);
    assert m[..0] == "";
    var k := |m| - Lookup(signed, nodes, root, m, 0).left;
    forall w | w in Words(nodes, paths)
      ensures Shared(m, w) <= k
    {
      var x :| 0 <= x < |nodes| && nodes[x].terminal && Full(nodes[x], paths[x]) == w;
      AllUnderRoot(nodes, root, paths, x);
      LookupLongest(signed, nodes, root, paths, root, m, 0, x);
    }
    var x := LeavesInTree(signed, nodes, root, paths, root, m, 0);
    hide Tree, Lookup, Plain;
    if |nodes| == 1 && IsTrueLeaf(nodes[0]) {
      NoWords(nodes, paths);
      EmptyRoot(nodes, root, paths);
    } else {
      var w := LeadsToWord(nodes, root, paths, x);
      SharedIs(m, w, k);
      assert Shared(m, w) == k;
    }
  }

  lemma {:induction false} EmptyRoot(nodes: seq<Node>, root: nat, paths: seq<string>)
    requires Tree(nodes, root, paths) && |nodes| == 1 && IsTrueLeaf(nodes[0])
    ensures Full(nodes[0], paths[0]) == ""
  {
    RootPath(nodes, root, paths);
  }

  /** A message is accepted if it ends at a terminal node. */
  predicate Accepted(signed: bool, nodes: seq<Node>, root: nat, m: string)
    requires Linked(nodes) && root < |nodes|
  {
    var f := Lookup(signed, nodes, root, m, 0);
    f.left == 0 && f.endNode.Some? && f.endNode.value < |nodes| && nodes[f.endNode.value].terminal
  }

  /** Exactly the stored words are accepted. */
  lemma {:induction false} AcceptedIffStored(signed: bool, nodes: seq<Node>, root: nat, paths: seq<string>, m: string)
    requires Tree(nodes, root, paths) && Linked(nodes) && Plain(signed, m)
    ensures Accepted(signed, nodes, root, m) <==> m in Words(nodes, paths)
  {
    RootPath(nodes, root, paths);
    assert m[..0] == "";
    var x := LookupSound(signed, nodes, root, paths, root, m, 0);
    assert Lookup(signed, nodes, root, m, 0).left == 0 ==> m == Full(nodes[x], paths[x]);
    hide Tree, Lookup, Plain;
    if m in Words(nodes, paths) {
      var y :| 0 <= y < |nodes| && nodes[y].terminal && Full(nodes[y], paths[y]) == m;
      AllUnderRoot(nodes, root, paths, y);
      LookupComplete(signed, nodes, root, paths, root, m, 0, y);
    }
  }

  // ----- signed characters -----

  /** On its way down the message meets a byte from 0x80 on inside a prefix. */
  predicate HighInPrefix(nodes: seq<Node>, n: nat, m: string, offs: nat)
    requires Linked(nodes) && n < |nodes| && offs <= |m|
    decreases |m| - offs
  {
    var p := Prefix(nodes[n]);
    var k := Common(false, m, offs, p);
    HasHigh(m, offs, offs + k) ||
    (k == |p| && offs + k < |m| && m[offs + k] in nodes[n].subtree
     && HighInPrefix(nodes, nodes[n].subtree[m[offs + k]], m, offs + k + 1))
  }

  predicate HasHigh(m: string, from: nat, to: nat)
    requires from <= to <= |m|
  {
    exists i :: from <= i < to && m[i] >= 0x80 as char
  }

  /** The signed comparison stops at the first high byte that the two have in common. */
  lemma {:induction false} SignedCommon(m: string, offs: nat, p: string)
    requires offs <= |m|
    ensures var k := Common(false, m, offs, p);
      if HasHigh(m, offs, offs + k) then Common(true, m, offs, p) < k else Common(true, m, offs, p) == k
    decreases |p|
  {
    if p != "" && offs < |m| && m[offs] == p[0] {
      SignedCommon(m, offs + 1, p[1..]);
      var k := Common(false, m, offs, p);
      assert HasHigh(m, offs, offs + k) <==> m[offs] >= 0x80 as char || HasHigh(m, offs + 1, offs + k);
    }
  }

  lemma {:induction false} SignedLookup(nodes: seq<Node>, n: nat, m: string, offs: nat)
    requires Linked(nodes) && n < |nodes| && offs <= |m|
    ensures if HighInPrefix(nodes, n, m, offs) then Lookup(true, nodes, n, m, offs).left > 0
            else Lookup(true, nodes, n, m, offs) == Lookup(false, nodes, n, m, offs)
    decreases |m| - offs
  {
    var p := Prefix(nodes[n]);
    var k, j := Common(false, m, offs, p), Common(true, m, offs, p);
    SignedCommon(m, offs, p);
    hide Prefix, Common;
    if j == k && k == |p| && offs + k < |m| && m[offs + k] in nodes[n].subtree {
      SignedLookup(nodes, nodes[n].subtree[m[offs + k]], m, offs + k + 1);
    }
  }

  /** Where `char` is signed, a stored word is found exactly if none of its bytes from 0x80
      on has become part of a prefix. */
  lemma {:induction false} SignedAccepted(nodes: seq<Node>, root: nat, paths: seq<string>, m: string)
    requires Tree(nodes, root, paths) && Linked(nodes)
    ensures root < |nodes| &&
      (Accepted(true, nodes, root, m) <==> m in Words(nodes, paths) && !HighInPrefix(nodes, root, m, 0))
  {
    RootPath(nodes, root, paths);
    AcceptedIffStored(false, nodes, root, paths, m);
    SignedLookup(nodes, root, m, 0);
  }

  /** A single node with the word as its prefix. */
  lemma {:induction false} LoneNode(nodes: seq<Node>, root: nat, paths: seq<string>, word: string)
    requires Tree(nodes, root, paths) && |nodes| == 1 && Words(nodes, paths) == {word}
    ensures Linked(nodes) && root == 0 && Prefix(nodes[0]) == word && nodes[0].subtree == map[]
  {
    TreeLinked(nodes, root, paths);
    RootPath(nodes, root, paths);
    assert word in Words(nodes, paths);
    if b :| b in nodes[0].subtree { ChildOf(nodes, root, paths, 0, b); }
  }

  /** The first word of a tree is found again where `char` is signed exactly if it has no
      byte from 0x80 on. */
  method LoneWord(word: string) returns (t: PTree)
    ensures fresh(t) && t.Valid() && Words(t.nodes, t.paths) == {word} && Linked(t.nodes) && t.root < |t.nodes|
    ensures Accepted(false, t.nodes, t.root, word)
    ensures Accepted(true, t.nodes, t.root, word) <==> forall i :: 0 <= i < |word| ==> word[i] < 0x80 as char
  {
    t := new PTree();
    t.AddWord(word);
    assert word in Words(t.nodes, t.paths);
    LoneNode(t.nodes, t.root, t.paths, word);
    AcceptedIffStored(false, t.nodes, t.root, t.paths, word);
    SignedAccepted(t.nodes, t.root, t.paths, word);
    FollowsPrefix(false, word, 0, word, "");
    assert "" + word == word;
    hide Accepted, Common, Prefix, Tree;
    assert HighInPrefix(t.nodes, t.root, word, 0) <==> HasHigh(word, 0, |word|);
  }

  /** The byte C3, stored as the only word, is not found again. */
  method SignedExample() returns (t: PTree)
    ensures fresh(t) && t.Valid() && Words(t.nodes, t.paths) == {[0xC3 as char]}
    ensures Linked(t.nodes) && t.root < |t.nodes|
    ensures !Accepted(true, t.nodes, t.root, [0xC3 as char])
  {
    t := LoneWord([0xC3 as char]);
  }

  // ----- from words to lookups -----

  /** Everything that extends a message which ends at `x` hangs below `x`. */
  lemma {:induction false} ThroughNode(nodes: seq<Node>, root: nat, paths: seq<string>, n: nat, x: nat, y: nat,
      m: string)
    requires Tree(nodes, root, paths) && n < |nodes| && x < |nodes| && y < |nodes|
    requires Under(nodes, root, paths, n, x) && Under(nodes, root, paths, n, y)
    requires EndsAt(nodes, paths, x, m) && m <= Full(nodes[y], paths[y])
    ensures Under(nodes, root, paths, x, y)
    decreases |paths[x]| - |paths[n]|
  {
    UnderPath(nodes, root, paths, n, x);
    if n != x {
      var w := Full(nodes[y], paths[y]);
      var b := StepDown(nodes, root, paths, n, x);
      var c := nodes[n].subtree[b];
      ChildOf(nodes, root, paths, n, b);
      UnderPath(nodes, root, paths, c, x);
      assert paths[c] <= m <= w;
      assert y != n;
      var b' := StepDown(nodes, root, paths, n, y);
      ChildOf(nodes, root, paths, n, b');
      UnderFull(nodes, root, paths, nodes[n].subtree[b'], y);
      assert b == w[|Full(nodes[n], paths[n])|] == b';
      ThroughNode(nodes, root, paths, c, x, y, m);
    }
  }

  /** All words that extend the message have at least `k` more bytes, and the same. */
  ghost predicate SameContinuation(words: set<string>, m: string, k: int) {
    forall v, w :: v in words && w in words && m <= v && m <= w ==>
      0 <= k && |m| + k <= |v| && |m| + k <= |w| && v[..|m| + k] == w[..|m| + k]
  }

  ghost predicate IsStart(words: set<string>, m: string) {
    m == "" || exists w :: w in words && m <= w
  }

  lemma {:induction false} NotEmpty(signed: bool, nodes: seq<Node>, n: nat, m: string)
    requires Linked(nodes) && n < |nodes| && Lookup(signed, nodes, n, m, 0).left > 0
    ensures m != ""
  {
  }

  lemma {:induction false} ExtendsNode(nodes: seq<Node>, root: nat, paths: seq<string>, x: nat, m: string, w: string)
    requires Tree(nodes, root, paths) && EndsAt(nodes, paths, x, m) && w in Words(nodes, paths) && m <= w
    ensures Full(nodes[x], paths[x]) <= w
  {
    var y: nat :| y < |nodes| && nodes[y].terminal && Full(nodes[y], paths[y]) == w;
    RootPath(nodes, root, paths);
    AllUnderRoot(nodes, root, paths, x);
    AllUnderRoot(nodes, root, paths, y);
    hide Tree, Under;
    ThroughNode(nodes, root, paths, root, x, y, m);
    UnderFull(nodes, root, paths, x, y);
  }

  lemma {:induction false} ContinuesAlike(nodes: seq<Node>, root: nat, paths: seq<string>, x: nat, m: string)
    requires Tree(nodes, root, paths) && EndsAt(nodes, paths, x, m)
    ensures SameContinuation(Words(nodes, paths), m, |Full(nodes[x], paths[x])| - |m|)
  {
    hide Tree, Full, Words;
    var u := Full(nodes[x], paths[x]);
    forall v, w | v in Words(nodes, paths) && w in Words(nodes, paths) && m <= v && m <= w
      ensures u <= v && u <= w
    {
      ExtendsNode(nodes, root, paths, x, m, v);
      ExtendsNode(nodes, root, paths, x, m, w);
    }
  }

  lemma {:induction false} StartsWord(nodes: seq<Node>, root: nat, paths: seq<string>, x: nat, m: string)
    requires Tree(nodes, root, paths) && Used(nodes) && EndsAt(nodes, paths, x, m)
    ensures IsStart(Words(nodes, paths), m)
  {
    if |nodes| == 1 && IsTrueLeaf(nodes[0]) {
      EmptyRoot(nodes, root, paths);
    } else {
      var w := LeadsToWord(nodes, root, paths, x);
      assert m <= w;
    }
  }

  lemma {:induction false} NotPositive(signed: bool, nodes: seq<Node>, root: nat, paths: seq<string>, m: string)
    requires Tree(nodes, root, paths) && Used(nodes) && Linked(nodes)
    requires root < |nodes| == |paths| && AtNode(nodes, paths, root, m, 0)
    requires Lookup(signed, nodes, root, m, 0).left <= 0
    ensures IsStart(Words(nodes, paths), m)
    ensures SameContinuation(Words(nodes, paths), m, -Lookup(signed, nodes, root, m, 0).left)
  {
    hide Lookup, Tree, Words, Used, Linked, IsStart, SameContinuation, AtNode;
    var x := LookupSound(signed, nodes, root, paths, root, m, 0);
    assert EndsAt(nodes, paths, x, m);
    StartsWord(nodes, root, paths, x, m);
    ContinuesAlike(nodes, root, paths, x, m);
  }

  lemma {:induction false} Positive(signed: bool, nodes: seq<Node>, root: nat, paths: seq<string>, m: string)
    requires Tree(nodes, root, paths) && Used(nodes) && Linked(nodes) && Plain(signed, m)
    requires root < |nodes| == |paths| && Lookup(signed, nodes, root, m, 0).left > 0
    ensures !IsStart(Words(nodes, paths), m)
  {
    NotEmpty(signed, nodes, root, m);
    hide Lookup, Tree, Words, Used, Linked, Plain, Shared;
    LookupLeftOver(signed, nodes, root, paths, m);
    if w :| w in Words(nodes, paths) && m <= w { SharedIs(m, w, |m|); }
  }

  /** The result in terms of the words alone. */
  lemma {:induction false} LookupOfWords(signed: bool, nodes: seq<Node>, root: nat, paths: seq<string>, m: string)
    requires Tree(nodes, root, paths) && Used(nodes) && Linked(nodes) && Plain(signed, m)
    ensures var f := Lookup(signed, nodes, root, m, 0);
      && (f.left <= 0 <==> IsStart(Words(nodes, paths), m))
      && (f.left < 0 ==> SameContinuation(Words(nodes, paths), m, -f.left))
  {
    RootPath(nodes, root, paths);
    assert m[..0] == "";
    assert AtNode(nodes, paths, root, m, 0);
    hide Lookup, Tree, Words, Used, Linked, Plain, IsStart, SameContinuation;
    if Lookup(signed, nodes, root, m, 0).left <= 0 {
      NotPositive(signed, nodes, root, paths, m);
    } else {
      Positive(signed, nodes, root, paths, m);
    }
  }

  /** The text is a word, or two words go on behind it with different bytes. */
  ghost predicate Branches(words: set<string>, u: string) {
    u in words || exists v, w :: v in words && w in words && u < v && u < w && v[|u|] != w[|u|]
  }

  /** The place where the words that start with the message first branch or end. */
  ghost predicate NextBranch(words: set<string>, m: string, u: string) {
    m <= u && Branches(words, u) && forall w :: w in words && m <= w ==> u <= w
  }

  /** There is at most one such place. */
  lemma {:induction false} NextBranchUnique(words: set<string>, m: string, u: string, v: string)
    requires NextBranch(words, m, u) && NextBranch(words, m, v)
    ensures u == v
  {
    if |u| <= |v| {
      NotBefore(words, m, u, v);
    } else {
      NotBefore(words, m, v, u);
    }
  }

  lemma {:induction false} NotBefore(words: set<string>, m: string, u: string, v: string)
    requires NextBranch(words, m, u) && NextBranch(words, m, v) && |u| <= |v|
    ensures u == v
  {
    if u in words {
      assert v <= u;
    } else {
      var a, b :| a in words && b in words && u < a && u < b && a[|u|] != b[|u|];
      assert m <= a && m <= b;
      assert v <= a && v <= b;
    }
  }

  lemma TwoKeys(m: map<char, nat>) returns (a: char, b: char)
    requires |m| >= 2
    ensures a in m && b in m && a != b
  {
    a :| a in m;
    assert |m.Keys - {a}| == |m| - 1;
    b :| b in m.Keys - {a};
  }

  /** Every node is a place where words branch or end. */
  lemma {:induction false} BranchAtNode(nodes: seq<Node>, root: nat, paths: seq<string>, x: nat)
    requires Tree(nodes, root, paths) && x < |nodes|
    requires forall n :: 0 <= n < |nodes| ==> nodes[n].terminal || |nodes[n].subtree| >= 2
    ensures Branches(Words(nodes, paths), Full(nodes[x], paths[x]))
  {
    if !nodes[x].terminal {
      var a, b := TwoKeys(nodes[x].subtree);
      ChildOf(nodes, root, paths, x, a);
      ChildOf(nodes, root, paths, x, b);
      hide Tree, Words, Full;
      var v := LeadsToWord(nodes, root, paths, nodes[x].subtree[a]);
      var w := LeadsToWord(nodes, root, paths, nodes[x].subtree[b]);
      PathBefore(nodes, root, paths, nodes[x].subtree[a]);
      PathBefore(nodes, root, paths, nodes[x].subtree[b]);
      var u := Full(nodes[x], paths[x]);
      assert u + [a] <= v && u + [b] <= w;
      assert v[|u|] == a && w[|u|] == b;
    }
  }

  lemma {:induction false} PathBefore(nodes: seq<Node>, root: nat, paths: seq<string>, x: nat)
    requires Tree(nodes, root, paths) && x < |nodes|
    ensures x < |paths| && paths[x] <= Full(nodes[x], paths[x])
  {
  }

  /** A result that is not positive is, with the sign changed, the number of bytes to the
      next place where the words branch or end. */
  lemma {:induction false} LookupBranch(signed: bool, nodes: seq<Node>, root: nat, paths: seq<string>, m: string)
    returns (u: string)
    requires Tree(nodes, root, paths) && Branching(nodes) && Words(nodes, paths) != {} && Linked(nodes)
    requires root < |nodes| && Lookup(signed, nodes, root, m, 0).left <= 0
    ensures NextBranch(Words(nodes, paths), m, u) && |u| == |m| - Lookup(signed, nodes, root, m, 0).left
  {
    RootPath(nodes, root, paths);
    assert m[..0] == "";
    var x := LookupSound(signed, nodes, root, paths, root, m, 0);
    u := Full(nodes[x], paths[x]);
    NotEmptyTree(nodes, paths);
    hide Lookup, Tree, Words, Linked, Full, Branching, Branches;
    BranchAtNode(nodes, root, paths, x);
    forall w | w in Words(nodes, paths) && m <= w ensures u <= w {
      ExtendsNode(nodes, root, paths, x, m, w);
    }
  }

  lemma {:induction false} NotEmptyTree(nodes: seq<Node>, paths: seq<string>)
    requires Branching(nodes) && |nodes| == |paths| && Words(nodes, paths) != {}
    ensures forall n :: 0 <= n < |nodes| ==> nodes[n].terminal || |nodes[n].subtree| >= 2
  {
    if |nodes| == 1 && IsTrueLeaf(nodes[0]) { NoWords(nodes, paths); }
  }

  lemma {:induction false} EmptyLookup(signed: bool, nodes: seq<Node>, root: nat, paths: seq<string>, m: string)
    requires Tree(nodes, root, paths) && Linked(nodes) && |nodes| == 1 && IsTrueLeaf(nodes[0])
    ensures root == 0 && Lookup(signed, nodes, root, m, 0).left == |m|
  {
  }

  ghost function WordSet(words: seq<string>): set<string> {
    set w | w in words
  }

  /** A tree with any list of words. */
  method BuildTree(words: seq<string>) returns (t: PTree)
    ensures fresh(t) && t.Valid() && Used(t.nodes) && Branching(t.nodes)
    ensures Words(t.nodes, t.paths) == WordSet(words) && (words == [] ==> t.Empty())
  {
    hide Used, Branching, Words;
    t := new PTree();
    EmptyBranching(t.nodes);
    var i := 0;
    while i < |words|
      invariant i <= |words| && fresh(t) && t.Valid() && Used(t.nodes) && Branching(t.nodes)
      invariant Words(t.nodes, t.paths) == WordSet(words[..i]) && (i == 0 ==> t.Empty())
    {
      t.AddWord(words[i]);
      assert words[..i + 1] == words[..i] + [words[i]];
      i := i + 1;
    }
    assert words[..i] == words;
  }

  lemma EmptyBranching(nodes: seq<Node>)
    ensures |nodes| == 1 && IsTrueLeaf(nodes[0]) ==> Branching(nodes)
  {
  }

  /** The result for such a tree. */
  lemma {:induction false} LookupInWords(signed: bool, nodes: seq<Node>, root: nat, paths: seq<string>,
      words: seq<string>, m: string)
    requires Tree(nodes, root, paths) && Used(nodes) && Branching(nodes) && Plain(signed, m)
    requires |nodes| == |paths| && Words(nodes, paths) == WordSet(words)
    requires words == [] ==> |nodes| == 1 && IsTrueLeaf(nodes[0])
    ensures Linked(nodes) && root < |nodes|
    ensures var left := Lookup(signed, nodes, root, m, 0).left;
      && (left <= 0 <==> IsStart(WordSet(words), m))
      && (left < 0 ==> SameContinuation(WordSet(words), m, -left))
      && (left <= 0 && words != [] ==> exists u :: NextBranch(WordSet(words), m, u) && |u| == |m| - left)
      && (words == [] ==> left == |m|)
      && (left > 0 ==> Longest(m, WordSet(words), |m| - left))
      && (Accepted(signed, nodes, root, m) ==> left == 0)
    ensures Accepted(signed, nodes, root, m) <==> m in words
  {
    TreeLinked(nodes, root, paths);
    RootPath(nodes, root, paths);
    LookupOfWords(signed, nodes, root, paths, m);
    AcceptedIffStored(signed, nodes, root, paths, m);
    var left := Lookup(signed, nodes, root, m, 0).left;
    hide Tree, Used, Branching, Words, Linked, Lookup, Plain, IsStart, SameContinuation, Longest, NextBranch;
    if left > 0 { LookupLeftOver(signed, nodes, root, paths, m); }
    if words == [] {
      EmptyLookup(signed, nodes, root, paths, m);
    } else if left <= 0 {
      assert words[0] in WordSet(words);
      var u := LookupBranch(signed, nodes, root, paths, m);
    }
  }

  /** Build a tree from any list of words and look a message up in it: the result is not
      positive exactly if the message starts a word, and is then, with the sign changed, the
      number of bytes to the next place where these words branch or end; if it is positive,
      it is what is left behind the longest common prefix with any word. */
  method BuildAndLookup(signed: bool, words: seq<string>, m: string) returns (left: int, accepted: bool)
    requires Plain(signed, m)
    ensures accepted <==> m in words
    ensures accepted ==> left == 0
    ensures left <= 0 <==> IsStart(WordSet(words), m)
    ensures left < 0 ==> SameContinuation(WordSet(words), m, -left)
    ensures left <= 0 && words != [] ==> exists u :: NextBranch(WordSet(words), m, u) && |u| == |m| - left
    ensures words == [] ==> left == |m|
    ensures left > 0 ==> Longest(m, WordSet(words), |m| - left)
  {
    hide Used, Branching, Words, Plain, IsStart, SameContinuation, Longest, NextBranch;
    var t := BuildTree(words);
    LookupInWords(signed, t.nodes, t.root, t.paths, words, m);

    var endNode;
    left, endNode := NormalizeRec(signed, t.nodes, t.root, m, 0);
    accepted := left == 0 && endNode.Some? && endNode.value < |t.nodes| && t.nodes[endNode.value].terminal;
  }
}
