/**
 The v1 parse tree of liblognorm for literal rules: a radix tree with prefix
 compression.  Nodes split when words part inside a prefix, and every node knows
 the slot of its parent that points to it.
 */
module RadixTree {
  import opened Json

  const INLINE_SIZE: nat := 16

  /** The union `prefix`: bytes in the node itself, or a pointer to allocated memory. */
  datatype Storage = Inline(data: string) | OnHeap(buf: string)

  /** A slot `nodes[node].subtree[byte]`. */
  datatype Slot = Slot(node: nat, byte: char)

  /** struct ln_ptree, without fields and tags. */
  datatype AnyNode =
    Node(parentptr: Option<Slot>, store: Storage, lenPrefix: nat, subtree: map<char, nat>, terminal: bool)

  type Node = n: AnyNode | StorageOk(n) witness EMPTY_NODE

  const EMPTY_NODE := AnyNode.Node(None, Inline(seq(INLINE_SIZE, _ => '\0')), 0, map[], false)

  /** The size of the prefix decides which member of the union is in use. */
  predicate StorageOk(n: AnyNode) {
    if n.lenPrefix <= INLINE_SIZE then n.store.Inline? && |n.store.data| == INLINE_SIZE
    else n.store.OnHeap? && n.lenPrefix <= |n.store.buf|
  }

  /** The first `lenPrefix` bytes at prefixBase(). */
  function Prefix(n: Node): (p: string)
    ensures |p| == n.lenPrefix
  {
    if n.lenPrefix <= INLINE_SIZE then n.store.data[..n.lenPrefix] else n.store.buf[..n.lenPrefix]
  }

  predicate IsTrueLeaf(n: Node) {
    n.lenPrefix == 0 && n.subtree == map[] && !n.terminal
  }

  /** The bytes on the way to a node and its own prefix. */
  function Full(n: Node, path: string): string
  {
    path + Prefix(n)
  }

  /** `n` is well placed: its children hang where it says, and it hangs where its parent says. */
  ghost predicate Placed(nodes: seq<Node>, root: nat, paths: seq<string>, n: nat)
    requires n < |nodes| == |paths|
  {
    && (forall b :: b in nodes[n].subtree ==> Child(nodes, paths, n, b))
    && (if n == root then nodes[n].parentptr == None && paths[n] == "" else Hangs(nodes, n))
  }

  /** The child at `b` is reached by the prefix and that byte, and points back to the slot. */
  ghost predicate Child(nodes: seq<Node>, paths: seq<string>, n: nat, b: char)
    requires n < |nodes| == |paths| && b in nodes[n].subtree
  {
    var c := nodes[n].subtree[b];
    c < |nodes| && nodes[c].parentptr == Some(Slot(n, b)) && paths[c] == Full(nodes[n], paths[n]) + [b]
  }

  /** The parent pointer addresses the slot that holds the node. */
  ghost predicate Hangs(nodes: seq<Node>, n: nat)
    requires n < |nodes|
  {
    nodes[n].parentptr.Some? &&
    var s := nodes[n].parentptr.value;
    s.node < |nodes| && s.byte in nodes[s.node].subtree && nodes[s.node].subtree[s.byte] == n
  }

  ghost predicate Tree(nodes: seq<Node>, root: nat, paths: seq<string>) {
    root < |nodes| == |paths| && forall n: nat :: n < |nodes| ==> Placed(nodes, root, paths, n)
  }

  /** The stored words. */
  ghost function Words(nodes: seq<Node>, paths: seq<string>): set<string>
    requires |nodes| == |paths|
  {
    set n | 0 <= n < |nodes| && nodes[n].terminal :: Full(nodes[n], paths[n])
  }

  /** Every node stores a word or leads to others, except in a tree that is still empty. */
  ghost predicate Used(nodes: seq<Node>) {
    (|nodes| == 1 && IsTrueLeaf(nodes[0])) ||
    forall n :: 0 <= n < |nodes| ==> nodes[n].terminal || nodes[n].subtree != map[]
  }

  /** Every node but `r` stores a word or has at least two children. */
  ghost predicate BranchingBut(nodes: seq<Node>, r: nat) {
    forall n :: 0 <= n < |nodes| && n != r ==> nodes[n].terminal || |nodes[n].subtree| >= 2
  }

  /** No node is on the way for nothing, except in a tree that is still empty. */
  ghost predicate Branching(nodes: seq<Node>) {
    (|nodes| == 1 && IsTrueLeaf(nodes[0])) ||
    forall n :: 0 <= n < |nodes| ==> nodes[n].terminal || |nodes[n].subtree| >= 2
  }

  /** setPrefix: always copies from the beginning of the buffer. */
  function StoredPrefix(buf: string, offs: nat): string
    requires offs <= |buf|
  {
    buf[..|buf| - offs]
  }

  /** The copy is the rest of the buffer exactly if the buffer repeats itself after
      `offs` bytes; for every caller that means `offs` is 0. */
  lemma StoredPrefixRight(buf: string, offs: nat)
    requires offs <= |buf|
    ensures StoredPrefix(buf, offs) == buf[offs..] <==> forall k :: 0 <= k < |buf| - offs ==> buf[k] == buf[k + offs]
  {
  }

  /** For buffers of length `n` the copy is always right exactly if `offs` is 0 or all of
      them; otherwise a single different first byte shows the fault. */
  lemma StoredPrefixAlways(n: nat, offs: nat)
    requires offs <= n
    ensures (forall buf: string :: |buf| == n ==> StoredPrefix(buf, offs) == buf[offs..]) <==> offs == 0 || offs == n
    ensures 0 < offs < n ==> var buf := "b" + seq(n - 1, _ => 'a'); StoredPrefix(buf, offs) != buf[offs..]
  {
    if 0 < offs < n {
      var buf := "b" + seq(n - 1, _ => 'a');
      assert |buf| == n && StoredPrefix(buf, offs)[0] == 'b' && buf[offs..][0] == buf[offs] == 'a';
    }
  }

  // ----- the two ways in which the tree grows -----

  /** A fresh copy of a prefix. */
  function Store(p: string): (st: Storage)
    ensures forall parent, sub, term {:trigger Node(parent, st, |p|, sub, term)} ::
      StorageOk(Node(parent, st, |p|, sub, term)) && Prefix(Node(parent, st, |p|, sub, term)) == p
  {
    if |p| <= INLINE_SIZE then
      var data := p + seq(INLINE_SIZE - |p|, _ => '\0');
      assert data[..|p|] == p;
      Inline(data)
    else
      assert p[..|p|] == p;
      OnHeap(p)
  }

  /** What is left of a prefix after the first `k + 1` bytes were cut off: it may move
      from allocated memory into the node. */
  function Cut(n: Node, k: nat): (r: Node)
    requires k < n.lenPrefix
  {
    var len := n.lenPrefix - k - 1;
    var p := Prefix(n)[k + 1..];
    var store :=
      if n.lenPrefix <= INLINE_SIZE then Inline(p + n.store.data[len..]) // memmove
      else if len <= INLINE_SIZE then Inline(p + seq(INLINE_SIZE - len, _ => '\0')) // memcpy into the node
      else OnHeap(p + n.store.buf[len..]); // memmove
    n.(store := store, lenPrefix := len)
  }

  /** A node is put in front of `t`; it takes the first `k` bytes of its prefix. */
  function Split(nodes: seq<Node>, t: nat, k: nat): seq<Node>
    requires t < |nodes| && k < nodes[t].lenPrefix
  {
    var r, p := |nodes|, Prefix(nodes[t]);
    var cut := Cut(nodes[t], k).(parentptr := Some(Slot(r, p[k])));
    var front := Node(nodes[t].parentptr, Store(p[..k]), k, map[p[k] := t], false);
    var split := nodes[t := cut] + [front];
    if nodes[t].parentptr.None? || nodes[t].parentptr.value.node >= |nodes| then split else
    var up := nodes[t].parentptr.value;
    split[up.node := split[up.node].(subtree := split[up.node].subtree[up.byte := r])]
  }

  function SplitPaths(nodes: seq<Node>, paths: seq<string>, t: nat, k: nat): seq<string>
    requires t < |nodes| == |paths| && k < nodes[t].lenPrefix
  {
    paths[t := paths[t] + Prefix(nodes[t])[..k] + [Prefix(nodes[t])[k]]] + [paths[t]]
  }

  lemma {:induction false} CutPrefix(n: Node, k: nat)
    requires k < n.lenPrefix
    ensures Prefix(Cut(n, k)) == Prefix(n)[k + 1..]
    ensures Cut(n, k).subtree == n.subtree && Cut(n, k).terminal == n.terminal
    ensures Prefix(n) == Prefix(n)[..k] + [Prefix(n)[k]] + Prefix(n)[k + 1..]
  {
  }

  /** No node is its own parent. */
  lemma {:induction false} ParentIsOther(nodes: seq<Node>, root: nat, paths: seq<string>, t: nat)
    requires Tree(nodes, root, paths) && t < |nodes| && nodes[t].parentptr.Some?
    ensures var up := nodes[t].parentptr.value;
      && up.node < |nodes| && up.node != t && up.byte in nodes[up.node].subtree && nodes[up.node].subtree[up.byte] == t
      && paths[t] == Full(nodes[up.node], paths[up.node]) + [up.byte]
  {
    assert Placed(nodes, root, paths, t);
    var up := nodes[t].parentptr.value;
    assert Placed(nodes, root, paths, up.node);
    assert Child(nodes, paths, up.node, up.byte);
    assert |paths[t]| > |paths[up.node]|;
  }

  /** A node of the tree after a split: only `t` and its parent are written to. */
  lemma {:induction false} SplitNode(nodes: seq<Node>, root: nat, paths: seq<string>, t: nat, k: nat, n: nat)
    requires Tree(nodes, root, paths) && t < |nodes| && k < nodes[t].lenPrefix && n < |nodes|
    ensures var nodes1 := Split(nodes, t, k);
      && (n == t ==> Prefix(nodes1[n]) == Prefix(nodes[n])[k + 1..])
      && (n != t ==> Prefix(nodes1[n]) == Prefix(nodes[n]))
      && nodes1[n].terminal == nodes[n].terminal && nodes1[n].subtree.Keys == nodes[n].subtree.Keys
  {
    hide Cut, Store, Placed, Full;
    CutPrefix(nodes[t], k);
    if nodes[t].parentptr.Some? {
      ParentIsOther(nodes, root, paths, t);
      var up := nodes[t].parentptr.value;
      assert nodes[up.node].subtree.Keys + {up.byte} == nodes[up.node].subtree.Keys;
    }
  }

  lemma {:induction false} SplitFull(nodes: seq<Node>, root: nat, paths: seq<string>, t: nat, k: nat, n: nat)
    requires Tree(nodes, root, paths) && t < |nodes| && k < nodes[t].lenPrefix && n < |nodes|
    ensures var nodes1, paths1 := Split(nodes, t, k), SplitPaths(nodes, paths, t, k);
      && Full(nodes1[n], paths1[n]) == Full(nodes[n], paths[n])
      && nodes1[n].terminal == nodes[n].terminal && nodes1[n].subtree.Keys == nodes[n].subtree.Keys
  {
    SplitNode(nodes, root, paths, t, k, n);
    CutPrefix(nodes[t], k);
    hide Split, Prefix, Placed, Tree;
    if n == t {
      var p := Prefix(nodes[t]);
      assert paths[t] + p[..k] + [p[k]] + p[k + 1..] == paths[t] + (p[..k] + [p[k]] + p[k + 1..]);
    }
  }

  lemma {:induction false} SplitChild(nodes: seq<Node>, root: nat, paths: seq<string>, t: nat, k: nat, n: nat, b: char)
    requires Tree(nodes, root, paths) && t < |nodes| && k < nodes[t].lenPrefix && n < |nodes|
    requires b in Split(nodes, t, k)[n].subtree
    ensures Child(Split(nodes, t, k), SplitPaths(nodes, paths, t, k), n, b)
  {
    SplitFull(nodes, root, paths, t, k, n);
    assert Placed(nodes, root, paths, t) && Placed(nodes, root, paths, n);
    if nodes[t].parentptr.Some? {
      ParentIsOther(nodes, root, paths, t);
    }
    assert Child(nodes, paths, n, b);
    hide Full, Placed, Tree, Cut, Store;
    CutPrefix(nodes[t], k);
  }

  lemma {:induction false} SplitHangs(nodes: seq<Node>, root: nat, paths: seq<string>, t: nat, k: nat, n: nat)
    requires Tree(nodes, root, paths) && t < |nodes| && k < nodes[t].lenPrefix && n < |nodes|
    ensures var nodes1 := Split(nodes, t, k);
      if n == root && n != t then nodes1[n].parentptr == None && SplitPaths(nodes, paths, t, k)[n] == ""
      else Hangs(nodes1, n)
  {
    SplitFull(nodes, root, paths, t, k, n);
    assert Placed(nodes, root, paths, n) && Placed(nodes, root, paths, t);
    if n != root {
      ParentIsOther(nodes, root, paths, n);
    }
    if t != root {
      ParentIsOther(nodes, root, paths, t);
    }
    hide Full, Placed, Tree, Store, Cut;
    CutPrefix(nodes[t], k);
  }

  lemma {:induction false} SplitPlaced(nodes: seq<Node>, root: nat, paths: seq<string>, t: nat, k: nat, n: nat)
    requires Tree(nodes, root, paths) && t < |nodes| && k < nodes[t].lenPrefix && n < |nodes|
    ensures Placed(Split(nodes, t, k), if t == root then |nodes| else root, SplitPaths(nodes, paths, t, k), n)
  {
    SplitHangs(nodes, root, paths, t, k, n);
    var nodes1, paths1 := Split(nodes, t, k), SplitPaths(nodes, paths, t, k);
    hide Split, SplitPaths, Child, Hangs;
    forall b | b in nodes1[n].subtree
      ensures Child(nodes1, paths1, n, b)
    {
      SplitChild(nodes, root, paths, t, k, n, b);
    }
  }

  lemma {:induction false} SplitFront(nodes: seq<Node>, root: nat, paths: seq<string>, t: nat, k: nat)
    requires Tree(nodes, root, paths) && t < |nodes| && k < nodes[t].lenPrefix
    ensures var nodes1, paths1, r := Split(nodes, t, k), SplitPaths(nodes, paths, t, k), |nodes|;
      && Placed(nodes1, if t == root then |nodes| else root, paths1, r)
      && Full(nodes1[r], paths1[r]) == paths[t] + Prefix(nodes[t])[..k]
      && nodes1[r].subtree == map[Prefix(nodes[t])[k] := t] && !nodes1[r].terminal
  {
    assert Placed(nodes, root, paths, t);
    CutPrefix(nodes[t], k);
    var p, r := Prefix(nodes[t]), |nodes|;
    var front := Node(nodes[t].parentptr, Store(p[..k]), k, map[p[k] := t], false);
    assert front == Node(nodes[t].parentptr, Store(p[..k]), |p[..k]|, map[p[k] := t], false);
    if nodes[t].parentptr.Some? {
      ParentIsOther(nodes, root, paths, t);
    }
    assert Split(nodes, t, k)[r] == front;
    assert Child(Split(nodes, t, k), SplitPaths(nodes, paths, t, k), r, p[k]);
  }

  /** A split keeps the tree and everybody's text. */
  lemma {:induction false} SplitTreeOk(nodes: seq<Node>, root: nat, paths: seq<string>, t: nat, k: nat)
    requires Tree(nodes, root, paths) && t < |nodes| && k < nodes[t].lenPrefix
    ensures Tree(Split(nodes, t, k), if t == root then |nodes| else root, SplitPaths(nodes, paths, t, k))
  {
    hide Placed, Split, SplitPaths;
    SplitSizes(nodes, root, paths, t, k);
    var root1 := if t == root then |nodes| else root;
    forall n: nat | n < |nodes| + 1
      ensures Placed(Split(nodes, t, k), root1, SplitPaths(nodes, paths, t, k), n)
    {
      if n < |nodes| {
        SplitPlaced(nodes, root, paths, t, k, n);
      } else {
        SplitFront(nodes, root, paths, t, k);
      }
    }
  }

  lemma {:induction false} SplitSizes(nodes: seq<Node>, root: nat, paths: seq<string>, t: nat, k: nat)
    requires Tree(nodes, root, paths) && t < |nodes| && k < nodes[t].lenPrefix
    ensures |nodes| == |paths| && |Split(nodes, t, k)| == |SplitPaths(nodes, paths, t, k)| == |nodes| + 1
  {
  }

  /** A new leaf in an empty slot of `t`. */
  function AddLeaf(nodes: seq<Node>, t: nat, b: char, rest: string): seq<Node>
    requires t < |nodes|
  {
    var leaf := Node(Some(Slot(t, b)), Store(rest), |rest|, map[], false);
    nodes[t := nodes[t].(subtree := nodes[t].subtree[b := |nodes|])] + [leaf]
  }

  lemma {:induction false} AddLeafOk(nodes: seq<Node>, root: nat, paths: seq<string>, t: nat, b: char, rest: string)
    requires Tree(nodes, root, paths) && t < |nodes| && b !in nodes[t].subtree
    ensures var nodes1, paths1 := AddLeaf(nodes, t, b, rest), paths + [Full(nodes[t], paths[t]) + [b]];
      && Tree(nodes1, root, paths1) && Full(nodes1[|nodes|], paths1[|nodes|]) == Full(nodes[t], paths[t]) + [b] + rest
      && forall n :: 0 <= n < |nodes| ==> Full(nodes1[n], paths1[n]) == Full(nodes[n], paths[n])
  {
    var nodes1, paths1 := AddLeaf(nodes, t, b, rest), paths + [Full(nodes[t], paths[t]) + [b]];
    forall n: nat | n < |nodes1|
      ensures Placed(nodes1, root, paths1, n)
    {
      if n < |nodes| {
        assert Placed(nodes, root, paths, n);
        assert nodes1[n].lenPrefix == nodes[n].lenPrefix && nodes1[n].store == nodes[n].store;
        forall c | c in nodes1[n].subtree
          ensures Child(nodes1, paths1, n, c)
        {
          assert n != t || c != b ==> Child(nodes, paths, n, c);
        }
      }
    }
  }

  /** Nobody's text changes, and what is new is not a word yet. */
  ghost predicate Kept(nodes: seq<Node>, paths: seq<string>, nodes1: seq<Node>, paths1: seq<string>) {
    && |nodes| == |paths| <= |nodes1| == |paths1|
    && (forall n :: 0 <= n < |nodes| ==> Full(nodes1[n], paths1[n]) == Full(nodes[n], paths[n]))
    && (forall n :: 0 <= n < |nodes| ==> nodes1[n].terminal == nodes[n].terminal)
    && (forall n :: 0 <= n < |nodes| && nodes[n].subtree != map[] ==> nodes1[n].subtree != map[])
    && (forall n :: |nodes| <= n < |nodes1| ==> !nodes1[n].terminal)
  }

  /** Every node but `r` stores a word or leads to others. */
  ghost predicate UsedBut(nodes: seq<Node>, r: nat) {
    forall n :: 0 <= n < |nodes| && n != r ==> nodes[n].terminal || nodes[n].subtree != map[]
  }

  lemma {:induction false} SplitKept(nodes: seq<Node>, root: nat, paths: seq<string>, t: nat, k: nat)
    requires Tree(nodes, root, paths) && t < |nodes| && k < nodes[t].lenPrefix
    ensures Kept(nodes, paths, Split(nodes, t, k), SplitPaths(nodes, paths, t, k))
  {
    hide Split, SplitPaths, Full, Tree, Placed;
    SplitSizes(nodes, root, paths, t, k);
    SplitFront(nodes, root, paths, t, k);
    forall n | 0 <= n < |nodes|
      ensures Full(Split(nodes, t, k)[n], SplitPaths(nodes, paths, t, k)[n]) == Full(nodes[n], paths[n])
      ensures Split(nodes, t, k)[n].terminal == nodes[n].terminal
      ensures nodes[n].subtree != map[] ==> Split(nodes, t, k)[n].subtree != map[]
    {
      SplitFull(nodes, root, paths, t, k, n);
      EmptyKeys(nodes[n].subtree);
      EmptyKeys(Split(nodes, t, k)[n].subtree);
    }
  }

  lemma {:induction false} EmptyKeys(m: map<char, nat>)
    ensures m == map[] <==> m.Keys == {}
  {
  }

  lemma {:induction false} KeptWords(nodes: seq<Node>, paths: seq<string>, nodes1: seq<Node>, paths1: seq<string>)
    requires Kept(nodes, paths, nodes1, paths1)
    ensures Words(nodes1, paths1) == Words(nodes, paths)
  {
  }

  /** After a split only the node in front may have a single child. */
  lemma {:induction false} SplitBranching(nodes: seq<Node>, root: nat, paths: seq<string>, t: nat, k: nat)
    requires Tree(nodes, root, paths) && t < |nodes| && k < nodes[t].lenPrefix && Branching(nodes)
    ensures BranchingBut(Split(nodes, t, k), |nodes|)
  {
    var r := Split(nodes, t, k);
    SplitSizes(nodes, root, paths, t, k);
    hide Split, Tree;
    forall n | 0 <= n < |nodes| ensures r[n].terminal || |r[n].subtree| >= 2 {
      SplitFull(nodes, root, paths, t, k, n);
      assert |r[n].subtree| == |r[n].subtree.Keys| && |nodes[n].subtree| == |nodes[n].subtree.Keys|;
    }
  }

  lemma {:induction false} AddLeafBranching(nodes: seq<Node>, t: nat, b: char, rest: string)
    requires t < |nodes| && b !in nodes[t].subtree
    requires BranchingBut(nodes, t) && (nodes[t].terminal || nodes[t].subtree != map[])
    ensures BranchingBut(AddLeaf(nodes, t, b, rest), |nodes|)
  {
    var m := nodes[t].subtree;
    assert m != map[] ==> |m| >= 1;
    assert |m[b := |nodes|]| == |m| + 1;
  }

  /** The only node without word and children is the root of the empty tree. */
  lemma {:induction false} SoleRoot(nodes: seq<Node>, root: nat, paths: seq<string>, t: nat)
    requires Tree(nodes, root, paths) && Used(nodes) && t < |nodes|
    ensures IsTrueLeaf(nodes[t]) ==> |nodes| == 1 && t == root == 0 && Full(nodes[t], paths[t]) == ""
  {
    assert Placed(nodes, root, paths, t);
  }

  lemma {:induction false} NoWords(nodes: seq<Node>, paths: seq<string>)
    requires |nodes| == |paths| && forall n :: 0 <= n < |nodes| ==> !nodes[n].terminal
    ensures Words(nodes, paths) == {}
  {
  }

  lemma {:induction false} ChildOf(nodes: seq<Node>, root: nat, paths: seq<string>, n: nat, b: char)
    requires Tree(nodes, root, paths) && n < |nodes| && b in nodes[n].subtree
    ensures nodes[n].subtree[b] < |nodes| && paths[nodes[n].subtree[b]] == Full(nodes[n], paths[n]) + [b]
    ensures nodes[nodes[n].subtree[b]].parentptr == Some(Slot(n, b))
  {
    assert Placed(nodes, root, paths, n);
    assert Child(nodes, paths, n, b);
  }

  class PTree {
    var nodes: seq<Node>
    var root: nat
    ghost var paths: seq<string>

    ghost predicate Valid()
      reads this
    {
      Tree(nodes, root, paths)
    }

    /** Only the root, without a prefix and without a word. */
    ghost predicate Empty()
      reads this
    {
      |nodes| == 1 && IsTrueLeaf(nodes[0])
    }

    constructor ()
      ensures Valid() && Used(nodes) && Words(nodes, paths) == {} && Empty()
    {
      nodes, root, paths := [EMPTY_NODE], 0, [""];
    }

    /** splitTree */
    method SplitTree(tree: nat, offs: nat) returns (r: nat)
      requires Valid() && tree < |nodes| && offs < nodes[tree].lenPrefix
      modifies this
      ensures r == |old(nodes)| && nodes == Split(old(nodes), tree, offs)
      ensures paths == SplitPaths(old(nodes), old(paths), tree, offs)
      ensures root == if tree == old(root) then r else old(root)
      ensures Valid()
    {
      SplitTreeOk(nodes, root, paths, tree, offs);
      RootHasNoParent(nodes, root, paths, tree);
      ghost var before := nodes;
      r := |nodes|;
      var node := nodes[tree];
      var c := Prefix(node);
      var front: Node := Node(node.parentptr, Store(c[..offs]), offs, map[c[offs] := tree], false);
      nodes := nodes + [front];
      var newlen := node.lenPrefix - offs - 1;
      var store := node.store;
      if node.lenPrefix > INLINE_SIZE && newlen <= INLINE_SIZE {
        store := Inline(c[offs + 1..] + seq(INLINE_SIZE - newlen, _ => '\0'));
      } else if node.lenPrefix > INLINE_SIZE {
        store := OnHeap(c[offs + 1..] + store.buf[newlen..]);
      } else {
        store := Inline(c[offs + 1..] + store.data[newlen..]);
      }
      if node.parentptr == None {
        root := r;
      } else {
        var up := node.parentptr.value;
        nodes := nodes[up.node := nodes[up.node].(subtree := nodes[up.node].subtree[up.byte := r])];
      }
      nodes := nodes[tree := nodes[tree].(store := store, lenPrefix := newlen, parentptr := Some(Slot(r, c[offs])))];
      paths := SplitPaths(before, paths, tree, offs);
      assert nodes == Split(before, tree, offs);
    }

    /** The empty tree takes its first word as the prefix of the root. */
    method FillRoot(str: string, offs: nat)
      requires Valid() && |nodes| == 1 && IsTrueLeaf(nodes[0]) && offs == 0
      modifies this
      ensures Valid() && |nodes| == 1 && Full(nodes[0], paths[0]) == str && UsedBut(nodes, 0)
      ensures Words(nodes, paths) == old(Words(nodes, paths))
    {
      hide Tree, Store, Full, Words;
      var p := StoredPrefix(str, offs);
      assert p == str;
      RootFilled(nodes, root, paths, p);
      NoWords(nodes, paths);
      nodes := nodes[0 := nodes[0].(store := Store(p), lenPrefix := |p|)];
      assert nodes == [nodes[0]];
      NoWords(nodes, paths);
    }

    /** ln_addPTree; the slot for `str[offs]` is empty. */
    method AddPTree(tree: nat, str: string, offs: nat) returns (r: nat)
      requires Valid() && tree < |nodes| && offs < |str| && str[offs] !in nodes[tree].subtree
      requires Full(nodes[tree], paths[tree]) == str[..offs]
      requires Used(nodes)
      modifies this
      ensures Valid() && r < |nodes| && Full(nodes[r], paths[r]) == str && UsedBut(nodes, r)
      ensures Words(nodes, paths) == old(Words(nodes, paths))
      ensures old(Empty()) ==> |nodes| == 1
      ensures old(Branching(nodes) || (BranchingBut(nodes, tree) && nodes[tree].subtree != map[])) ==>
        BranchingBut(nodes, r)
    {
      ghost var h, ps := nodes, paths;
      SoleRoot(nodes, root, paths, tree);
      hide Tree, Store, Full, Words;
      if IsTrueLeaf(nodes[tree]) {
        FillRoot(str, offs);
        return tree;
      }
      AddLeafOk(nodes, root, paths, tree, str[offs], str[offs + 1..]);
      if BranchingBut(nodes, tree) { AddLeafBranching(nodes, tree, str[offs], str[offs + 1..]); }
      assert str == str[..offs] + [str[offs]] + str[offs + 1..];
      r := |nodes|;
      ghost var path := Full(nodes[tree], paths[tree]) + [str[offs]];
      nodes := AddLeaf(nodes, tree, str[offs], str[offs + 1..]);
      paths := paths + [path];
      assert nodes[tree].subtree[str[offs]] == r;
      KeptWords(h, ps, nodes, paths);
    }

    /** A split as its caller sees it. */
    method SplitHere(tree: nat, offs: nat) returns (r: nat)
      requires Valid() && Used(nodes) && tree < |nodes| && offs < nodes[tree].lenPrefix
      modifies this
      ensures Valid() && Used(nodes) && r < |nodes|
      ensures Full(nodes[r], paths[r]) == old(paths[tree] + Prefix(nodes[tree])[..offs])
      ensures nodes[r].subtree == map[old(Prefix(nodes[tree]))[offs] := tree]
      ensures old(Branching(nodes)) ==> BranchingBut(nodes, r)
      ensures Words(nodes, paths) == old(Words(nodes, paths))
    {
      hide Tree, Split, SplitPaths, Words, Full, Prefix;
      SplitSizes(nodes, root, paths, tree, offs);
      SplitFront(nodes, root, paths, tree, offs);
      SplitKept(nodes, root, paths, tree, offs);
      if Branching(nodes) { SplitBranching(nodes, root, paths, tree, offs); }
      KeptWords(nodes, paths, Split(nodes, tree, offs), SplitPaths(nodes, paths, tree, offs));
      r := SplitTree(tree, offs);
      assert old(Prefix(nodes[tree]))[offs] in nodes[r].subtree;
      assert forall n :: 0 <= n < |nodes| ==> nodes[n].terminal || nodes[n].subtree != map[];
    }

    /** ln_buildPTree: go down as far as the word agrees with the tree, and add what is missing. */
    method BuildPTree(tree: nat, str: string, offs: nat) returns (r: nat)
      requires Valid() && Used(nodes) && tree < |nodes| && offs <= |str| && paths[tree] == str[..offs]
      modifies this
      ensures Valid() && r < |nodes| && Full(nodes[r], paths[r]) == str
      ensures UsedBut(nodes, r) && Words(nodes, paths) == old(Words(nodes, paths))
      ensures old(Empty()) ==> |nodes| == 1
      ensures old(Branching(nodes)) ==> BranchingBut(nodes, r)
      decreases |str| - offs
    {
      hide Tree, Split, SplitPaths, Words, AddLeaf;
      var cpfix := Prefix(nodes[tree]);
      var i, ipfix := offs, 0;
      while i < |str| && ipfix < |cpfix| && str[i] == cpfix[ipfix]
        invariant i == offs + ipfix <= |str| && ipfix <= |cpfix|
        invariant str[offs..i] == cpfix[..ipfix]
      {
        assert str[offs..i + 1] == str[offs..i] + [str[i]];
        assert cpfix[..ipfix + 1] == cpfix[..ipfix] + [cpfix[ipfix]];
        i, ipfix := i + 1, ipfix + 1;
      }
      assert str[..i] == str[..offs] + cpfix[..ipfix];
      if i == |str| {
        assert str[..i] == str;
        if ipfix == |cpfix| {
          r := tree;
        } else {
          r := SplitHere(tree, ipfix);
        }
      } else if ipfix < |cpfix| {
        var front := SplitHere(tree, ipfix);
        r := AddPTree(front, str, i);
      } else if str[i] !in nodes[tree].subtree {
        r := AddPTree(tree, str, i);
      } else {
        ChildOf(nodes, root, paths, tree, str[i]);
        assert str[..i + 1] == str[..i] + [str[i]];
        r := BuildPTree(nodes[tree].subtree[str[i]], str, i + 1);
      }
    }

    /** Adding a literal rule: build its path and make the last node terminal. */
    method AddWord(word: string)
      requires Valid() && Used(nodes)
      modifies this
      ensures Valid() && Used(nodes) && Words(nodes, paths) == old(Words(nodes, paths)) + {word}
      ensures old(Empty()) ==> |nodes| == 1
      ensures old(Branching(nodes)) ==> Branching(nodes)
    {
      assert paths[root] == "" by {
        assert Placed(nodes, root, paths, root);
      }
      var r := BuildPTree(root, word, 0);
      MarkedTree(nodes, root, paths, r);
      nodes := nodes[r := nodes[r].(terminal := true)];
    }
  }

  lemma {:induction false} RootHasNoParent(nodes: seq<Node>, root: nat, paths: seq<string>, t: nat)
    requires Tree(nodes, root, paths) && t < |nodes|
    ensures nodes[t].parentptr == None <==> t == root
    ensures nodes[t].parentptr.Some? ==> nodes[t].parentptr.value.node < |nodes| && nodes[t].parentptr.value.node != t
  {
    assert Placed(nodes, root, paths, t);
    if t != root {
      ParentIsOther(nodes, root, paths, t);
    }
  }

  lemma {:induction false} RootFilled(nodes: seq<Node>, root: nat, paths: seq<string>, p: string)
    requires Tree(nodes, root, paths) && |nodes| == 1 && IsTrueLeaf(nodes[0])
    ensures root == 0 && StorageOk(nodes[0].(store := Store(p), lenPrefix := |p|))
    ensures var n: Node := nodes[0].(store := Store(p), lenPrefix := |p|); Tree([n], 0, paths) && Full(n, paths[0]) == p
  {
    assert Placed(nodes, root, paths, 0);
    var m := nodes[0];
    var n: AnyNode := m.(store := Store(p), lenPrefix := |p|);
    assert n == AnyNode.Node(m.parentptr, Store(p), |p|, m.subtree, m.terminal);
    assert Placed([n], 0, paths, 0);
  }

  lemma {:induction false} MarkedTree(nodes: seq<Node>, root: nat, paths: seq<string>, r: nat)
    requires Tree(nodes, root, paths) && r < |nodes|
    ensures var nodes1: seq<Node> := nodes[r := nodes[r].(terminal := true)];
      Tree(nodes1, root, paths) && Words(nodes1, paths) == Words(nodes, paths) + {Full(nodes[r], paths[r])}
  {
    var nodes1: seq<Node> := nodes[r := nodes[r].(terminal := true)];
    forall n: nat | n < |nodes|
      ensures Placed(nodes1, root, paths, n) && Full(nodes1[n], paths[n]) == Full(nodes[n], paths[n])
    {
      assert Placed(nodes, root, paths, n);
      forall b | b in nodes1[n].subtree
        ensures Child(nodes1, paths, n, b)
      {
        assert Child(nodes, paths, n, b);
      }
    }
    forall w
      ensures w in Words(nodes1, paths) <==> w in Words(nodes, paths) || w == Full(nodes[r], paths[r])
    {
      if w in Words(nodes1, paths) {
        var n :| 0 <= n < |nodes| && nodes1[n].terminal && Full(nodes1[n], paths[n]) == w;
        assert n != r ==> nodes[n].terminal && Full(nodes[n], paths[n]) == w;
      }
      if w in Words(nodes, paths) {
        var n :| 0 <= n < |nodes| && nodes[n].terminal && Full(nodes[n], paths[n]) == w;
        assert nodes1[n].terminal && Full(nodes1[n], paths[n]) == w;
      }
      assert nodes1[r].terminal && Full(nodes1[r], paths[r]) == Full(nodes[r], paths[r]);
    }
  }
}
