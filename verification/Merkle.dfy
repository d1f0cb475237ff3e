/**
 The complete binary tree of ts/src/tree.ts: the level-by-level fold, the sibling path and the walk
 back up, each against one top-down definition of the tree's nodes.
 */
module Merkle {
  import opened Arith
  import opened Bytes
  import opened Preimages
  import opened Crypto

  function InternalNode(left: Digest, right: Digest): Digest {
    HashOf(Node(left, right))
  }

  predicate InTree(leaves: seq<Digest>, height: nat, level: nat, index: nat) {
    |leaves| == Pow2(height) && level <= height && index < Pow2(height - level)
  }

  /** The node at a level and an index, level 0 being the leaves: the reference definition. */
  function NodeAt(leaves: seq<Digest>, height: nat, level: nat, index: nat): Digest
    requires InTree(leaves, height, level, index)
    decreases level
  {
    if level == 0 then leaves[index]
    else InternalNode(NodeAt(leaves, height, level - 1, 2 * index), NodeAt(leaves, height, level - 1, 2 * index + 1))
  }

  // The fold

  predicate IsLevel(leaves: seq<Digest>, height: nat, level: nat, nodes: seq<Digest>)
    requires |leaves| == Pow2(height) && level <= height
  {
    |nodes| == Pow2(height - level)
    && forall i :: 0 <= i < |nodes| ==> (nodes[i] == NodeAt(leaves, height, level, i))
  }

  method NextLevel(level: seq<Digest>) returns (next: seq<Digest>)
    requires |level| % 2 == 0
    ensures |next| == |level| / 2
    ensures forall i :: 0 <= i < |next| ==> next[i] == InternalNode(level[2 * i], level[2 * i + 1])
  {
    next := [];
    var i := 0;
    while i < |level|
      invariant i % 2 == 0 && 0 <= i <= |level| && |next| == i / 2
      invariant forall k :: 0 <= k < |next| ==> next[k] == InternalNode(level[2 * k], level[2 * k + 1])
    {
      next := next + [InternalNode(level[i], level[i + 1])];
      i := i + 2;
    }
  }

  lemma LevelAbove(leaves: seq<Digest>, height: nat, level: nat, nodes: seq<Digest>, next: seq<Digest>)
    requires |leaves| == Pow2(height) && level < height && IsLevel(leaves, height, level, nodes)
    requires |next| == |nodes| / 2
    requires forall i :: 0 <= i < |next| ==> next[i] == InternalNode(nodes[2 * i], nodes[2 * i + 1])
    ensures IsLevel(leaves, height, level + 1, next)
  {
    forall i | 0 <= i < |next|
      ensures (next[i] == NodeAt(leaves, height, level + 1, i))
    {
    }
  }

  function Root(leaves: seq<Digest>, height: nat): Digest
    requires |leaves| == Pow2(height)
  {
    NodeAt(leaves, height, height, 0)
  }

  lemma FirstLevel(leaves: seq<Digest>, height: nat)
    requires |leaves| == Pow2(height)
    ensures IsLevel(leaves, height, 0, leaves)
  {
    hide HashOf;
  }

  /** A level of one node is the top; any other is twice as wide as the next. */
  lemma LevelSize(n: nat)
    ensures Pow2(n) == 1 <==> n == 0
    ensures n > 0 ==> Pow2(n) == 2 * Pow2(n - 1)
  {
  }

  /** Folding the levels one after the other arrives at the top of the tree. */
  method RootOf(leaves: seq<Digest>, ghost height: nat) returns (root: Digest)
    requires |leaves| == Pow2(height)
    ensures root == Root(leaves, height)
  {
    hide HashOf, NodeAt;
    FirstLevel(leaves, height);
    var level := leaves;
    ghost var l := 0;
    while |level| > 1
      invariant l <= height && IsLevel(leaves, height, l, level)
      decreases height - l
    {
      LevelSize(height - l);
      var next := NextLevel(level);
      LevelAbove(leaves, height, l, level, next);
      level, l := next, l + 1;
    }
    LevelSize(height - l);
    root := level[0];
  }

  // The path

  /** The index of the node above a slot at a level: the slot halved that many times. */
  function Ancestor(slot: nat, level: nat): nat {
    if level == 0 then slot else Ancestor(slot, level - 1) / 2
  }

  /** Halving step by step is the verifier's shift, and its low bit is the one the verifier tests. */
  lemma {:induction false} AncestorIsShift(slot: nat, level: nat)
    ensures Ancestor(slot, level) == Shr(slot, level)
    ensures And(Shr(slot, level), 1) == Ancestor(slot, level) % 2
  {
    if level > 0 {
      AncestorIsShift(slot, level - 1);
      DivDiv(slot, Pow2(level - 1), 2);
    }
    AndMask(Shr(slot, level), 1);
  }

  lemma {:induction false} AncestorInRange(slot: nat, height: nat, level: nat)
    requires slot < Pow2(height) && level <= height
    ensures Ancestor(slot, level) < Pow2(height - level)
  {
    if level > 0 { AncestorInRange(slot, height, level - 1); }
  }

  function SiblingOf(index: nat): nat {
    if index % 2 == 0 then index + 1 else index - 1
  }

  /** The node beside the one on the way from a slot to the root. */
  function NodeBeside(leaves: seq<Digest>, height: nat, slot: nat, level: nat): Digest
    requires |leaves| == Pow2(height) && slot < |leaves| && level < height
  {
    AncestorInRange(slot, height, level);
    NodeAt(leaves, height, level, SiblingOf(Ancestor(slot, level)))
  }

  /** The genuine path of a slot. */
  function Path(leaves: seq<Digest>, height: nat, slot: nat): (r: seq<Digest>)
    requires |leaves| == Pow2(height) && slot < |leaves|
    ensures |r| == height
    ensures forall l :: 0 <= l < height ==> r[l] == NodeBeside(leaves, height, slot, l)
  {
    seq(height, l requires 0 <= l < height => NodeBeside(leaves, height, slot, l))
  }

  /** Cutting the path while folding, with the index halved at each level. */
  method PathOf(leaves: seq<Digest>, slot: nat, ghost height: nat) returns (siblings: seq<Digest>)
    requires |leaves| == Pow2(height) && slot < |leaves|
    ensures siblings == Path(leaves, height, slot)
  {
    hide HashOf;
    siblings := [];
    var index, level := slot, leaves;
    ghost var l := 0;
    while |level| > 1
      invariant l <= height && IsLevel(leaves, height, l, level)
      invariant index == Ancestor(slot, l) < |level|
      invariant siblings == Path(leaves, height, slot)[..l]
      decreases height - l
    {
      assert l < height;
      var siblingIndex := if index % 2 == 0 then index + 1 else index - 1;
      siblings := siblings + [level[siblingIndex]];
      var next := NextLevel(level);
      LevelAbove(leaves, height, l, level, next);
      AncestorInRange(slot, height, l + 1);
      level, index, l := next, index / 2, l + 1;
    }
  }

  // The walk

  predicate AreDigests(siblings: seq<Bytes>) {
    forall i :: 0 <= i < |siblings| ==> |siblings[i]| == 32
  }

  /** What the verifier hashes at each level of its walk, the tagged leaf first. */
  function WalkMessage(leaf: Digest, siblings: seq<Bytes>, slot: nat, level: nat): (m: Message)
    requires AreDigests(siblings) && level <= |siblings|
    ensures WellFormed(m)
    decreases level, 0
  {
    if level == 0 then RealLeaf(leaf)
    else
      var below := Walk(leaf, siblings, slot, level - 1);
      if Ancestor(slot, level - 1) % 2 == 0 then Node(below, siblings[level - 1]) else Node(siblings[level - 1], below)
  }

  function Walk(leaf: Digest, siblings: seq<Bytes>, slot: nat, level: nat): Digest
    requires AreDigests(siblings) && level <= |siblings|
    decreases level, 1
  {
    HashOf(WalkMessage(leaf, siblings, slot, level))
  }

  function WalkBytes(leaf: Digest, siblings: seq<Bytes>, slot: nat): set<Bytes>
    requires AreDigests(siblings)
  {
    set l: nat | 0 <= l <= |siblings| :: Layout(WalkMessage(leaf, siblings, slot, l))
  }

  // What the builder hashed

  predicate AreSources(sources: seq<Message>, leaves: seq<Digest>) {
    |sources| == |leaves|
    && forall i :: 0 <= i < |sources| ==>
         WellFormed(sources[i]) && (sources[i].RealLeaf? || sources[i].PaddingLeaf?) && leaves[i] == HashOf(sources[i])
  }

  function TreeMessage(leaves: seq<Digest>, height: nat, sources: seq<Message>, level: nat, index: nat): (m: Message)
    requires AreSources(sources, leaves) && InTree(leaves, height, level, index)
    ensures WellFormed(m) && HashOf(m) == NodeAt(leaves, height, level, index)
  {
    if level == 0 then sources[index]
    else
      Node(NodeAt(leaves, height, level - 1, 2 * index), NodeAt(leaves, height, level - 1, 2 * index + 1))
  }

  function TreeBytes(leaves: seq<Digest>, sources: seq<Message>, height: nat): set<Bytes>
    requires AreSources(sources, leaves) && |leaves| == Pow2(height)
  {
    set l: nat, i: nat | 0 <= l <= height && 0 <= i < Pow2(height - l) ::
      (Layout(TreeMessage(leaves, height, sources, l, i)))
  }

  /** The path of a slot holding a leaf walks back to the root. */
  lemma {:induction false} PathWalksToRoot(leaves: seq<Digest>, height: nat, slot: nat, leaf: Digest, level: nat)
    requires |leaves| == Pow2(height) && slot < |leaves| && level <= height
    requires leaves[slot] == HashOf(RealLeaf(leaf))
    ensures (AncestorInRange(slot, height, level);
             Walk(leaf, Path(leaves, height, slot), slot, level) == NodeAt(leaves, height, level, Ancestor(slot, level)))
  {
    hide HashOf;
    if level > 0 {
      PathWalksToRoot(leaves, height, slot, leaf, level - 1);
      AncestorInRange(slot, height, level);
      AncestorInRange(slot, height, level - 1);
      assert Path(leaves, height, slot)[level - 1] == NodeBeside(leaves, height, slot, level - 1);
    }
  }

  /**
   A walk that meets a node of the tree meets a leaf of it at the same depth and holds the genuine
   path up to there, or the walk and the build hashed a collision.
   */
  lemma {:induction false} WalkMeetsTree(
      leaves: seq<Digest>, sources: seq<Message>, height: nat,
      leaf: Digest, siblings: seq<Bytes>, slot: nat, level: nat, treeLevel: nat, index: nat)
    requires |leaves| == Pow2(height) && AreSources(sources, leaves) && AreDigests(siblings)
    requires level <= |siblings| && treeLevel <= height && index < Pow2(height - treeLevel)
    requires index == Ancestor(slot, level)
    requires Walk(leaf, siblings, slot, level) == NodeAt(leaves, height, treeLevel, index)
    ensures CollisionBetween(TreeBytes(leaves, sources, height), WalkBytes(leaf, siblings, slot))
      || MeetsLeaf(leaves, sources, height, leaf, siblings, slot, level, treeLevel)
  {
    hide HashOf, Layout;
    var built, walked := TreeBytes(leaves, sources, height), WalkBytes(leaf, siblings, slot);
    var m, n := TreeMessage(leaves, height, sources, treeLevel, index), WalkMessage(leaf, siblings, slot, level);
    assert Layout(m) in built && Layout(n) in walked;
    SameHash(m, n, built, walked);
    if m == n && level > 0 {
      WalkMeetsTree(leaves, sources, height, leaf, siblings, slot, level - 1, treeLevel - 1, Ancestor(slot, level - 1));
    }
  }

  predicate MeetsLeaf(
      leaves: seq<Digest>, sources: seq<Message>, height: nat,
      leaf: Digest, siblings: seq<Bytes>, slot: nat, level: nat, treeLevel: nat)
    requires |leaves| == Pow2(height) && AreSources(sources, leaves)
    requires level <= |siblings| && treeLevel <= height
  {
    level == treeLevel && slot < |leaves| && sources[slot] == RealLeaf(leaf)
    && forall l :: 0 <= l < level ==> siblings[l] == NodeBeside(leaves, height, slot, l)
  }
}
