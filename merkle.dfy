/** The Merkle tree that summarises an ordered sequence of leaf inputs.

    Only a node's digest is ever observed, so a level of the tree is the
    sequence of its nodes' digests. The tree is rebuilt from its leaves after
    every insertion, level by level: an odd level is padded on the right with
    a node whose digest is the digest of the last node's digest, then adjacent
    nodes are paired left to right. */
module Merkle {
  import opened Hashing

  predicate AllDigests(level: seq<string>) {
    forall i :: 0 <= i < |level| ==> IsDigest(level[i])
  }

  /** `MerkleNode.calculate_hash`: a node built from data hashes the data; a
      node built from two children hashes their digests, left then right; a
      node with neither hashes the empty string. */
  function NodeHash(h: HashFn, data: Option<string>, left: Option<string>, right: Option<string>): Digest {
    match data
    case Some(d) => h(d)
    case None => h(if left.Some? && right.Some? then left.value + right.value else "")
  }

  /** An odd level gains a padding node made from the last node's digest. */
  function Pad(h: HashFn, level: seq<string>): (r: seq<string>)
    ensures |r| % 2 == 0
    ensures |r| == |level| + |level| % 2
    ensures r[..|level|] == level
    ensures |level| % 2 == 1 ==> r[|level|] == h(level[|level| - 1])
  {
    if |level| % 2 == 1 then level + [NodeHash(h, Some(level[|level| - 1]), None, None)] else level
  }

  /** An even level pairs up into internal nodes, left then right. */
  function Pair(h: HashFn, level: seq<string>): (r: seq<string>)
    requires |level| % 2 == 0
    ensures |r| == |level| / 2
    ensures AllDigests(r)
    ensures forall j :: 0 <= j < |r| ==> r[j] == h(level[2 * j] + level[2 * j + 1])
  {
    if level == [] then [] else
      var init := level[..|level| - 2];
      Pair(h, init) + [NodeHash(h, None, Some(level[|level| - 2]), Some(level[|level| - 1]))]
  }

  /** One pass of the rebuild: `ceil(n/2)` nodes from `n`, so fewer when `n > 1`. */
  function NextLevel(h: HashFn, level: seq<string>): (r: seq<string>)
    ensures |r| == (|level| + 1) / 2
    ensures |level| > 1 ==> 0 < |r| < |level|
    ensures AllDigests(r)
  {
    Pair(h, Pad(h, level))
  }

  /** Passes repeated until a single node, the root, is left. */
  function ReduceLevels(h: HashFn, level: seq<string>): (r: string)
    requires |level| > 0
    ensures AllDigests(level) ==> IsDigest(r)
    ensures |level| > 1 ==> IsDigest(r)
    decreases |level|
  {
    if |level| == 1 then level[0] else ReduceLevels(h, NextLevel(h, level))
  }

  /** The root digest of a tree with these leaf digests; `""` for no leaves. */
  function MerkleRoot(h: HashFn, leaves: seq<string>): (r: string)
    ensures leaves == [] ==> r == ""
    ensures leaves != [] && AllDigests(leaves) ==> IsDigest(r)
  {
    if leaves == [] then "" else ReduceLevels(h, leaves)
  }

  /** For digest leaves the root is empty exactly when there are no leaves. */
  lemma RootEmptyIff(h: HashFn, leaves: seq<string>)
    requires AllDigests(leaves)
    ensures MerkleRoot(h, leaves) == "" <==> leaves == []
  {
  }

  lemma RootOfOne(h: HashFn, a: string)
    ensures MerkleRoot(h, [a]) == a
  {
  }

  lemma RootOfTwo(h: HashFn, a: string, b: string)
    ensures MerkleRoot(h, [a, b]) == h(a + b)
  {
    var level := [a, b];
    assert Pad(h, level) == level;
    var next := NextLevel(h, level);
    assert next == [h(a + b)];
    assert ReduceLevels(h, next) == h(a + b);
  }

  /** The third leaf is paired with the digest of its own digest. */
  lemma RootOfThree(h: HashFn, a: string, b: string, c: string)
    ensures MerkleRoot(h, [a, b, c]) == h(h(a + b) + h(c + h(c)))
  {
    var first := NextLevel(h, [a, b, c]);
    assert Pad(h, [a, b, c]) == [a, b, c, h(c)];
    assert first == [h(a + b), h(c + h(c))];
    RootOfTwo(h, h(a + b), h(c + h(c)));
  }

  lemma RootOfFour(h: HashFn, a: string, b: string, c: string, d: string)
    ensures MerkleRoot(h, [a, b, c, d]) == h(h(a + b) + h(c + d))
  {
    assert NextLevel(h, [a, b, c, d]) == [h(a + b), h(c + d)];
    RootOfTwo(h, h(a + b), h(c + d));
  }

  /** Above one leaf, padding an odd level by hand does not change the root:
      the padding node is a real, content-derived leaf. With one leaf it does,
      because a single leaf is never paired. */
  lemma {:induction false} PaddingIsExplicit(h: HashFn, leaves: seq<string>)
    requires |leaves| % 2 == 1
    ensures |leaves| > 1 ==> MerkleRoot(h, leaves) == MerkleRoot(h, leaves + [h(leaves[|leaves| - 1])])
    ensures |leaves| == 1 ==> MerkleRoot(h, leaves + [h(leaves[0])]) == h(leaves[0] + h(leaves[0]))
  {
    var padded := leaves + [h(leaves[|leaves| - 1])];
    if |leaves| == 1 {
      RootOfTwo(h, leaves[0], h(leaves[0]));
      assert padded == [leaves[0], h(leaves[0])];
    } else {
      assert Pad(h, leaves) == padded;
      assert Pad(h, padded) == padded;
      assert NextLevel(h, leaves) == NextLevel(h, padded);
    }
  }

  /** The inner loop of the rebuild: walks an even level two nodes at a time
      and makes one internal node per pair. */
  method PairLevel(h: HashFn, nodes: seq<string>) returns (newLevel: seq<string>)
    requires |nodes| % 2 == 0
    ensures newLevel == Pair(h, nodes)
  {
    newLevel := [];
    var i := 0;
    while i < |nodes|
      invariant i == 2 * |newLevel| <= |nodes|
      invariant forall j :: 0 <= j < |newLevel| ==> newLevel[j] == NodeHash(h, None, Some(nodes[2 * j]), Some(nodes[2 * j + 1]))
    {
      newLevel := newLevel + [NodeHash(h, None, Some(nodes[i]), Some(nodes[i + 1]))];
      i := i + 2;
    }
  }

  /** `MerkleTree`: the leaves (as their digests) and the current root. */
  class MerkleTree {
    const h: HashFn
    var leaves: seq<string>
    var root: Option<string>

    /** The root is the one rebuilt from the current leaves. */
    ghost predicate Valid()
      reads this
    {
      AllDigests(leaves) && root == (if leaves == [] then None else Some(MerkleRoot(h, leaves)))
    }

    constructor (h: HashFn)
      ensures this.h == h && leaves == [] && root == None
      ensures Valid()
    {
      this.h := h;
      leaves := [];
      root := None;
    }

    /** `add`: one more leaf, the digest of `data`; earlier leaves stay. */
    method Add(data: string)
      modifies this`leaves, this`root
      ensures leaves == old(leaves) + [h(data)]
      ensures root == Some(MerkleRoot(h, leaves))
      ensures old(AllDigests(leaves)) ==> Valid()
    {
      var node := NodeHash(h, Some(data), None, None);
      leaves := leaves + [node];
      RecalculateTree();
    }

    /** `recalculate_tree`: rebuilds the root on a copy of the leaves; the
        leaves themselves, and so the padding, are left alone. */
    method RecalculateTree()
      modifies this`root
      ensures leaves == old(leaves)
      ensures root == if leaves == [] then None else Some(MerkleRoot(h, leaves))
    {
      var nodes := leaves;
      while |nodes| > 1
        invariant (|nodes| == 0) == (leaves == [])
        invariant leaves != [] ==> ReduceLevels(h, nodes) == ReduceLevels(h, leaves)
        decreases |nodes|
      {
        ghost var level := nodes;
        if |nodes| % 2 == 1 {
          nodes := nodes + [NodeHash(h, Some(nodes[|nodes| - 1]), None, None)];
        }
        var newLevel := PairLevel(h, nodes);
        assert nodes == Pad(h, level);
        assert newLevel == NextLevel(h, level);
        nodes := newLevel;
      }
      root := if |nodes| > 0 then Some(nodes[0]) else None;
    }

    /** `root_hash`: the root's digest, or `""` when there is no root. */
    function RootHash(): (r: string)
      reads this
      ensures Valid() ==> r == MerkleRoot(h, leaves)
      ensures Valid() ==> (r == "" <==> leaves == [])
    {
      match root
      case None => ""
      case Some(d) => d
    }
  }

  /** Two trees fed the same inputs in the same order agree on their roots. */
  method SameInputsSameRoot(h: HashFn, inputs: seq<string>) returns (r1: string, r2: string)
    ensures r1 == r2 == MerkleRoot(h, LeafDigests(h, inputs))
  {
    var t1 := new MerkleTree(h);
    var t2 := new MerkleTree(h);
    var i := 0;
    while i < |inputs|
      invariant 0 <= i <= |inputs|
      invariant t1.Valid() && t2.Valid() && t1.h == h && t2.h == h
      invariant t1.leaves == t2.leaves == LeafDigests(h, inputs[..i])
    {
      LeafDigestsPrefix(h, inputs, i);
      t1.Add(inputs[i]);
      t2.Add(inputs[i]);
      i := i + 1;
    }
    assert inputs[..i] == inputs;
    r1 := t1.RootHash();
    r2 := t2.RootHash();
  }

  /** The leaf digests a tree holds after adding these inputs in order. */
  function LeafDigests(h: HashFn, inputs: seq<string>): (r: seq<string>)
    ensures |r| == |inputs|
    ensures AllDigests(r)
    ensures forall i :: 0 <= i < |inputs| ==> r[i] == h(inputs[i])
  {
    if inputs == [] then [] else LeafDigests(h, inputs[..|inputs| - 1]) + [h(inputs[|inputs| - 1])]
  }

  lemma LeafDigestsSnoc(h: HashFn, inputs: seq<string>, x: string)
    ensures LeafDigests(h, inputs + [x]) == LeafDigests(h, inputs) + [h(x)]
  {
    assert (inputs + [x])[..|inputs|] == inputs;
  }

  /** Feeding one more input of a list extends the leaves of its prefix. */
  lemma LeafDigestsPrefix(h: HashFn, inputs: seq<string>, i: nat)
    requires i < |inputs|
    ensures LeafDigests(h, inputs[..i + 1]) == LeafDigests(h, inputs[..i]) + [h(inputs[i])]
  {
    assert inputs[..i + 1][..i] == inputs[..i];
  }
}
