/** A block: its transactions, the Merkle tree over their texts, the link to
    its predecessor, and the proof-of-work nonce and hash. */
module Blocks {
  import opened Hashing
  import opened Merkle
  import opened Transactions

  /** The proof-of-work target: the first `d` characters of `s` exist and
      are all '0'. Defined one position at a time (see MinedIsZeroSlice for
      the slice comparison the source writes). */
  predicate Mined(s: string, d: nat) {
    d == 0 || (d <= |s| && s[d - 1] == '0' && Mined(s, d - 1))
  }

  lemma {:induction false} MinedIff(s: string, d: nat)
    ensures Mined(s, d) <==> d <= |s| && forall i :: 0 <= i < d ==> s[i] == '0'
  {
    if d > 0 {
      MinedIff(s, d - 1);
    }
  }

  /** Python's `s[:d] == '0' * d`: a slice past the end is all of `s`, which
      is then shorter than the `d` zeros it is compared with. */
  lemma MinedIsZeroSlice(s: string, d: nat)
    ensures Mined(s, d) <==> (if d <= |s| then s[..d] else s) == Zeros(d)
  {
    MinedIff(s, d);
    if d <= |s| && forall i :: 0 <= i < d ==> s[i] == '0' {
      assert s[..d] == Zeros(d);
    }
    if d <= |s| && s[..d] == Zeros(d) {
      forall i | 0 <= i < d ensures s[i] == '0' {
        assert s[..d][i] == Zeros(d)[i];
      }
    }
  }

  /** A hash that meets a target also meets every easier one; every hash
      meets difficulty 0, and no digest meets a difficulty above 64. */
  lemma MinedMonotone(s: string, d: nat, e: nat)
    requires e <= d && Mined(s, d)
    ensures Mined(s, e)
    ensures Mined(s, 0)
    ensures d <= |s|
  {
    MinedIff(s, d);
    MinedIff(s, e);
  }

  /** The leaf inputs of a block's tree: each transaction's text, in order. */
  function Reprs(txs: seq<Transaction>): (r: seq<string>)
    ensures |r| == |txs|
    ensures forall i :: 0 <= i < |txs| ==> r[i] == txs[i].Repr()
  {
    if txs == [] then [] else Reprs(txs[..|txs| - 1]) + [txs[|txs| - 1].Repr()]
  }

  lemma LeavesOfPrefix(h: HashFn, txs: seq<Transaction>, i: nat)
    requires i < |txs|
    ensures LeafDigests(h, Reprs(txs[..i + 1])) == LeafDigests(h, Reprs(txs[..i])) + [h(txs[i].Repr())]
  {
    assert txs[..i + 1][..i] == txs[..i];
    assert Reprs(txs[..i + 1]) == Reprs(txs[..i]) + [txs[i].Repr()];
    LeafDigestsSnoc(h, Reprs(txs[..i]), txs[i].Repr());
  }

  /** The Merkle root a block over these transactions commits to. */
  function TransactionsRoot(h: HashFn, txs: seq<Transaction>): string {
    MerkleRoot(h, LeafDigests(h, Reprs(txs)))
  }

  /** `calculate_hash` on explicit inputs: the digest of the predecessor's
      hash, the decimal nonce and the Merkle root, concatenated in that order. */
  function BlockDigest(h: HashFn, previousHash: string, nonce: nat, root: string): Digest {
    h(previousHash + Decimal(nonce) + root)
  }

  /** Each nonce of the search hashes a different text. */
  lemma NoncesHashDistinctTexts(previousHash: string, root: string, m: nat, n: nat)
    requires m != n
    ensures previousHash + Decimal(m) + root != previousHash + Decimal(n) + root
  {
    var a, b := previousHash + Decimal(m) + root, previousHash + Decimal(n) + root;
    if a == b {
      var p := |previousHash|;
      assert |Decimal(m)| == |Decimal(n)|;
      var q := p + |Decimal(m)|;
      assert a[p..q] == Decimal(m);
      assert b[p..q] == Decimal(n);
      DecimalInjective(m, n);
    }
  }

  /** The search can end: some nonce from `from` onwards meets the target.
      The source takes this for granted; nothing in it bounds the search. */
  ghost predicate SomeNonceFrom(h: HashFn, previousHash: string, root: string, from: nat, difficulty: nat) {
    exists k: nat :: from <= k && Mined(BlockDigest(h, previousHash, k, root), difficulty)
  }

  /** No nonce strictly between `lo` and `hi` meets the target. */
  ghost predicate AllMiss(h: HashFn, previousHash: string, root: string, lo: nat, hi: nat, difficulty: nat) {
    forall k :: lo < k < hi ==> !Mined(BlockDigest(h, previousHash, k, root), difficulty)
  }

  lemma MissesExtend(h: HashFn, previousHash: string, root: string, lo: nat, hi: nat, difficulty: nat)
    requires AllMiss(h, previousHash, root, lo, hi, difficulty)
    requires hi > lo ==> !Mined(BlockDigest(h, previousHash, hi, root), difficulty)
    ensures AllMiss(h, previousHash, root, lo, hi + 1, difficulty)
  {
  }

  /** The constructor's loop: a fresh tree, one leaf per transaction text
      in order; the block keeps the root it ends with. */
  method BuildTree(h: HashFn, txs: seq<Transaction>) returns (root: string)
    ensures root == TransactionsRoot(h, txs)
  {
    var t := new MerkleTree(h);
    for i := 0 to |txs|
      invariant t.Valid() && t.h == h
      invariant t.leaves == LeafDigests(h, Reprs(txs[..i]))
    {
      t.Add(txs[i].Repr());
      LeavesOfPrefix(h, txs, i);
    }
    assert txs[..|txs|] == txs;
    root := t.RootHash();
  }

  /** What a block holds at one moment: the fields `calculate_hash` reads,
      and the stored hash. */
  datatype BlockState = BlockState(previousHash: string, nonce: nat, merkleRoot: string, hash: string)

  /** The hash `calculate_hash` gives for a block in this state. */
  function StateDigest(h: HashFn, s: BlockState): Digest {
    BlockDigest(h, s.previousHash, s.nonce, s.merkleRoot)
  }

  class Block {
    const h: HashFn
    const transactions: seq<Transaction>
    var previousHash: string
    var nonce: nat
    /** The root of the block's Merkle tree. The tree is filled in the
        constructor and never changed afterwards, so its root is constant. */
    const merkleRoot: string
    var hash: Digest

    /** The stored root is the root of the tree over the transactions' texts. */
    predicate Valid() {
      merkleRoot == TransactionsRoot(h, transactions)
    }

    /** `Block(transactions, previous_hash)`: builds the tree one leaf per
        transaction in order; nonce 0 and a hash that matches the fields. */
    constructor (h: HashFn, transactions: seq<Transaction>, previousHash: string)
      ensures this.h == h && this.transactions == transactions && this.previousHash == previousHash
      ensures nonce == 0 && Valid()
      ensures hash == CalculateHash()
    {
      var root := BuildTree(h, transactions);
      this.h := h;
      this.transactions := transactions;
      this.previousHash := previousHash;
      nonce := 0;
      merkleRoot := root;
      hash := BlockDigest(h, previousHash, 0, root);
    }

    /** `calculate_hash`: reads the fields and changes nothing. */
    function CalculateHash(): Digest
      reads this
    {
      BlockDigest(h, previousHash, nonce, merkleRoot)
    }

    /** The block's fields as one value. */
    function State(): BlockState
      reads this
    {
      BlockState(previousHash, nonce, merkleRoot, hash)
    }

    /** The search ends from here: the stored hash already meets the target,
        or some later nonce does. */
    ghost predicate CanMine(difficulty: nat)
      reads this
    {
      Mined(hash, difficulty) || SomeNonceFrom(h, previousHash, merkleRoot, nonce + 1, difficulty)
    }

    /** `proof_of_work`: while the STORED hash misses the target, step the
        nonce and recompute. Returns with the first nonce that meets it; a
        stale hash that already meets the target is kept as it is. */
    method ProofOfWork(difficulty: nat)
      requires CanMine(difficulty)
      modifies this`nonce, this`hash
      ensures Mined(hash, difficulty)
      ensures nonce >= old(nonce)
      ensures old(Mined(hash, difficulty)) ==> nonce == old(nonce) && hash == old(hash)
      ensures !old(Mined(hash, difficulty)) ==> nonce > old(nonce) && hash == CalculateHash()
      ensures old(hash == CalculateHash()) ==> hash == CalculateHash()
      ensures AllMiss(h, previousHash, merkleRoot, old(nonce), nonce, difficulty)
    {
      ghost var goal: nat := nonce;
      if !Mined(hash, difficulty) {
        goal :| nonce + 1 <= goal && Mined(BlockDigest(h, previousHash, goal, merkleRoot), difficulty);
      }
      while !Mined(hash, difficulty)
        invariant old(nonce) <= nonce <= goal
        invariant nonce == old(nonce) ==> hash == old(hash)
        invariant nonce > old(nonce) ==> hash == BlockDigest(h, previousHash, nonce, merkleRoot)
        invariant goal == old(nonce) ==> Mined(old(hash), difficulty)
        invariant goal > old(nonce) ==> Mined(BlockDigest(h, previousHash, goal, merkleRoot), difficulty)
        invariant AllMiss(h, previousHash, merkleRoot, old(nonce), nonce, difficulty)
        decreases goal - nonce
      {
        assert nonce != goal;
        MissesExtend(h, previousHash, merkleRoot, old(nonce), nonce, difficulty);
        nonce := nonce + 1;
        hash := CalculateHash();
      }
    }
  }

  /** Mining a block that already meets a target again, at the same or a
      lower difficulty and then at difficulty 0, changes nothing. */
  method MineAgain(b: Block, d: nat, e: nat)
    requires Mined(b.hash, d) && e <= d
    modifies b`nonce, b`hash
    ensures b.nonce == old(b.nonce) && b.hash == old(b.hash)
  {
    MinedMonotone(b.hash, d, e);
    b.ProofOfWork(e);
    b.ProofOfWork(0);
  }
}
