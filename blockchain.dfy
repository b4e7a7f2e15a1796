/** The chain: genesis seeding, appending mined blocks, the two-phase
    integrity check, balance queries and admission of pending transactions. */
module Chain {
  import opened Hashing
  import opened Merkle
  import opened Transactions
  import opened Blocks
  import opened Ledger

  /** The blocks' states, in chain order. */
  function States(blocks: seq<Block>): (r: seq<BlockState>)
    reads blocks
    ensures |r| == |blocks|
    ensures forall i :: 0 <= i < |blocks| ==> r[i] == blocks[i].State()
  {
    if blocks == [] then [] else States(blocks[..|blocks| - 1]) + [blocks[|blocks| - 1].State()]
  }

  /** The blocks' stored hashes, in chain order. */
  function BlockHashes(blocks: seq<Block>): (r: seq<string>)
    reads blocks
    ensures |r| == |blocks|
    ensures forall i :: 0 <= i < |blocks| ==> r[i] == blocks[i].hash
  {
    if blocks == [] then [] else BlockHashes(blocks[..|blocks| - 1]) + [blocks[|blocks| - 1].hash]
  }

  /** The blocks' stored hashes are the hashes of their states. */
  lemma BlockHashesOfStates(blocks: seq<Block>)
    ensures BlockHashes(blocks) == Hashes(States(blocks))
  {
  }

  /** Appending a block appends its state. */
  lemma StatesSnoc(blocks: seq<Block>, b: Block)
    ensures States(blocks + [b]) == States(blocks) + [b.State()]
  {
    assert (blocks + [b])[..|blocks|] == blocks;
  }


  /** The stored hashes of a run of block states. */
  function Hashes(ss: seq<BlockState>): (r: seq<string>)
    ensures |r| == |ss|
    ensures forall i :: 0 <= i < |ss| ==> r[i] == ss[i].hash
  {
    if ss == [] then [] else Hashes(ss[..|ss| - 1]) + [ss[|ss| - 1].hash]
  }

  lemma HashesSnoc(ss: seq<BlockState>, s: BlockState)
    ensures Hashes(ss + [s]) == Hashes(ss) + [s.hash]
  {
    assert (ss + [s])[..|ss|] == ss;
  }

  /** Every block meets the target. */
  predicate AllMined(ss: seq<BlockState>, difficulty: nat) {
    forall i :: 0 <= i < |ss| ==> Mined(ss[i].hash, difficulty)
  }

  /** The first block is linked to the sentinel "0". */
  predicate GenesisFirst(ss: seq<BlockState>) {
    |ss| > 0 && ss[0].previousHash == "0"
  }

  /** The previous hashes the blocks name, in chain order. */
  function PreviousHashes(ss: seq<BlockState>): (r: seq<string>)
    ensures |r| == |ss|
    ensures forall i :: 0 <= i < |ss| ==> r[i] == ss[i].previousHash
  {
    if ss == [] then [] else PreviousHashes(ss[..|ss| - 1]) + [ss[|ss| - 1].previousHash]
  }

  lemma PreviousHashesSnoc(ss: seq<BlockState>, s: BlockState)
    ensures PreviousHashes(ss + [s]) == PreviousHashes(ss) + [s.previousHash]
  {
    assert (ss + [s])[..|ss|] == ss;
  }

  /** Every block after the first names its predecessor's stored hash: past
      the first, the previous hashes are the hashes up to the last-but-one.
      LinkedIff states it block by block. */
  predicate Linked(ss: seq<BlockState>) {
    ss == [] || PreviousHashes(ss) == [ss[0].previousHash] + Hashes(ss)[..|ss| - 1]
  }

  lemma LinkedIff(ss: seq<BlockState>)
    ensures Linked(ss) <==> forall i :: 1 <= i < |ss| ==> ss[i].previousHash == ss[i - 1].hash
  {
    if ss != [] && forall i :: 1 <= i < |ss| ==> ss[i].previousHash == ss[i - 1].hash {
      assert PreviousHashes(ss) == [ss[0].previousHash] + Hashes(ss)[..|ss| - 1];
    }
    if ss != [] && Linked(ss) {
      forall i | 1 <= i < |ss| ensures ss[i].previousHash == ss[i - 1].hash {
        assert PreviousHashes(ss)[i] == ([ss[0].previousHash] + Hashes(ss)[..|ss| - 1])[i];
      }
    }
  }

  /** What `add_block` keeps: genesis first, every block mined and linked
      to its predecessor, and the chain tree's leaves the digests of the
      hashes of every block but genesis. */
  predicate ChainInvariant(h: HashFn, difficulty: nat, ss: seq<BlockState>, leaves: seq<string>) {
    && AllMined(ss, difficulty)
    && GenesisFirst(ss)
    && Linked(ss)
    && LeafDigests(h, Hashes(ss)) == [h(ss[0].hash)] + leaves
  }

  /** Appending a mined block linked to the tip, and its hash's digest to
      the tree, keeps the invariant. */
  lemma InvariantSnoc(h: HashFn, difficulty: nat, ss: seq<BlockState>, leaves: seq<string>, s: BlockState)
    requires ChainInvariant(h, difficulty, ss, leaves)
    requires Mined(s.hash, difficulty) && s.previousHash == ss[|ss| - 1].hash
    ensures ChainInvariant(h, difficulty, ss + [s], leaves + [h(s.hash)])
  {
    LinkedSnoc(ss, s);
    HashesSnoc(ss, s);
    LeafDigestsSnoc(h, Hashes(ss), s.hash);
  }

  /** A block naming the tip's hash keeps the chain linked. */
  lemma LinkedSnoc(ss: seq<BlockState>, s: BlockState)
    requires ss != [] && Linked(ss) && s.previousHash == ss[|ss| - 1].hash
    ensures Linked(ss + [s])
  {
    HashesSnoc(ss, s);
    PreviousHashesSnoc(ss, s);
    assert Hashes(ss + [s])[..|ss|] == Hashes(ss) == Hashes(ss)[..|ss| - 1] + [ss[|ss| - 1].hash];
  }

  /** A lone mined block linked to "0", with no leaves, keeps the invariant. */
  lemma GenesisInvariant(h: HashFn, difficulty: nat, ss: seq<BlockState>)
    requires |ss| == 1 && ss[0].previousHash == "0" && Mined(ss[0].hash, difficulty)
    ensures ChainInvariant(h, difficulty, ss, [])
  {
    assert Hashes(ss)[..0] == [];
    assert LeafDigests(h, Hashes(ss)) == [h(ss[0].hash)];
  }

  /** All transactions of the blocks, block by block, in order. */
  function History(blocks: seq<Block>): seq<Transaction> {
    if blocks == [] then [] else History(blocks[..|blocks| - 1]) + blocks[|blocks| - 1].transactions
  }

  lemma HistorySnoc(blocks: seq<Block>, i: nat)
    requires i < |blocks|
    ensures History(blocks[..i + 1]) == History(blocks[..i]) + blocks[i].transactions
  {
    assert blocks[..i + 1][..i] == blocks[..i];
  }

  /** How many blocks `calculate_balances_until(k)` replays: blocks 0..k,
      clipped to the chain (Python's `range(min(k + 1, n))`). */
  function ReplayCount(k: int, n: nat): (c: nat)
    ensures c <= n
    ensures 0 <= k < n ==> c == k + 1
    ensures k >= n ==> c == n
    ensures k < 0 ==> c == 0
  {
    if k + 1 <= 0 then 0 else if k + 1 < n then k + 1 else n
  }

  /** The genesis block's search can end. */
  ghost predicate GenesisMineable(h: HashFn, difficulty: nat) {
    SomeNonceFrom(h, "0", TransactionsRoot(h, GenesisTransactions()), 0, difficulty)
  }

  /** The genesis block of `create_genesis_block`, built and mined. */
  method MineGenesis(h: HashFn, difficulty: nat) returns (genesis: Block)
    requires GenesisMineable(h, difficulty)
    ensures fresh(genesis)
    ensures genesis.previousHash == "0" && genesis.transactions == GenesisTransactions()
    ensures genesis.h == h && genesis.Valid()
    ensures Mined(genesis.hash, difficulty) && genesis.hash == genesis.CalculateHash()
  {
    genesis := new Block(h, GenesisTransactions(), "0");
    ghost var root := genesis.merkleRoot;
    ghost var k: nat :| Mined(BlockDigest(h, "0", k, root), difficulty);
    if k > 0 {
      assert SomeNonceFrom(h, "0", root, genesis.nonce + 1, difficulty);
    }
    genesis.ProofOfWork(difficulty);
  }

  class Blockchain {
    const h: HashFn
    var chain: seq<Block>
    const difficulty: nat
    var pendingTransactions: seq<Transaction>
    const chainTree: MerkleTree

    /** The chain's invariant: every block uses the chain's hash function,
        the block states keep ChainInvariant with the chain tree's leaves,
        and the tree's root is the one rebuilt from its leaves. */
    ghost predicate Valid()
      reads this`chain, chain, chainTree
    {
      && (forall i :: 0 <= i < |chain| ==> chain[i].h == h)
      && chainTree.Valid() && chainTree.h == h
      && ChainInvariant(h, difficulty, States(chain), chainTree.leaves)
    }

    /** `is_chain_valid`'s verdict: the incremental root equals the root
        rebuilt from every block's hash, and every block after genesis has a
        hash matching its fields and a link to its predecessor's hash. */
    ghost predicate ChainIsValid()
      reads this`chain, chain, chainTree
    {
      RootsAgree() && AllChecked()
    }

    /** Phase 1: the incremental root equals the root rebuilt from every
        block's stored hash, genesis included. */
    ghost predicate RootsAgree()
      reads this`chain, chain, chainTree
    {
      chainTree.RootHash() == MerkleRoot(h, LeafDigests(h, BlockHashes(chain)))
    }

    /** Phase 2: every block after genesis passes its test. */
    ghost predicate AllChecked()
      reads this`chain, chain
    {
      forall i :: 1 <= i < |chain| ==> Checked(i)
    }

    /** Phase 2's test of block `i`: its stored hash matches its fields and
        it names its predecessor's stored hash. */
    ghost predicate Checked(i: int)
      reads this`chain, chain
    {
      1 <= i < |chain| && chain[i].hash == chain[i].CalculateHash() && chain[i].previousHash == chain[i - 1].hash
    }

    /** A new chain fails its own check: the chain tree is still empty, while
        the rebuilt root covers the genesis hash. */
    lemma NewChainFailsCheck()
      requires Valid() && |chain| == 1 && chainTree.leaves == []
      ensures !ChainIsValid()
    {
      RootEmptyIff(h, LeafDigests(h, BlockHashes(chain)));
    }

    /** `Blockchain(difficulty)`: one mined genesis block, no pending
        transactions, an empty chain tree. NewChainFailsCheck shows that
        such a chain fails `is_chain_valid`. */
    constructor (h: HashFn, difficulty: nat)
      requires GenesisMineable(h, difficulty)
      ensures Valid() && fresh(chainTree) && fresh(chain[0])
      ensures this.h == h && this.difficulty == difficulty
      ensures |chain| == 1 && chain[0].previousHash == "0" && chain[0].transactions == GenesisTransactions()
      ensures pendingTransactions == [] && chainTree.leaves == []
    {
      this.h := h;
      this.difficulty := difficulty;
      chain := [];
      pendingTransactions := [];
      chainTree := new MerkleTree(h);
      new;
      CreateGenesisBlock();
      GenesisInvariant(h, difficulty, States(chain));
    }

    /** `create_genesis_block`: appends a freshly mined block holding the
        two genesis credits, linked to the sentinel "0". */
    method CreateGenesisBlock()
      requires GenesisMineable(h, difficulty)
      modifies this`chain
      ensures |chain| == |old(chain)| + 1 && chain[..|old(chain)|] == old(chain)
      ensures fresh(chain[|chain| - 1])
      ensures chain[|chain| - 1].previousHash == "0" && chain[|chain| - 1].transactions == GenesisTransactions()
      ensures chain[|chain| - 1].h == h && chain[|chain| - 1].Valid()
      ensures Mined(chain[|chain| - 1].hash, difficulty)
      ensures chain[|chain| - 1].hash == chain[|chain| - 1].CalculateHash()
      ensures pendingTransactions == old(pendingTransactions)
    {
      var genesis := MineGenesis(h, difficulty);
      chain := chain + [genesis];
    }

    /** `add_block`: relinks the block to the tip, mines it, appends it and
        feeds its hash to the chain tree. The stored hash is not recomputed
        after relinking, so when it already met the target it stays stale. */
    method AddBlock(b: Block)
      requires Valid()
      requires b !in chain
      requires b.h == h
      requires Mined(b.hash, difficulty)
            || SomeNonceFrom(h, chain[|chain| - 1].hash, b.merkleRoot, b.nonce + 1, difficulty)
      modifies this`chain, b`previousHash, b`nonce, b`hash, chainTree`leaves, chainTree`root
      ensures Valid()
      ensures chain == old(chain) + [b]
      ensures b.previousHash == old(chain[|chain| - 1].hash)
      ensures Mined(b.hash, difficulty) && b.nonce >= old(b.nonce)
      ensures old(Mined(b.hash, difficulty)) ==> b.nonce == old(b.nonce) && b.hash == old(b.hash)
      ensures !old(Mined(b.hash, difficulty)) ==> b.hash == b.CalculateHash()
      ensures chainTree.leaves == old(chainTree.leaves) + [h(b.hash)]
    {
      ghost var ss := States(chain);
      var latest := GetLatestBlock();
      b.previousHash := latest.hash;
      b.ProofOfWork(difficulty);
      assert States(chain) == ss;
      Append(b);
    }

    /** The last two steps of `add_block`: a mined block that names the
        tip's hash joins the chain, and the digest of its hash joins the
        chain tree. */
    method Append(b: Block)
      requires Valid()
      requires b !in chain
      requires b.h == h
      requires Mined(b.hash, difficulty) && b.previousHash == chain[|chain| - 1].hash
      modifies this`chain, chainTree`leaves, chainTree`root
      ensures Valid()
      ensures chain == old(chain) + [b]
      ensures chainTree.leaves == old(chainTree.leaves) + [h(b.hash)]
    {
      ghost var ss := States(chain);
      chainTree.Add(b.hash);
      assert States(chain) == ss;
      StatesSnoc(chain, b);
      chain := chain + [b];
      InvariantSnoc(h, difficulty, ss, old(chainTree.leaves), b.State());
    }

    /** `get_latest_block`: the tip; the source fails on an empty chain. On
        a valid chain the tip is mined and, past genesis, names the hash of
        the block before it. */
    function GetLatestBlock(): (b: Block)
      reads this, chain, chainTree
      requires |chain| > 0
      ensures b in chain && b == chain[|chain| - 1]
      ensures Valid() ==> Mined(b.hash, difficulty)
      ensures Valid() && |chain| > 1 ==> b.previousHash == chain[|chain| - 2].hash
    {
      TipFacts();
      chain[|chain| - 1]
    }

    lemma TipFacts()
      requires |chain| > 0
      ensures Valid() ==> Mined(chain[|chain| - 1].hash, difficulty)
      ensures Valid() && |chain| > 1 ==> chain[|chain| - 1].previousHash == chain[|chain| - 2].hash
    {
      if Valid() {
        LinkedIff(States(chain));
      }
    }

    /** `calculate_blockchain_root_hash`: the root of a fresh tree fed every
        block's hash, genesis included. */
    method CalculateBlockchainRootHash() returns (r: string)
      ensures r == MerkleRoot(h, LeafDigests(h, BlockHashes(chain)))
    {
      r := RootOfHashes(h, BlockHashes(chain));
    }

    /** `is_chain_valid`: phase 1 compares the incremental root with the
        rebuilt one, then phase 2 walks the blocks after genesis. */
    method IsChainValid() returns (ok: bool)
      ensures ok == ChainIsValid()
    {
      var rebuilt := CalculateBlockchainRootHash();
      if chainTree.RootHash() != rebuilt {
        assert !RootsAgree();
        return false;
      }
      ok := CheckBlocks();
    }

    /** Phase 2 of `is_chain_valid`: the first block after genesis whose
        stored hash does not match its fields, or that does not name its
        predecessor's stored hash, answers false. */
    method CheckBlocks() returns (ok: bool)
      ensures ok == AllChecked()
    {
      var i := 1;
      while i < |chain|
        invariant 1 <= i && (i <= |chain| || i == 1)
        invariant forall j :: 1 <= j < i ==> Checked(j)
      {
        var current, previous := chain[i], chain[i - 1];
        if current.hash != current.CalculateHash() {
          assert !Checked(i);
          return false;
        }
        if current.previousHash != previous.hash {
          assert !Checked(i);
          return false;
        }
        i := i + 1;
      }
      return true;
    }

    /** `calculate_balance`: the point balance over every committed block's
        transactions, then the pending ones; "System" is not exempt. */
    method CalculateBalance(who: string) returns (balance: int)
      ensures balance == Balance(History(chain) + pendingTransactions, who)
    {
      balance := 0;
      for i := 0 to |chain|
        invariant balance == Balance(History(chain[..i]), who)
      {
        balance := SumInto(balance, chain[i].transactions, who);
        HistorySnoc(chain, i);
        BalanceAppend(History(chain[..i]), chain[i].transactions, who);
      }
      assert chain[..|chain|] == chain;
      balance := SumInto(balance, pendingTransactions, who);
      BalanceAppend(History(chain), pendingTransactions, who);
    }

    /** `add_transaction`: queues the transaction exactly when the sender's
        point balance, pending transactions included, covers the amount.
        The result says which of the two messages the source prints. */
    method AddTransaction(tx: Transaction) returns (accepted: bool)
      modifies this`pendingTransactions
      ensures accepted == (Balance(History(chain) + old(pendingTransactions), tx.sender) >= tx.amount)
      ensures pendingTransactions == if accepted then old(pendingTransactions) + [tx] else old(pendingTransactions)
      ensures chain == old(chain)
    {
      var balance := CalculateBalance(tx.sender);
      accepted := balance >= tx.amount;
      if accepted {
        pendingTransactions := pendingTransactions + [tx];
      }
    }

    /** `update_balances`: debits the sender unless it is "System", then
        credits the recipient, each time updating current, min and max. */
    method UpdateBalances(userBalances: BalanceSheet, sender: string, recipient: string, amount: int)
      modifies userBalances
      ensures userBalances.entries == Transfer(old(userBalances.entries), sender, recipient, amount)
    {
      if sender != System {
        userBalances.entries := Post(userBalances.entries, sender, -amount);
      }
      userBalances.entries := Post(userBalances.entries, recipient, amount);
    }

    /** The inner loop of `calculate_balances_until`: replays one block's
        transactions into the dictionary, in order. */
    method ReplayInto(userBalances: BalanceSheet, txs: seq<Transaction>)
      modifies userBalances
      ensures userBalances.entries == Replay(old(userBalances.entries), txs)
    {
      ghost var start := userBalances.entries;
      for j := 0 to |txs|
        invariant userBalances.entries == Replay(start, txs[..j])
      {
        ReplaySnoc(start, txs[..j], txs[j]);
        assert txs[..j + 1] == txs[..j] + [txs[j]];
        UpdateBalances(userBalances, txs[j].sender, txs[j].recipient, txs[j].amount);
      }
      assert txs[..|txs|] == txs;
    }

    /** `calculate_balances_until`: the range replay of blocks 0..k of the
        chain; pending transactions are not replayed. */
    method CalculateBalancesUntil(blockNumber: int) returns (userBalances: BalanceSheet)
      ensures fresh(userBalances)
      ensures userBalances.entries == Replay(map[], History(chain[..ReplayCount(blockNumber, |chain|)]))
      ensures forall x :: x in userBalances.entries ==> Bounded(userBalances.entries[x])
    {
      userBalances := new BalanceSheet();
      var count := ReplayCount(blockNumber, |chain|);
      for i := 0 to count
        invariant userBalances.entries == Replay(map[], History(chain[..i]))
      {
        ReplayInto(userBalances, chain[i].transactions);
        HistorySnoc(chain, i);
        ReplayAppend(map[], History(chain[..i]), chain[i].transactions);
      }
      ReplayBounded(map[], History(chain[..count]));
    }
  }

  /** The loop of `calculate_blockchain_root_hash`: a fresh tree fed the
      hashes in order, then its root. */
  method RootOfHashes(h: HashFn, hashes: seq<string>) returns (r: string)
    ensures r == MerkleRoot(h, LeafDigests(h, hashes))
  {
    var temp := new MerkleTree(h);
    for i := 0 to |hashes|
      invariant temp.Valid() && temp.h == h
      invariant temp.leaves == LeafDigests(h, hashes[..i])
    {
      LeafDigestsPrefix(h, hashes, i);
      temp.Add(hashes[i]);
    }
    assert hashes[..|hashes|] == hashes;
    r := temp.RootHash();
  }

  /** The inner loop of `calculate_balance`: adds one list of transactions'
      effect on `who` to a running balance. */
  method SumInto(balance: int, txs: seq<Transaction>, who: string) returns (r: int)
    ensures r == balance + Balance(txs, who)
  {
    r := balance;
    for j := 0 to |txs|
      invariant r == balance + Balance(txs[..j], who)
    {
      var tx := txs[j];
      assert txs[..j + 1] == txs[..j] + [tx];
      BalanceSnoc(txs[..j], tx, who);
      if tx.sender == who {
        r := r - tx.amount;
      }
      if tx.recipient == who {
        r := r + tx.amount;
      }
    }
    assert txs[..|txs|] == txs;
  }
}
