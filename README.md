# A toy ledger: Merkle tree, proof-of-work blocks and a chain

This project models a small single-threaded ledger in Dafny. It has three
parts:

- **Merkle tree.** The tree is rebuilt level by level after every leaf is
  added. An odd level is padded with a leaf node whose data is the last node's
  digest, so its own digest is `h(last)`.
- **Blocks.** A block commits to its transactions through the root of such a
  tree. It is mined by a linear search for a nonce whose hash starts with
  `difficulty` zeros.
- **Blockchain.** The chain starts with a mined genesis block of two credits
  from "System" and links every later block to its predecessor's hash. It
  also:
  - feeds each added block's hash into an incremental chain tree;
  - checks itself in two phases;
  - answers balance queries by replaying transactions;
  - admits pending transactions only when the sender's balance covers them.

The hash function (SHA-256 rendered as 64 hexadecimal characters) is a
parameter `h: HashFn` of every component. Its only known property is that
each digest is 64 characters long.

Modules, one per file:

- `Hashing` (hashing.dfy): `Option`, digests, and Python's `str()` of an
  integer (`Decimal`, `IntToDecimal`) with `Decimal`'s round trip.
- `Transactions` (transaction.dfy): the transaction value and its `__repr__`
  text (`Repr`), and the genesis credits.
- `Merkle` (merkle.dfy): the specification functions `Pad`, `Pair`,
  `NextLevel`, `ReduceLevels` and `MerkleRoot`, and the `MerkleTree` class,
  whose `Add` and `RecalculateTree` are proved against them.
- `Blocks` (block.dfy): the `Block` class. It holds `Valid`, the mutable
  `previousHash`, `nonce` and `hash`, and `ProofOfWork`, the mining loop.
- `Ledger` (ledger.dfy): two balance replays.
  - The point balance of `calculate_balance` debits "System" like anyone else.
  - The range replay of `update_balances` keeps current, min and max per
    identity and never debits "System".
  - Their relations are proved here, among them conservation and the keys of
    the range replay.
- `Chain` (blockchain.dfy): the `Blockchain` class and `ChainInvariant`, which
  `AddBlock` preserves. The invariant says every block is mined, genesis is
  linked to `"0"`, every later block names its predecessor's stored hash, and
  the chain tree's leaves are the digests of every block's hash except
  genesis.

Where the intended design and the code disagree, the model follows the code:

- **Genesis is never fed to the chain tree.** The rebuilt root in phase 1 of
  `is_chain_valid` covers every block, genesis included. So a chain fresh from
  its constructor fails its own check (`NewChainFailsCheck`). A longer chain
  fails it too as long as the two roots differ. That holds for SHA-256 in
  practice, but it rests on the absence of collisions, which the model does not
  assume: for some hash functions the two roots coincide.
- **Pending debits count.** `calculate_balance` counts pending transactions,
  so a second spend is judged against the balance the first one already
  reduced (`AdmissionKeepsSenderSolvent`).
- **"System" is debited in the point balance.** Only the range replay exempts
  it, so the point balance of "System" goes negative (`GenesisBalances`).
- **A negative amount is admitted.** `add_transaction` compares the balance
  with the amount only, so a negative amount passes against any non-negative
  balance. The transfer then credits the sender and debits the recipient
  (`NegativeAmountReverses`).
- **A self-transfer records a balance between transactions.**
  `update_balances` debits the sender before it credits the recipient, and
  folds the balance after each of the two steps into `min` and `max`. A
  transfer to oneself therefore returns the balance to where it was, but
  `min` is then at most `amount` below it (`SelfTransferDips`). That balance
  held only halfway through the transaction. So `min` and `max` enclose the
  balance after every transaction (`ReplayEnvelope`), but an identity's
  balance need not reach them at any transaction boundary.
- **A block's tree is built once.** The tree over a block's transactions is
  filled in its constructor and never rebuilt. So `calculate_hash`, and with it
  `is_chain_valid`, cannot notice a later change to a transaction's fields. The
  model keeps the transactions and the root as constants, so such a change
  cannot be expressed in it.
- **The proof-of-work loop tests the stored hash.** A block whose stale stored
  hash already meets the target is kept unchanged. That happens in `add_block`,
  which relinks a block without recomputing its hash.

## Model

| member | source | states |
|---|---|---|
| Hashing.Decimal | Block.py:23 | `str(n)` of a natural number is non-empty and starts with a digit |
| Hashing.IntToDecimal | Transaction.py:9 | `str(i)` is non-empty and starts with a minus sign exactly when `i` is negative |
| Hashing.DecimalRoundTrip | Block.py:23 | `str(n)` is all digits, has no leading zero, and reading the digits back gives `n` |
| Hashing.DecimalInjective | Block.py:23 | different numbers have different decimal texts |
| Transactions.Transaction.Repr | Transaction.py:8-9 | (no contract) the `__repr__` text: every field in declaration order, the amount in decimal, a missing memo as `None`; it is only ever a Merkle leaf input (`Blocks.Reprs`) |
| Transactions.GenesisTransactions | Blockchain.py:17-20 | the genesis list holds exactly two transactions, both sent by "System" |
| Merkle.Pad | Merkle_Tree.py:44-46 | an odd level gains exactly one node on the right, a leaf node over the last digest and so its digest `h(last)` (the leaf rule of `calculate_hash`, lines 20-22); an even level is unchanged; the result has even length |
| Merkle.Pair | Merkle_Tree.py:47-50 | an even level of `n` nodes becomes `n/2` digests, node `j` hashing nodes `2j` and `2j+1`, left then right (the inner-node rule of `calculate_hash`, lines 23-25) |
| Merkle.NextLevel | Merkle_Tree.py:44-51 | one pass maps `n` nodes to `ceil(n/2)` digests, strictly fewer but at least one when `n > 1`, which is the rebuild loop's termination measure |
| Merkle.ReduceLevels | Merkle_Tree.py:43-52 | repeated passes end in one node, a digest whenever the level held digests or more than one node |
| Merkle.MerkleRoot | Merkle_Tree.py:41-56 | the root of no leaves is `""`; the root of digest leaves is a digest |
| Merkle.RootEmptyIff | Merkle_Tree.py:52-56 | for digest leaves, the root is `""` if and only if there are no leaves |
| Merkle.RootOfOne | Merkle_Tree.py:43 | a single leaf is its own root (the loop does not run) |
| Merkle.RootOfTwo | Merkle_Tree.py:48-50 | two leaves give `h(a + b)` |
| Merkle.RootOfThree | Merkle_Tree.py:44-50 | three leaves give `h(h(a + b) + h(c + h(c)))`: the third is paired with the digest of its digest |
| Merkle.RootOfFour | Merkle_Tree.py:48-50 | four leaves give `h(h(a + b) + h(c + d))` |
| Merkle.PaddingIsExplicit | Merkle_Tree.py:44-46 | above one leaf, appending by hand the padding an odd level would get leaves the root unchanged; with one leaf it does change the root |
| Merkle.PairLevel | Merkle_Tree.py:47-50 | the pairing loop over an even level computes `Pair` |
| Merkle.MerkleTree.constructor | Merkle_Tree.py:30-32 | a new tree has no leaves and no root |
| Merkle.MerkleTree.Add | Merkle_Tree.py:35-38 | exactly one leaf `h(data)` is appended, the earlier leaves kept; the root is then the root of the new leaves |
| Merkle.MerkleTree.RecalculateTree | Merkle_Tree.py:41-52 | the leaves are unchanged, padding going only to a copy; the root is none for no leaves and otherwise the `MerkleRoot` of the leaves |
| Merkle.MerkleTree.RootHash | Merkle_Tree.py:55-56 | for a consistent tree, the root digest or `""`, and `""` exactly when there are no leaves |
| Merkle.SameInputsSameRoot | Merkle_Tree.py:35-56 | two trees fed the same inputs in the same order have equal roots, determined by the leaf digests alone |
| Merkle.LeafDigests | Merkle_Tree.py:35-37 | after adding inputs in order, leaf `i` is the digest of input `i` |
| Merkle.LeafDigestsSnoc | Merkle_Tree.py:35-37 | one more input appends its digest to the leaves |
| Merkle.LeafDigestsPrefix | Merkle_Tree.py:35-37 | leaves after `i + 1` inputs are the leaves after `i` inputs plus the digest of input `i` |
| Blocks.MinedIff | Block.py:30-32 | a hash meets difficulty `d` if and only if its first `d` characters exist and are all '0' |
| Blocks.MinedIsZeroSlice | Block.py:30-32 | this agrees with the slice comparison `s[:d] == '0' * d`, a short hash included |
| Blocks.MinedMonotone | Block.py:30-32 | a hash meeting a target meets every lower one and difficulty 0, and is at least `d` long |
| Blocks.Reprs | Block.py:14-16 | the leaf inputs are the transactions' texts, one per transaction, in order |
| Blocks.LeavesOfPrefix | Block.py:14-16 | one more transaction adds the digest of its text as the next leaf |
| Blocks.BuildTree | Block.py:13-16 | the constructor's loop ends with the root of the tree over the transactions' texts in order |
| Blocks.Block.CalculateHash | Block.py:21-25 | (no contract) reads the fields and changes nothing; the property it carries is stated by `Blocks.NoncesHashDistinctTexts` |
| Blocks.NoncesHashDistinctTexts | Block.py:21-25 | different nonces give different texts to hash |
| Blocks.MissesExtend | Block.py:32-34 | "every nonce tried so far missed" extends by one failed nonce |
| Blocks.Block.constructor | Block.py:5-18 | after construction, the fields are as given, the nonce is 0, the root is that of the transactions' tree, and the stored hash matches the fields |
| Blocks.Block.ProofOfWork | Block.py:28-34 | on return the stored hash meets the target. A stored hash that already met it is kept, stale or not, with the nonce. Otherwise the nonce rose and the hash matches the fields. Consistency on entry is kept. Every nonce skipped missed the target, so the first one that met it was taken |
| Blocks.MineAgain | Block.py:28-34 | mining a mined block again at the same or lower difficulty, then at difficulty 0, changes neither nonce nor hash |
| Ledger.Delta | Blockchain.py:99-102 | one transaction credits its recipient, debits its sender, leaves others alone, and nets 0 for a self-transfer |
| Ledger.BalanceSnoc | Blockchain.py:97-102 | one more transaction adds its effect to the point balance |
| Ledger.BalanceAppend | Blockchain.py:96-108 | the balance over chain then pending transactions is the sum of the two balances |
| Ledger.AdmissionKeepsSenderSolvent | Blockchain.py:88-89 | a transaction admitted with a non-negative amount leaves its sender's balance, pending ones included, non-negative |
| Ledger.NegativeAmountReverses | Blockchain.py:88-89 | a negative amount passes the admission test against any non-negative balance and then raises the sender's balance and lowers the recipient's |
| Ledger.TotalSnoc | Blockchain.py:97-102 | over distinct identities, one transaction adds its amount for a listed recipient and subtracts it for a listed sender |
| Ledger.Conservation | Blockchain.py:94-108 | over distinct identities naming every party, point balances sum to zero |
| Ledger.TotalOfNothing | Blockchain.py:96 | with no transactions every listed balance is 0 |
| Ledger.GenesisBalances | Blockchain.py:94-108 | after genesis, Alice has 1000, Bob 500 and "System" -1500 |
| Ledger.Post | Blockchain.py:71-76 | posting to an identity sets its current balance to the old one (0 for a new identity) plus the amount; a new entry, and an old one that was bounded, then keep `min <= current <= max`, min and max only widening; every other entry is left alone |
| Ledger.ReplaySnoc | Blockchain.py:82-83 | replaying one more transaction applies its transfer to the replayed map |
| Ledger.ReplayAppend | Blockchain.py:81-83 | replaying block after block is replaying their concatenation |
| Ledger.ExemptDelta | Blockchain.py:70-76 | the range replay's effect is the point balance's, except that "System" is never debited |
| Ledger.TouchedSnoc | Blockchain.py:70-74 | one more transaction touches an identity exactly when it credits it, or debits it and it is not "System" |
| Ledger.ReplayBounded | Blockchain.py:72-76 | replaying from entries that keep `min <= current <= max` gives entries that keep it, whatever the transactions |
| Ledger.TransferWidens | Blockchain.py:70-76 | one transfer keeps an existing bounded entry and only lowers its `min` and raises its `max` |
| Ledger.ReplayEnvelope | Blockchain.py:70-83 | `min` and `max` of an identity's final entry enclose the current balance it had after every prefix of the replayed transactions |
| Ledger.SelfTransferDips | Blockchain.py:70-76 | a transfer to oneself, "System" aside, leaves the current balance as it was but records a `min` at least `amount` below it |
| Ledger.ReplayKeys | Blockchain.py:70-80 | an identity has an entry exactly when a transaction credits it or debits it and it is not "System" |
| Ledger.ReplayCurrent | Blockchain.py:71-74 | an entry's current balance is the exempt replay; an identity with no entry has exempt balance 0 |
| Ledger.ExemptAgreesOffSystem | Blockchain.py:68-102 | both replays agree on every identity except "System" |
| Ledger.BalanceSheet.constructor | Blockchain.py:80 | the dictionary starts empty |
| Chain.States | Blockchain.py:9 | the block states in chain order |
| Chain.BlockHashes | Blockchain.py:39-40 | the stored hashes in chain order, as fed to the rebuilt tree |
| Chain.Hashes | Blockchain.py:61 | each state's stored hash |
| Chain.BlockHashesOfStates | Blockchain.py:39-40 | the hashes fed to the rebuilt tree are the hashes of the block states the invariant speaks of |
| Chain.StatesSnoc | Blockchain.py:29 | appending a block appends its state |
| Chain.HashesSnoc | Blockchain.py:29 | appending a block appends its hash |
| Chain.PreviousHashes | Blockchain.py:61 | each state's previous hash |
| Chain.PreviousHashesSnoc | Blockchain.py:27-29 | appending a block appends its previous hash |
| Chain.LinkedIff | Blockchain.py:60-64 | the chain is linked if and only if every block after the first names its predecessor's stored hash |
| Chain.LinkedSnoc | Blockchain.py:27-29 | a block naming the tip's hash keeps the chain linked |
| Chain.InvariantSnoc | Blockchain.py:25-30 | appending a mined block relinked to the tip, with its hash's digest added to the tree, keeps the chain invariant |
| Chain.GenesisInvariant | Blockchain.py:21-23 | a lone mined block linked to `"0"` with an empty tree meets the invariant |
| Chain.HistorySnoc | Blockchain.py:97-98 | the transactions of one more block follow the earlier ones |
| Chain.ReplayCount | Blockchain.py:81 | `range(min(k + 1, n))` replays `k + 1` blocks inside the chain, all of them past it, none for negative `k` |
| Chain.Blockchain.NewChainFailsCheck | Blockchain.py:36-47 | a chain fresh from its constructor fails `is_chain_valid`: its tree root is `""` while the rebuilt root covers genesis |
| Chain.Blockchain.constructor | Blockchain.py:8-13 | one mined block linked to `"0"` holding the genesis credits; no pending transactions; a new empty chain tree; the chain invariant holds |
| Chain.MineGenesis | Blockchain.py:21-22 | the genesis block is new, linked to `"0"`, holds the two genesis credits, is consistent with its tree, and is mined with a hash matching its fields |
| Chain.Blockchain.CreateGenesisBlock | Blockchain.py:15-23 | appends one new block, linked to `"0"`, consistent with its tree, mined, with a hash matching its fields; nothing earlier changes |
| Chain.Blockchain.AddBlock | Blockchain.py:25-30 | keeps the invariant; the block is relinked to the old tip's hash, mined, and appended last, earlier blocks kept; the tree gains exactly the digest of its hash; a stale hash that met the target is kept |
| Chain.Blockchain.Append | Blockchain.py:29-30 | a mined block linked to the tip joins the chain and its hash's digest joins the tree, keeping the invariant |
| Chain.Blockchain.GetLatestBlock | Blockchain.py:32-34 | the tip; on a valid chain it meets the target and, past genesis, names the hash of the block before it |
| Chain.Blockchain.TipFacts | Blockchain.py:27-28 | on a valid chain the tip that `add_block` links to is mined and linked to its predecessor |
| Chain.Blockchain.CalculateBlockchainRootHash | Blockchain.py:36-41 | the root of a fresh tree fed every block's stored hash in chain order, genesis included |
| Chain.RootOfHashes | Blockchain.py:38-41 | the loop over a fresh tree, one `add` per hash in order, ends with the root of those hashes' digests |
| Chain.Blockchain.IsChainValid | Blockchain.py:43-66 | true if and only if the incremental root equals the rebuilt one and every block after genesis has a hash matching its fields and names its predecessor's hash |
| Chain.Blockchain.CheckBlocks | Blockchain.py:50-66 | the loop of phase 2 answers false at the first block that fails either test, and true if none does |
| Chain.Blockchain.CalculateBalance | Blockchain.py:94-108 | the point balance over every block's transactions, then the pending ones |
| Chain.Blockchain.AddTransaction | Blockchain.py:86-92 | queues the transaction if and only if the sender's balance, pending ones included, covers the amount; otherwise pending is unchanged; the chain never changes |
| Chain.Blockchain.UpdateBalances | Blockchain.py:68-76 | the dictionary becomes the transfer of the old one: the sender debited unless it is "System", then the recipient credited |
| Chain.Blockchain.ReplayInto | Blockchain.py:82-83 | the dictionary becomes the replay of the old one over the block's transactions, in order |
| Chain.Blockchain.CalculateBalancesUntil | Blockchain.py:78-84 | a new dictionary holding the range replay of the transactions of the first `min(k + 1, n)` blocks, pending ones ignored; every entry keeps `min <= current <= max`; `Ledger.ReplayEnvelope` shows those bounds enclose the balance after every transaction replayed |
| Chain.SumInto | Blockchain.py:98-107 | the inner loop adds the point balance of one list of transactions to a running balance |

## Left out

- SHA-256 itself: `hash_data` is the parameter `h`, known only to return 64-character digests. No property of collisions is used or proved.
- The `print` calls of `proof_of_work` and `add_transaction`: `AddTransaction` returns which of the two messages would be printed.
- `defaultdict`'s `float('inf')` and `float('-inf')` defaults: an identity's first posting creates its entry with current, min and max all equal to the new balance. The infinities are always replaced at once, so the result is the same.
- Blocks.Block.ProofOfWork: termination of the unbounded search is not proved from the hash. The precondition `CanMine` says that the stored hash already meets the target or that some later nonce does. `Chain.GenesisMineable` and `AddBlock`'s precondition carry the same assumption.
- Difficulty is a natural number. The source never validates it, and a negative difficulty makes the slice compare differently.
- Chain.Blockchain.AddBlock: requires the block not to be in the chain already; re-adding a block the chain holds (aliasing) is not modelled.
- A block's Merkle tree is kept as its root (`merkleRoot`). That tree is never changed after the constructor, so only its root is observed.
- Chain.Blockchain.Valid: does not restate that each block's stored root is the root of its own transactions' tree. `Block`'s constructor and `CreateGenesisBlock` state it for each block made.
- Chain.Blockchain.AddBlock: states what happens to `pendingTransactions` only through its `modifies` clause, which leaves them unchanged.
- The effect of `add_transaction` on the chain invariant follows from framing: it changes only the pending list.
- Tampering with a block's fields from outside the class is not modelled; `IsChainValid` is specified for any state, tampered or not.
- The default argument `difficulty=4` of `Blockchain` (Blockchain.py:8): the constructor always takes the difficulty.
- The default argument `previous_hash=''` of `Block` (Block.py:5): the constructor always takes the previous hash; `""` may be passed.
- Transaction.py's constructor: the transaction is a datatype value, and fields are given positionally.
