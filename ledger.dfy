/** Balances derived by replaying transactions.

    Two replays exist. The point balance sums every transaction that names an
    identity, with no exemption: "System" is debited like anyone else. The
    range replay keeps, per identity, the current balance and the lowest and
    highest balance seen, and never debits "System". */
module Ledger {
  import opened Transactions

  /** What one transaction does to one identity's point balance. */
  function Delta(t: Transaction, who: string): (r: int)
    ensures t.sender == t.recipient ==> r == 0
    ensures t.recipient == who && t.sender != who ==> r == t.amount
    ensures t.sender == who && t.recipient != who ==> r == -t.amount
    ensures t.sender != who && t.recipient != who ==> r == 0
  {
    (if t.recipient == who then t.amount else 0) - (if t.sender == who then t.amount else 0)
  }

  /** The point balance over a transaction history. */
  function Balance(txs: seq<Transaction>, who: string): int {
    if txs == [] then 0 else Balance(txs[..|txs| - 1], who) + Delta(txs[|txs| - 1], who)
  }

  lemma BalanceSnoc(txs: seq<Transaction>, t: Transaction, who: string)
    ensures Balance(txs + [t], who) == Balance(txs, who) + Delta(t, who)
  {
    assert (txs + [t])[..|txs|] == txs;
  }

  /** Replaying two histories one after the other adds their balances. */
  lemma {:induction false} BalanceAppend(a: seq<Transaction>, b: seq<Transaction>, who: string)
    ensures Balance(a + b, who) == Balance(a, who) + Balance(b, who)
    decreases |b|
  {
    if b == [] {
      assert a + b == a;
    } else {
      var init, last := b[..|b| - 1], b[|b| - 1];
      assert a + b == (a + init) + [last];
      assert b == init + [last];
      BalanceSnoc(a + init, last, who);
      BalanceSnoc(init, last, who);
      BalanceAppend(a, init, who);
    }
  }

  /** A transaction admitted because the sender's balance covered a
      non-negative amount leaves the sender with a non-negative balance:
      pending debits are part of the balance the next admission sees. */
  lemma AdmissionKeepsSenderSolvent(txs: seq<Transaction>, t: Transaction)
    requires 0 <= t.amount <= Balance(txs, t.sender)
    ensures Balance(txs + [t], t.sender) >= 0
  {
    BalanceSnoc(txs, t, t.sender);
  }

  /** The admission test compares the balance with the amount only, so a
      negative amount passes against any non-negative balance; the transfer
      then runs backwards, crediting the sender and debiting the recipient. */
  lemma NegativeAmountReverses(txs: seq<Transaction>, t: Transaction)
    requires t.amount < 0 && t.sender != t.recipient
    ensures Balance(txs, t.sender) >= 0 ==> Balance(txs, t.sender) >= t.amount
    ensures Balance(txs + [t], t.sender) == Balance(txs, t.sender) - t.amount > Balance(txs, t.sender)
    ensures Balance(txs + [t], t.recipient) == Balance(txs, t.recipient) + t.amount < Balance(txs, t.recipient)
  {
    BalanceSnoc(txs, t, t.sender);
    BalanceSnoc(txs, t, t.recipient);
  }

  /** Sum of the point balances of a list of identities. */
  function Total(ids: seq<string>, txs: seq<Transaction>): int {
    if ids == [] then 0 else Total(ids[..|ids| - 1], txs) + Balance(txs, ids[|ids| - 1])
  }

  predicate Distinct(ids: seq<string>) {
    forall i, j :: 0 <= i < j < |ids| ==> ids[i] != ids[j]
  }

  /** Summed over distinct identities, one transaction moves its amount in
      for the recipient and out for the sender, when they are listed. */
  lemma {:induction false} TotalSnoc(ids: seq<string>, txs: seq<Transaction>, t: Transaction)
    requires Distinct(ids)
    ensures Total(ids, txs + [t]) == Total(ids, txs)
      + (if t.recipient in ids then t.amount else 0) - (if t.sender in ids then t.amount else 0)
    decreases |ids|
  {
    if ids != [] {
      var init, last := ids[..|ids| - 1], ids[|ids| - 1];
      assert ids == init + [last];
      assert last !in init;
      TotalSnoc(init, txs, t);
      BalanceSnoc(txs, t, last);
    }
  }

  /** Transfers create and destroy nothing: over any list of distinct
      identities that names every sender and recipient, the point balances
      sum to zero ("System" ends up owing what it credited). */
  lemma {:induction false} Conservation(ids: seq<string>, txs: seq<Transaction>)
    requires Distinct(ids)
    requires forall i :: 0 <= i < |txs| ==> txs[i].sender in ids && txs[i].recipient in ids
    ensures Total(ids, txs) == 0
    decreases |txs|
  {
    if txs == [] {
      TotalOfNothing(ids);
    } else {
      var init, last := txs[..|txs| - 1], txs[|txs| - 1];
      assert txs == init + [last];
      Conservation(ids, init);
      TotalSnoc(ids, init, last);
    }
  }

  lemma {:induction false} TotalOfNothing(ids: seq<string>)
    ensures Total(ids, []) == 0
    decreases |ids|
  {
    if ids != [] {
      TotalOfNothing(ids[..|ids| - 1]);
    }
  }

  /** Genesis credits Alice 1000 and Bob 500; "System", not exempt from the
      point balance, is 1500 in debt. */
  lemma GenesisBalances()
    ensures Balance(GenesisTransactions(), "Alice") == 1000
    ensures Balance(GenesisTransactions(), "Bob") == 500
    ensures Balance(GenesisTransactions(), System) == -1500
  {
    var g := GenesisTransactions();
    assert g[..1][..0] == [];
    assert g[..1] == [g[0]];
  }

  // ---------------- range replay ----------------

  /** One identity's entry: `current`, and the lowest and highest seen. */
  datatype Range = Range(current: int, min: int, max: int)

  predicate Bounded(e: Range) {
    e.min <= e.current <= e.max
  }

  function Min(a: int, b: int): int { if a <= b then a else b }
  function Max(a: int, b: int): int { if a >= b then a else b }

  /** Posts a signed amount to one identity. A new entry starts from a
      current balance of 0, with no minimum or maximum yet seen. */
  function Post(m: map<string, Range>, who: string, delta: int): (r: map<string, Range>)
    ensures r.Keys == m.Keys + {who}
    ensures forall x :: x in m && x != who ==> r[x] == m[x]
    ensures r[who].current == (if who in m then m[who].current else 0) + delta
    ensures who !in m ==> Bounded(r[who])
    ensures who in m && Bounded(m[who]) ==> Bounded(r[who]) && r[who].min <= m[who].min && m[who].max <= r[who].max
  {
    if who in m then
      var c := m[who].current + delta;
      m[who := Range(c, Min(m[who].min, c), Max(m[who].max, c))]
    else
      m[who := Range(delta, delta, delta)]
  }

  /** The range replay's rule for one transaction: the sender is debited
      unless it is "System", then the recipient is credited. */
  function Transfer(m: map<string, Range>, sender: string, recipient: string, amount: int): map<string, Range> {
    var debited := if sender != System then Post(m, sender, -amount) else m;
    Post(debited, recipient, amount)
  }

  function Replay(m: map<string, Range>, txs: seq<Transaction>): map<string, Range> {
    if txs == [] then m
    else
      var t := txs[|txs| - 1];
      Transfer(Replay(m, txs[..|txs| - 1]), t.sender, t.recipient, t.amount)
  }

  lemma ReplaySnoc(m: map<string, Range>, txs: seq<Transaction>, t: Transaction)
    ensures Replay(m, txs + [t]) == Transfer(Replay(m, txs), t.sender, t.recipient, t.amount)
  {
    assert (txs + [t])[..|txs|] == txs;
  }

  /** Replaying two histories one after the other is replaying their
      concatenation. */
  lemma {:induction false} ReplayAppend(m: map<string, Range>, a: seq<Transaction>, b: seq<Transaction>)
    ensures Replay(m, a + b) == Replay(Replay(m, a), b)
    decreases |b|
  {
    if b == [] {
      assert a + b == a;
    } else {
      var init, last := b[..|b| - 1], b[|b| - 1];
      assert a + b == (a + init) + [last];
      assert b == init + [last];
      ReplaySnoc(m, a + init, last);
      ReplaySnoc(Replay(m, a), init, last);
      ReplayAppend(m, a, init);
    }
  }

  /** The range replay's view of one transaction: like Delta, except that
      "System" is never debited. */
  function ExemptDelta(t: Transaction, who: string): (r: int)
    ensures who != System ==> r == Delta(t, who)
    ensures who == System ==> r == (if t.recipient == System then t.amount else 0)
  {
    (if t.recipient == who then t.amount else 0) - (if t.sender == who && who != System then t.amount else 0)
  }

  function ExemptBalance(txs: seq<Transaction>, who: string): int {
    if txs == [] then 0 else ExemptBalance(txs[..|txs| - 1], who) + ExemptDelta(txs[|txs| - 1], who)
  }

  /** The transaction credits the identity, or debits it when it is not
      "System". */
  predicate Hits(t: Transaction, who: string) {
    t.recipient == who || (t.sender == who && who != System)
  }

  /** Some transaction of the history hits the identity. */
  predicate Touched(txs: seq<Transaction>, who: string) {
    exists i :: 0 <= i < |txs| && Hits(txs[i], who)
  }

  lemma TouchedSnoc(txs: seq<Transaction>, who: string)
    requires txs != []
    ensures Touched(txs, who) <==> Touched(txs[..|txs| - 1], who) || Hits(txs[|txs| - 1], who)
  {
    var init := txs[..|txs| - 1];
    if Touched(init, who) {
      var i :| 0 <= i < |init| && Hits(init[i], who);
      assert txs[i] == init[i];
    }
    if Touched(txs, who) && !Hits(txs[|txs| - 1], who) {
      var i :| 0 <= i < |txs| && Hits(txs[i], who);
      assert init[i] == txs[i];
    }
  }

  /** Every entry the range replay produces keeps `min <= current <= max`,
      when the entries it starts from do. */
  lemma {:induction false} ReplayBounded(m: map<string, Range>, txs: seq<Transaction>)
    requires forall x :: x in m ==> Bounded(m[x])
    ensures forall x :: x in Replay(m, txs) ==> Bounded(Replay(m, txs)[x])
    decreases |txs|
  {
    if txs != [] {
      ReplayBounded(m, txs[..|txs| - 1]);
    }
  }

  /** One transfer only widens an existing bounded entry's range. */
  lemma TransferWidens(m: map<string, Range>, t: Transaction, who: string)
    requires who in m && Bounded(m[who])
    ensures who in Transfer(m, t.sender, t.recipient, t.amount)
    ensures Transfer(m, t.sender, t.recipient, t.amount)[who].min <= m[who].min
    ensures m[who].max <= Transfer(m, t.sender, t.recipient, t.amount)[who].max
  {
    var debited := if t.sender != System then Post(m, t.sender, -t.amount) else m;
    assert who in debited && Bounded(debited[who]) && debited[who].min <= m[who].min && m[who].max <= debited[who].max;
  }

  /** The final range of an identity encloses every current balance it had
      after any prefix of the transactions: `min` and `max` are the lowest
      and highest balance ever recorded. */
  lemma {:induction false} ReplayEnvelope(m: map<string, Range>, txs: seq<Transaction>, j: nat, who: string)
    requires forall x :: x in m ==> Bounded(m[x])
    requires j <= |txs| && who in Replay(m, txs[..j])
    ensures who in Replay(m, txs)
    ensures Replay(m, txs)[who].min <= Replay(m, txs[..j])[who].current <= Replay(m, txs)[who].max
    decreases |txs|
  {
    if j == |txs| {
      assert txs[..j] == txs;
      ReplayBounded(m, txs);
    } else {
      var init := txs[..|txs| - 1];
      assert txs[..j] == init[..j];
      ReplayEnvelope(m, init, j, who);
      ReplayBounded(m, init);
      TransferWidens(Replay(m, init), txs[|txs| - 1], who);
    }
  }

  /** A self-transfer is debited before it is credited: the balance comes
      back to where it was, but the recorded minimum has seen it `amount`
      lower, a balance no transaction boundary shows. */
  lemma SelfTransferDips(m: map<string, Range>, who: string, amount: int)
    requires who != System
    ensures who in Transfer(m, who, who, amount)
    ensures Transfer(m, who, who, amount)[who].current == (if who in m then m[who].current else 0)
    ensures Transfer(m, who, who, amount)[who].min <= (if who in m then m[who].current else 0) - amount
  {
    var debited := Post(m, who, -amount);
    assert debited[who].current == (if who in m then m[who].current else 0) - amount;
  }

  /** The range replay holds an entry exactly for the touched identities,
      so "System" has one only when it has received something. */
  lemma {:induction false} ReplayKeys(txs: seq<Transaction>, who: string)
    ensures who in Replay(map[], txs) <==> Touched(txs, who)
    decreases |txs|
  {
    if txs != [] {
      ReplayKeys(txs[..|txs| - 1], who);
      TouchedSnoc(txs, who);
    }
  }

  /** An entry's current balance is the exempt replay of the history, and an
      identity without an entry has an exempt balance of 0. */
  lemma {:induction false} ReplayCurrent(txs: seq<Transaction>, who: string)
    ensures (if who in Replay(map[], txs) then Replay(map[], txs)[who].current else 0) == ExemptBalance(txs, who)
    decreases |txs|
  {
    if txs != [] {
      ReplayCurrent(txs[..|txs| - 1], who);
    }
  }

  /** The two replays agree on every identity other than "System". */
  lemma {:induction false} ExemptAgreesOffSystem(txs: seq<Transaction>, who: string)
    requires who != System
    ensures ExemptBalance(txs, who) == Balance(txs, who)
    decreases |txs|
  {
    if txs != [] {
      ExemptAgreesOffSystem(txs[..|txs| - 1], who);
    }
  }

  /** `user_balances`: the dictionary the range replay fills in place. */
  class BalanceSheet {
    var entries: map<string, Range>

    constructor ()
      ensures entries == map[]
    {
      entries := map[];
    }
  }
}
