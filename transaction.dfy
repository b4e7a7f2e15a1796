/** A transfer of an amount from a sender to a recipient, with an optional memo.
    It has no behaviour beyond its canonical text, which is the block's
    Merkle leaf input. */
module Transactions {
  import opened Hashing

  /** The sender whose debits the range replay ignores (genesis credits). */
  const System: string := "System"

  /** The parts, concatenated in order. */
  function Join(parts: seq<string>): string {
    if parts == [] then "" else Join(parts[..|parts| - 1]) + parts[|parts| - 1]
  }

  datatype Transaction = Transaction(sender: string, recipient: string, amount: int, data: Option<string>)
  {
    /** `__repr__`: every field, in declaration order; a missing memo prints as `None`. */
    function Repr(): string
    {
      Join(["Transaction(sender=", sender, ", recipient=", recipient, ", amount=", IntToDecimal(amount),
            ", data=", match data case None => "None" case Some(d) => d, ")"])
    }
  }

  /** The two credits the genesis block carries. */
  function GenesisTransactions(): (txs: seq<Transaction>)
    ensures |txs| == 2
    ensures forall i :: 0 <= i < |txs| ==> txs[i].sender == System
  {
    [ Transaction(System, "Alice", 1000, Some("Initial balance")),
      Transaction(System, "Bob", 500, Some("Initial balance")) ]
  }
}
