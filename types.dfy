/**
 * The node's data model (block.go, transaction.go). Both are plain values:
 * Go compares them field by field, and so does Dafny.
 */
module Types {
  import opened Crypto

  /** A transfer of `amount` from `sender` to `recipient`. Reward transactions
      have the sender "MINING" and an empty signature. Go stores the amount as
      a float64; here it is an exact real. */
  datatype Transaction = Transaction(sender: string, recipient: string, amount: real, signature: string)

  /** A block: the hash of its predecessor, its position, its transactions
      (the reward last when mined locally) and its proof-of-work nonce. */
  datatype Block = Block(previousHash: string, index: int, transactions: seq<Transaction>, proof: Nonce)

  /** The all-default block `Block{}` a fresh chain starts with. */
  const Genesis: Block := Block("", 0, [], 0)

  /** The sender of every block reward. */
  const MiningSender: string := "MINING"

  /** MiningReward. */
  const MiningReward: real := 10.0

  type NodeCodec = Codec<Block, Transaction>

  /** The reward transaction a miner adds after the pool. */
  function Reward(miner: string): Transaction
  {
    Transaction(MiningSender, miner, MiningReward, "")
  }
}
