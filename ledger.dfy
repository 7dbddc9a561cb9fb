/**
 * Balance accounting shared by the node ledger (blockchain.go,
 * GetBalanceWithSender): what a participant received in confirmed blocks,
 * minus what it sent in confirmed blocks and in the pool of open
 * transactions.
 */
module Accounts {
  import opened Util
  import opened Types

  /** Total amount `p` sends in `txs`. */
  function SentBy(txs: seq<Transaction>, p: string): real
  {
    if txs == [] then 0.0
    else SentBy(AllButLast(txs), p) + (if Last(txs).sender == p then Last(txs).amount else 0.0)
  }

  /** Total amount `p` receives in `txs`. */
  function ReceivedBy(txs: seq<Transaction>, p: string): real
  {
    if txs == [] then 0.0
    else ReceivedBy(AllButLast(txs), p) + (if Last(txs).recipient == p then Last(txs).amount else 0.0)
  }

  /** Total amount `p` sends in the blocks of `chain`. */
  function SentInChain(chain: seq<Block>, p: string): real
  {
    if chain == [] then 0.0 else SentInChain(AllButLast(chain), p) + SentBy(Last(chain).transactions, p)
  }

  /** Total amount `p` receives in the blocks of `chain`. */
  function ReceivedInChain(chain: seq<Block>, p: string): real
  {
    if chain == [] then 0.0 else ReceivedInChain(AllButLast(chain), p) + ReceivedBy(Last(chain).transactions, p)
  }

  /** The balance of `p`: received in the chain minus (sent in the chain plus
      sent in the pool). Amounts received in the pool do not count yet. */
  function Balance(chain: seq<Block>, pool: seq<Transaction>, p: string): real
  {
    ReceivedInChain(chain, p) - (SentInChain(chain, p) + SentBy(pool, p))
  }

  /** The balance lookup handed to verifyTransaction. */
  function BalanceOf(chain: seq<Block>, pool: seq<Transaction>): string -> real
  {
    (p: string) => Balance(chain, pool, p)
  }

  lemma {:induction false} SentByAppend(a: seq<Transaction>, b: seq<Transaction>, p: string)
    ensures SentBy(a + b, p) == SentBy(a, p) + SentBy(b, p)
    decreases |b|
  {
    if b == [] {
      assert a + b == a;
    } else {
      assert AllButLast(a + b) == a + AllButLast(b);
      assert Last(a + b) == Last(b);
      SentByAppend(a, AllButLast(b), p);
    }
  }

  lemma {:induction false} ReceivedByAppend(a: seq<Transaction>, b: seq<Transaction>, p: string)
    ensures ReceivedBy(a + b, p) == ReceivedBy(a, p) + ReceivedBy(b, p)
    decreases |b|
  {
    if b == [] {
      assert a + b == a;
    } else {
      assert AllButLast(a + b) == a + AllButLast(b);
      assert Last(a + b) == Last(b);
      ReceivedByAppend(a, AllButLast(b), p);
    }
  }

  /** An empty chain prefix and an empty pool hold no money for anybody; in
      particular the fresh chain `[Genesis]` gives every participant 0. */
  lemma GenesisBalance(p: string)
    ensures Balance([Genesis], [], p) == 0.0
  {
    assert AllButLast([Genesis]) == [] && Last([Genesis]).transactions == [];
    assert SentInChain([Genesis], p) == 0.0 && ReceivedInChain([Genesis], p) == 0.0;
  }

  /** Admitting `tx` to the pool lowers the sender's balance by exactly its
      amount and leaves every other participant's balance unchanged. */
  lemma BalanceAfterAdmission(chain: seq<Block>, pool: seq<Transaction>, tx: Transaction, p: string)
    ensures Balance(chain, pool + [tx], p)
         == Balance(chain, pool, p) - (if tx.sender == p then tx.amount else 0.0)
  {
    AppendParts(pool, tx);
  }

  /** Once a spend is pending, a second spend by the same sender that exceeds
      what is left is refused; the balance after the first spend is not
      negative. */
  lemma NoDoubleSpend(chain: seq<Block>, pool: seq<Transaction>, tx: Transaction, next: Transaction)
    requires BalanceOf(chain, pool)(tx.sender) >= tx.amount
    requires next.sender == tx.sender
    requires next.amount > Balance(chain, pool, tx.sender) - tx.amount
    ensures Balance(chain, pool + [tx], tx.sender) >= 0.0
    ensures BalanceOf(chain, pool + [tx])(next.sender) < next.amount
  {
    BalanceAfterAdmission(chain, pool, tx, tx.sender);
  }

  /**
   * Confirming the pool in a block with a reward for `miner` (and emptying
   * the pool) keeps every pending debit, makes the pool's credits count, and
   * adds the reward to the miner (taking it from "MINING").
   */
  lemma BalanceAfterMining(chain: seq<Block>, pool: seq<Transaction>, b: Block, miner: string, p: string)
    requires b.transactions == pool + [Reward(miner)]
    ensures Balance(chain + [b], [], p)
         == Balance(chain, pool, p) + ReceivedBy(pool, p)
            + (if p == miner then MiningReward else 0.0)
            - (if p == MiningSender then MiningReward else 0.0)
  {
    AppendParts(chain, b);
    SentByAppend(pool, [Reward(miner)], p);
    ReceivedByAppend(pool, [Reward(miner)], p);
    assert AllButLast([Reward(miner)]) == [];
  }
}
