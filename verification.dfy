/**
 * The node's validation rules (verification.go): stateless predicates over
 * transactions and chains. The balance lookup is passed in as a function.
 */
module Verification {
  import opened Util
  import opened Crypto
  import opened Types

  /** validProof: the guess built from `txs`, `lastHash` and `proof` hashes to a
      digest with the difficulty prefix. */
  predicate ValidProof(c: NodeCodec, txs: seq<Transaction>, lastHash: string, proof: Nonce)
  {
    HasDifficultyPrefix(c.sha256Hex(Guess(c, txs, lastHash, proof)))
  }

  /** Some uint64 nonce satisfies validProof, so the nonce search stops. */
  ghost predicate Solvable(c: NodeCodec, txs: seq<Transaction>, lastHash: string)
  {
    exists p: Nonce :: ValidProof(c, txs, lastHash, p)
  }

  /** `p` is what the nonce search counting up from 0 stops at. */
  ghost predicate IsLeastProof(c: NodeCodec, txs: seq<Transaction>, lastHash: string, p: Nonce)
  {
    ValidProof(c, txs, lastHash, p) && forall q: Nonce :: q < p ==> !ValidProof(c, txs, lastHash, q)
  }

  /** The nonce search has one answer: it depends only on the pool and the last hash. */
  lemma LeastProofUnique(c: NodeCodec, txs: seq<Transaction>, lastHash: string, p: Nonce, q: Nonce)
    requires IsLeastProof(c, txs, lastHash, p) && IsLeastProof(c, txs, lastHash, q)
    ensures p == q
  {
  }

  /** verifyChain slices `b.Transactions[:len-1]` for every block after the
      first, which panics on a block without transactions. */
  predicate Sliceable(chain: seq<Block>)
  {
    forall i :: 0 < i < |chain| ==> |chain[i].transactions| > 0
  }

  /** Block `b` may follow block `prev`: it links to prev's hash and its proof
      holds over its transactions without the last one (the reward). */
  predicate Links(c: NodeCodec, prev: Block, b: Block)
    requires |b.transactions| > 0
  {
    && b.previousHash == BlockHash(c, prev)
    && ValidProof(c, AllButLast(b.transactions), b.previousHash, b.proof)
  }

  /** verifyChain: every block after the genesis block links to its predecessor.
      Block 0 is never inspected. */
  function VerifyChain(c: NodeCodec, chain: seq<Block>): (valid: bool)
    requires Sliceable(chain)
    ensures valid <==> forall i :: 0 < i < |chain| ==> Links(c, chain[i - 1], chain[i])
    ensures |chain| <= 1 ==> valid
  {
    if |chain| <= 1 then true
    else VerifyChain(c, AllButLast(chain)) && Links(c, chain[|chain| - 2], Last(chain))
  }

  /** The recurrence: a chain extended by one block is valid iff the chain is
      and the block links to its tip. */
  lemma VerifyChainAppend(c: NodeCodec, chain: seq<Block>, b: Block)
    requires |chain| > 0 && Sliceable(chain) && |b.transactions| > 0
    ensures Sliceable(chain + [b])
    ensures VerifyChain(c, chain + [b]) <==> VerifyChain(c, chain) && Links(c, Last(chain), b)
  {
    AppendParts(chain, b);
  }

  /** Validity is prefix-closed. */
  lemma {:induction false} VerifyChainPrefix(c: NodeCodec, chain: seq<Block>, k: nat)
    requires Sliceable(chain) && VerifyChain(c, chain) && k <= |chain|
    ensures Sliceable(chain[..k]) && VerifyChain(c, chain[..k])
  {
    if k < |chain| {
      assert chain[..k] == AllButLast(chain)[..k];
      VerifyChainPrefix(c, AllButLast(chain), k);
    }
  }

  /** A block whose previous hash is not the hash of its predecessor breaks the chain. */
  lemma BrokenLinkInvalid(c: NodeCodec, chain: seq<Block>, i: nat)
    requires Sliceable(chain) && 0 < i < |chain|
    requires chain[i].previousHash != BlockHash(c, chain[i - 1])
    ensures !VerifyChain(c, chain)
  {
  }

  /** Altering the previous hash of any non-genesis block of a valid chain makes
      it invalid. */
  lemma AlteredLinkInvalid(c: NodeCodec, chain: seq<Block>, i: nat, h: string)
    requires Sliceable(chain) && VerifyChain(c, chain) && 0 < i < |chain|
    requires h != chain[i].previousHash
    ensures Sliceable(chain[i := chain[i].(previousHash := h)])
    ensures !VerifyChain(c, chain[i := chain[i].(previousHash := h)])
  {
    var altered := chain[i := chain[i].(previousHash := h)];
    assert Links(c, chain[i - 1], chain[i]);
    assert altered[i - 1] == chain[i - 1];
    BrokenLinkInvalid(c, altered, i);
  }

  /** verifyTransaction: the sender can afford the amount. */
  predicate VerifyTransaction(tx: Transaction, balance: string -> real)
  {
    balance(tx.sender) >= tx.amount
  }

  /** verifyTransaction looks only at the balance: the signature plays no part. */
  lemma VerifyTransactionIgnoresSignature(tx: Transaction, balance: string -> real, signature: string)
    ensures VerifyTransaction(tx.(signature := signature), balance) == VerifyTransaction(tx, balance)
    ensures VerifyTransaction(tx, balance) <==> balance(tx.sender) >= tx.amount
  {
  }

  /** verifyTransactions: all-or-nothing over the pool, every transaction
      checked against the same balance function, which is not re-evaluated
      between entries. */
  function VerifyTransactions(pool: seq<Transaction>, balance: string -> real): (allValid: bool)
    ensures allValid <==> forall i :: 0 <= i < |pool| ==> VerifyTransaction(pool[i], balance)
  {
    pool == [] || (VerifyTransaction(pool[0], balance) && VerifyTransactions(pool[1..], balance))
  }
}
