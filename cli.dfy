/**
 * The older single-user command-line ledger (main.go). It is a separate build
 * of the program with its own `Block`, `Transaction` and `MiningReward`, state
 * held in the package variables `bch`, `openTransactions` and `participants`,
 * no signatures and no identity check; every spend is made by `Owner`.
 *
 * The package variables become the fields of one `Ledger` object. One pass
 * of the interactive menu is `Ledger.MenuStep`, over an already parsed
 * choice; reading input and printing are left out.
 */
module Cli {
  import opened Util
  import opened Crypto

  datatype Transaction = Transaction(sender: string, recipient: string, amount: real)

  datatype Block = Block(previousHash: string, index: int, transactions: seq<Transaction>, proof: Nonce)

  type CliCodec = Codec<Block, Transaction>

  /** `BlockChain{{}}`: the all-default first block. */
  const Genesis: Block := Block("", 0, [], 0)

  const MiningReward: real := 10.0

  /** The one user of this ledger. */
  const Owner: string := "Tomas"

  function Reward(): Transaction
  {
    Transaction("MINING", Owner, MiningReward)
  }

  /** validProof (main.go's own copy): the digest of the guess starts with two zeros. */
  predicate ValidProof(c: CliCodec, txs: seq<Transaction>, lastHash: string, proof: Nonce)
  {
    HasDifficultyPrefix(c.sha256Hex(Guess(c, txs, lastHash, proof)))
  }

  ghost predicate Solvable(c: CliCodec, txs: seq<Transaction>, lastHash: string)
  {
    exists p: Nonce :: ValidProof(c, txs, lastHash, p)
  }

  ghost predicate IsLeastProof(c: CliCodec, txs: seq<Transaction>, lastHash: string, p: Nonce)
  {
    ValidProof(c, txs, lastHash, p) && forall q: Nonce :: q < p ==> !ValidProof(c, txs, lastHash, q)
  }

  // ---- balances ----

  function SentBy(txs: seq<Transaction>, p: string): real
  {
    if txs == [] then 0.0
    else SentBy(AllButLast(txs), p) + (if Last(txs).sender == p then Last(txs).amount else 0.0)
  }

  function ReceivedBy(txs: seq<Transaction>, p: string): real
  {
    if txs == [] then 0.0
    else ReceivedBy(AllButLast(txs), p) + (if Last(txs).recipient == p then Last(txs).amount else 0.0)
  }

  function SentInChain(chain: seq<Block>, p: string): real
  {
    if chain == [] then 0.0 else SentInChain(AllButLast(chain), p) + SentBy(Last(chain).transactions, p)
  }

  function ReceivedInChain(chain: seq<Block>, p: string): real
  {
    if chain == [] then 0.0 else ReceivedInChain(AllButLast(chain), p) + ReceivedBy(Last(chain).transactions, p)
  }

  /** getBalance: received in the chain minus (sent in the chain plus sent in the pool). */
  function Balance(chain: seq<Block>, pool: seq<Transaction>, p: string): real
  {
    ReceivedInChain(chain, p) - (SentInChain(chain, p) + SentBy(pool, p))
  }

  /** A fresh ledger holds no money for anybody, Owner included. */
  lemma GenesisBalance(p: string)
    ensures Balance([Genesis], [], p) == 0.0
  {
    assert AllButLast([Genesis]) == [] && Last([Genesis]).transactions == [];
    assert SentInChain([Genesis], p) == 0.0 && ReceivedInChain([Genesis], p) == 0.0;
  }

  /** Admitting `tx` lowers its sender's balance by exactly its amount and no
      other participant's balance at all. */
  lemma BalanceAfterAdmission(chain: seq<Block>, pool: seq<Transaction>, tx: Transaction, p: string)
    ensures Balance(chain, pool + [tx], p)
         == Balance(chain, pool, p) - (if tx.sender == p then tx.amount else 0.0)
  {
    AppendParts(pool, tx);
  }

  /** verifyTransactions over `txs`, with getBalance reading `chain` and `pool`. */
  function AllAffordable(txs: seq<Transaction>, chain: seq<Block>, pool: seq<Transaction>): (ok: bool)
    ensures ok <==> forall i :: 0 <= i < |txs| ==> Balance(chain, pool, txs[i].sender) >= txs[i].amount
  {
    txs == [] || (Balance(chain, pool, txs[0].sender) >= txs[0].amount && AllAffordable(txs[1..], chain, pool))
  }

  /**
   * verifyTransactions re-checks each pool entry against a balance that
   * already deducts that entry: a pool holding one spend of the sender's
   * whole confirmed balance is reported invalid although it was admitted.
   */
  lemma PendingSpendFailsRecheck(chain: seq<Block>, tx: Transaction)
    requires tx.amount > 0.0 && Balance(chain, [], tx.sender) == tx.amount
    ensures !AllAffordable([tx], chain, [tx])
  {
    assert AllButLast([tx]) == [] && Last([tx]) == tx;
    assert Balance(chain, [tx], tx.sender) == 0.0;
  }

  // ---- chains ----

  predicate Sliceable(chain: seq<Block>)
  {
    forall i :: 0 < i < |chain| ==> |chain[i].transactions| > 0
  }

  predicate Links(c: CliCodec, prev: Block, b: Block)
    requires |b.transactions| > 0
  {
    && b.previousHash == BlockHash(c, prev)
    && ValidProof(c, AllButLast(b.transactions), b.previousHash, b.proof)
  }

  /** verifyChain (main.go's own copy): the same link-and-proof rule as the node's. */
  function ChainValid(c: CliCodec, chain: seq<Block>): (valid: bool)
    requires Sliceable(chain)
    ensures valid <==> forall i :: 0 < i < |chain| ==> Links(c, chain[i - 1], chain[i])
  {
    if |chain| <= 1 then true
    else ChainValid(c, AllButLast(chain)) && Links(c, chain[|chain| - 2], Last(chain))
  }

  /** The block mineBlock appends. */
  function MinedBlock(c: CliCodec, chain: seq<Block>, pool: seq<Transaction>, proof: Nonce): Block
    requires |chain| > 0
  {
    Block(BlockHash(c, Last(chain)), |chain|, pool + [Reward()], proof)
  }

  /** Mining keeps a valid chain valid. */
  lemma MiningPreservesValidity(c: CliCodec, chain: seq<Block>, pool: seq<Transaction>, proof: Nonce)
    requires |chain| > 0 && Sliceable(chain) && ChainValid(c, chain)
    requires ValidProof(c, pool, BlockHash(c, Last(chain)), proof)
    ensures Sliceable(chain + [MinedBlock(c, chain, pool, proof)])
    ensures ChainValid(c, chain + [MinedBlock(c, chain, pool, proof)])
  {
    var b := MinedBlock(c, chain, pool, proof);
    AppendParts(pool, Reward());
    AppendParts(chain, b);
    assert ChainValid(c, AllButLast(chain + [b]));
  }

  /** The block the "manipulate" menu option writes over block 0. */
  const Tampered: Block := Block("", 0, [Transaction("Chris", "max", 100.0)], 0)

  /**
   * Overwriting block 0 of a valid chain leaves it valid exactly when there is
   * no second block or the new block 0 hashes like the old one: only block 1
   * looks at block 0, and only through its hash.
   */
  lemma TamperedChainValidity(c: CliCodec, chain: seq<Block>)
    requires |chain| > 0 && Sliceable(chain) && ChainValid(c, chain)
    ensures Sliceable(chain[0 := Tampered])
    ensures ChainValid(c, chain[0 := Tampered])
        <==> |chain| == 1 || BlockHash(c, Tampered) == BlockHash(c, chain[0])
  {
    var altered := chain[0 := Tampered];
    if |chain| > 1 {
      assert Links(c, chain[0], chain[1]);
      if BlockHash(c, Tampered) == BlockHash(c, chain[0]) {
        forall i | 0 < i < |altered|
          ensures Links(c, altered[i - 1], altered[i])
        {
          assert Links(c, chain[i - 1], chain[i]);
        }
      } else {
        assert !Links(c, altered[0], altered[1]);
      }
    }
  }

  /** One choice from the interactive menu. */
  datatype MenuChoice =
    | NewTransaction(recipient: string, amount: real)
    | Mine
    | ShowBlocks
    | ShowParticipants
    | CheckTransactions
    | Manipulate
    | Quit
    | Unrecognised

  class Ledger {
    const codec: CliCodec
    var bch: seq<Block>
    var openTransactions: seq<Transaction>
    var participants: set<string>

    /** The chain is non-empty and passes verifyChain. Every mutator but the
        tampering option keeps it (see `MenuStep`). */
    ghost predicate Valid()
      reads this
    {
      |bch| > 0 && Sliceable(bch) && ChainValid(codec, bch)
    }

    /** loadData with no snapshot file, and the initial participant set. */
    constructor (codec: CliCodec)
      ensures Valid()
      ensures this.codec == codec
      ensures bch == [Genesis] && openTransactions == [] && participants == {Owner}
    {
      this.codec := codec;
      bch := [Genesis];
      openTransactions := [];
      participants := {Owner};
    }

    /** getBalance: three running sums over the chain and the pool. */
    method GetBalance(participant: string) returns (balance: real)
      ensures balance == Balance(bch, openTransactions, participant)
    {
      var txSender, openTxSender, txRecipient := 0.0, 0.0, 0.0;
      var i := 0;
      while i < |bch|
        invariant 0 <= i <= |bch|
        invariant txSender == SentInChain(bch[..i], participant)
        invariant txRecipient == ReceivedInChain(bch[..i], participant)
      {
        var txs := bch[i].transactions;
        var j := 0;
        while j < |txs|
          invariant 0 <= j <= |txs|
          invariant txSender == SentInChain(bch[..i], participant) + SentBy(txs[..j], participant)
          invariant txRecipient == ReceivedInChain(bch[..i], participant) + ReceivedBy(txs[..j], participant)
        {
          var tx := txs[j];
          if tx.sender == participant {
            txSender := txSender + tx.amount;
          }
          if tx.recipient == participant {
            txRecipient := txRecipient + tx.amount;
          }
          assert AllButLast(txs[..j + 1]) == txs[..j];
          j := j + 1;
        }
        assert txs[..j] == txs;
        assert AllButLast(bch[..i + 1]) == bch[..i];
        i := i + 1;
      }
      assert bch[..i] == bch;
      var k := 0;
      while k < |openTransactions|
        invariant 0 <= k <= |openTransactions|
        invariant openTxSender == SentBy(openTransactions[..k], participant)
      {
        var tx := openTransactions[k];
        if tx.sender == participant {
          openTxSender := openTxSender + tx.amount;
        }
        assert AllButLast(openTransactions[..k + 1]) == openTransactions[..k];
        k := k + 1;
      }
      assert openTransactions[..k] == openTransactions;
      balance := txRecipient - (txSender + openTxSender);
    }

    /** getLastBlock: the tip of the chain (indexing an empty chain panics). */
    method GetLastBlock() returns (tip: Block)
      requires |bch| > 0
      ensures tip == bch[|bch| - 1] && tip in bch
    {
      tip := bch[|bch| - 1];
    }

    /** verifyTransaction: the sender can afford the amount, pending spends counted. */
    predicate VerifyTransaction(tx: Transaction)
      reads this
    {
      Balance(bch, openTransactions, tx.sender) >= tx.amount
    }

    /**
     * A spend that verifyTransaction admits leaves the sender a non-negative
     * balance, and once it is in the pool a second spend by the same sender
     * above what is left is refused (by the next addTransactionWithSender,
     * whose outcome is this balance test on the grown pool).
     */
    lemma NoDoubleSpend(tx: Transaction, next: Transaction)
      requires VerifyTransaction(tx)
      requires next.sender == tx.sender
      requires next.amount > Balance(bch, openTransactions, tx.sender) - tx.amount
      ensures Balance(bch, openTransactions + [tx], tx.sender) >= 0.0
      ensures Balance(bch, openTransactions + [tx], next.sender) < next.amount
    {
      BalanceAfterAdmission(bch, openTransactions, tx, tx.sender);
    }

    /** verifyTransactions: every pool entry passes verifyTransaction. */
    function VerifyTransactions(): (ok: bool)
      reads this
      ensures ok <==> forall i :: 0 <= i < |openTransactions| ==> VerifyTransaction(openTransactions[i])
    {
      AllAffordable(openTransactions, bch, openTransactions)
    }

    /** verifyChain: walks the chain from block 1 and stops at the first
        broken link or failing proof. */
    method VerifyChain() returns (valid: bool)
      requires Sliceable(bch)
      ensures valid == ChainValid(codec, bch)
    {
      var i := 0;
      while i < |bch|
        invariant 0 <= i <= |bch|
        invariant forall j :: 0 < j < i ==> Links(codec, bch[j - 1], bch[j])
      {
        if i > 0 {
          var b := bch[i];
          if b.previousHash != BlockHash(codec, bch[i - 1]) {
            return false;
          }
          if !ValidProof(codec, b.transactions[..|b.transactions| - 1], b.previousHash, b.proof) {
            return false;
          }
        }
        i := i + 1;
      }
      return true;
    }

    /** addTransactionWithSender: admits the spend when the sender can afford
        it, and records both parties as participants. */
    method AddTransactionWithSender(sender: string, recipient: string, amount: real) returns (ok: bool)
      modifies this`openTransactions, this`participants
      ensures ok == (Balance(bch, old(openTransactions), sender) >= amount)
      ensures openTransactions
           == if ok then old(openTransactions) + [Transaction(sender, recipient, amount)] else old(openTransactions)
      ensures participants == if ok then old(participants) + {sender, recipient} else old(participants)
    {
      var tx := Transaction(sender, recipient, amount);
      if !VerifyTransaction(tx) {
        return false;
      }
      openTransactions := openTransactions + [tx];
      participants := participants + {sender};
      participants := participants + {recipient};
      return true;
    }

    /** addTransaction: a spend by Owner. */
    method AddTransaction(recipient: string, amount: real) returns (ok: bool)
      modifies this`openTransactions, this`participants
      ensures ok == (Balance(bch, old(openTransactions), Owner) >= amount)
      ensures openTransactions
           == if ok then old(openTransactions) + [Transaction(Owner, recipient, amount)] else old(openTransactions)
      ensures participants == if ok then old(participants) + {Owner, recipient} else old(participants)
    {
      ok := AddTransactionWithSender(Owner, recipient, amount);
    }

    /** proofOfWork: the least uint64 nonce valid over the pool and the tip's hash. */
    method ProofOfWork() returns (proof: Nonce)
      requires Valid()
      requires Solvable(codec, openTransactions, BlockHash(codec, Last(bch)))
      ensures IsLeastProof(codec, openTransactions, BlockHash(codec, Last(bch)), proof)
    {
      var tip := GetLastBlock();
      var lastHash := BlockHash(codec, tip);
      ghost var found: Nonce :| ValidProof(codec, openTransactions, lastHash, found);
      proof := 0;
      while !ValidProof(codec, openTransactions, lastHash, proof)
        invariant proof <= found
        invariant forall q: Nonce :: q < proof ==> !ValidProof(codec, openTransactions, lastHash, q)
        decreases found - proof
      {
        proof := proof + 1;
      }
    }

    /** mineBlock: appends the pool plus the reward for Owner as a new block.
        The pool itself is left for the caller to empty. */
    method MineBlock() returns (proof: Nonce)
      requires Valid()
      requires Solvable(codec, openTransactions, BlockHash(codec, Last(bch)))
      modifies this`bch
      ensures Valid()
      ensures IsLeastProof(codec, openTransactions, BlockHash(codec, Last(old(bch))), proof)
      ensures bch == old(bch) + [MinedBlock(codec, old(bch), openTransactions, proof)]
    {
      var tip := GetLastBlock();
      var hashedBlock := BlockHash(codec, tip);
      proof := ProofOfWork();
      var rewardTx := Reward();
      var copied := openTransactions;
      copied := copied + [rewardTx];
      var b := Block(hashedBlock, |bch|, copied, proof);
      MiningPreservesValidity(codec, bch, openTransactions, proof);
      bch := bch + [b];
    }

    /** The menu's "mine" option: mineBlock, then an empty pool. */
    method MineAndClearPool()
      requires Valid()
      requires Solvable(codec, openTransactions, BlockHash(codec, Last(bch)))
      modifies this`bch, this`openTransactions
      ensures Valid()
      ensures exists proof: Nonce ::
                && IsLeastProof(codec, old(openTransactions), BlockHash(codec, Last(old(bch))), proof)
                && bch == old(bch) + [MinedBlock(codec, old(bch), old(openTransactions), proof)]
      ensures openTransactions == []
    {
      var proof := MineBlock();
      openTransactions := [];
    }

    /**
     * One pass of the menu loop: the chosen option, then verifyChain, whose
     * failure panics (`broken`). "quit" exits before the check. Every option
     * but "manipulate" keeps the ledger valid, so the check never fails after
     * it; "manipulate" breaks the chain exactly when block 1 exists and the
     * new block 0 hashes differently.
     */
    method MenuStep(choice: MenuChoice) returns (broken: bool)
      requires Valid()
      requires choice.Mine? ==> Solvable(codec, openTransactions, BlockHash(codec, Last(bch)))
      modifies this`bch, this`openTransactions, this`participants
      ensures !choice.Manipulate? ==> Valid() && !broken
      ensures choice.NewTransaction? ==>
        var ok := Balance(old(bch), old(openTransactions), Owner) >= choice.amount;
        && bch == old(bch)
        && openTransactions
           == (if ok then old(openTransactions) + [Transaction(Owner, choice.recipient, choice.amount)]
               else old(openTransactions))
        && participants == (if ok then old(participants) + {Owner, choice.recipient} else old(participants))
      ensures choice.Mine? ==>
        && participants == old(participants)
        && openTransactions == []
        && exists proof: Nonce ::
             && IsLeastProof(codec, old(openTransactions), BlockHash(codec, Last(old(bch))), proof)
             && bch == old(bch) + [MinedBlock(codec, old(bch), old(openTransactions), proof)]
      ensures choice.Manipulate? ==>
        && (!broken ==> Valid())
        && bch == old(bch)[0 := Tampered]
        && openTransactions == old(openTransactions) && participants == old(participants)
        && (broken <==> |bch| > 1 && BlockHash(codec, Tampered) != BlockHash(codec, old(bch)[0]))
      ensures !(choice.NewTransaction? || choice.Mine? || choice.Manipulate?) ==>
        bch == old(bch) && openTransactions == old(openTransactions) && participants == old(participants)
    {
      match choice {
        case NewTransaction(recipient, amount) =>
          var ok := AddTransaction(recipient, amount);
        case Mine =>
          MineAndClearPool();
        case Manipulate =>
          TamperedChainValidity(codec, bch);
          bch := bch[0 := Tampered];
        case Quit =>
          return false;
        case _ =>
      }
      var valid := VerifyChain();
      broken := !valid;
    }
  }
}
