/**
 * The node's ledger engine (blockchain.go): the `BlockChain` object holding
 * the chain, the pool of open transactions, the peer list and the node's
 * identity, and the operations that read and change them.
 *
 * Persistence (SaveData after each change) is file I/O and is left out: a
 * save changes none of the fields modelled here.
 */
module Node {
  import opened Util
  import opened Crypto
  import opened Types
  import opened Verification
  import opened Accounts

  /** How one peer answered a broadcast: no answer (connection error or
      timeout), or an HTTP status code. */
  datatype PeerReply = Unreachable | Reply(status: int)

  /** A 400 or 500 answer is a decline, which stops the broadcast. */
  predicate Declined(r: PeerReply)
  {
    r.Reply? && (r.status == 400 || r.status == 500)
  }

  /** Every pool transaction carries a valid signature. */
  ghost predicate AllSigned(pool: seq<Transaction>, sigValid: Transaction -> bool)
  {
    forall k :: 0 <= k < |pool| ==> sigValid(pool[k])
  }

  /** The block MineBlock builds: it links to the tip, sits at the next index,
      and holds the pool followed by the miner's reward. */
  function MinedBlock(c: NodeCodec, chain: seq<Block>, pool: seq<Transaction>, miner: string, proof: Nonce): Block
    requires |chain| > 0
  {
    Block(BlockHash(c, Last(chain)), |chain|, pool + [Reward(miner)], proof)
  }

  /** Mining keeps a valid chain valid: the proof the nonce search finds is
      over the pool, which is the mined block's transactions minus the reward. */
  lemma MiningPreservesValidity(c: NodeCodec, chain: seq<Block>, pool: seq<Transaction>, miner: string, proof: Nonce)
    requires |chain| > 0 && Sliceable(chain) && VerifyChain(c, chain)
    requires ValidProof(c, pool, BlockHash(c, Last(chain)), proof)
    ensures Sliceable(chain + [MinedBlock(c, chain, pool, miner, proof)])
    ensures VerifyChain(c, chain + [MinedBlock(c, chain, pool, miner, proof)])
  {
    var b := MinedBlock(c, chain, pool, miner, proof);
    AppendParts(pool, Reward(miner));
    VerifyChainAppend(c, chain, b);
  }

  /**
   * AddBlock checks the proof over ALL of a block's transactions, while
   * verifyChain checks it over all but the last. A block AddBlock accepts
   * onto a valid chain keeps the chain valid exactly when its proof also
   * holds without its last transaction.
   */
  lemma AcceptedBlockValidity(c: NodeCodec, chain: seq<Block>, b: Block)
    requires |chain| > 0 && Sliceable(chain) && VerifyChain(c, chain)
    requires |b.transactions| > 0 && b.previousHash == BlockHash(c, Last(chain))
    ensures Sliceable(chain + [b])
    ensures VerifyChain(c, chain + [b]) <==> ValidProof(c, AllButLast(b.transactions), b.previousHash, b.proof)
  {
    VerifyChainAppend(c, chain, b);
  }

  /** The peers RemovePeerNode keeps: those EQUAL to `node`, in order. */
  function KeepMatching(peers: seq<string>, node: string): seq<string>
  {
    if peers == [] then []
    else KeepMatching(AllButLast(peers), node) + (if Last(peers) == node then [node] else [])
  }

  /** RemovePeerNode, as written, leaves only copies of `node`, one for each
      occurrence of it; every other address is dropped, and a node that is not
      in the list empties it. */
  lemma {:induction false} KeepMatchingCopies(peers: seq<string>, node: string)
    ensures forall k :: 0 <= k < |KeepMatching(peers, node)| ==> KeepMatching(peers, node)[k] == node
    ensures |KeepMatching(peers, node)| == multiset(peers)[node]
  {
    if peers != [] {
      assert peers == AllButLast(peers) + [Last(peers)];
      KeepMatchingCopies(AllButLast(peers), node);
    }
  }

  class BlockChain {
    /** SHA-256 and JSON serialisation (hash.go). */
    const codec: NodeCodec
    /** Wallet.VerifyTransaction: the RSA signature check (wallet.go). */
    const sigValid: Transaction -> bool

    /** The node's identity; empty when no wallet is set up. */
    var publicKey: string
    var chain: seq<Block>
    var openTransactions: seq<Transaction>
    var peerNodes: seq<string>

    /** The chain is never empty, so it always has a last block. */
    ghost predicate Valid()
      reads this
    {
      |chain| > 0
    }

    /** A node created with the given identity whose LoadData found no
        snapshot file: the chain is `[Block{}]`, the pool and peers empty. */
    constructor (codec: NodeCodec, sigValid: Transaction -> bool, publicKey: string)
      ensures Valid()
      ensures this.codec == codec && this.sigValid == sigValid && this.publicKey == publicKey
      ensures chain == [Genesis] && openTransactions == [] && peerNodes == []
    {
      this.codec := codec;
      this.sigValid := sigValid;
      this.publicKey := publicKey;
      chain := [Genesis];
      openTransactions := [];
      peerNodes := [];
    }

    /** A copy of the chain. */
    method Chain() returns (copy: seq<Block>)
      ensures copy == chain
    {
      copy := chain;
    }

    /** A copy of the pool. */
    method OpenTransactions() returns (copy: seq<Transaction>)
      ensures copy == openTransactions
    {
      copy := openTransactions;
    }

    /** A copy of the peer list. */
    method PeerNodes() returns (copy: seq<string>)
      ensures copy == peerNodes
    {
      copy := peerNodes;
    }

    /** The tip of the chain. */
    method GetLastBlock() returns (tip: Block)
      requires Valid()
      ensures tip == chain[|chain| - 1] && tip in chain
    {
      tip := chain[|chain| - 1];
    }

    /** Three running sums over the chain's blocks and the pool. */
    method GetBalanceWithSender(sender: string) returns (balance: real)
      ensures balance == Balance(chain, openTransactions, sender)
    {
      var txSender, openTxSender, txRecipient := 0.0, 0.0, 0.0;
      var i := 0;
      while i < |chain|
        invariant 0 <= i <= |chain|
        invariant txSender == SentInChain(chain[..i], sender)
        invariant txRecipient == ReceivedInChain(chain[..i], sender)
      {
        var txs := chain[i].transactions;
        var j := 0;
        while j < |txs|
          invariant 0 <= j <= |txs|
          invariant txSender == SentInChain(chain[..i], sender) + SentBy(txs[..j], sender)
          invariant txRecipient == ReceivedInChain(chain[..i], sender) + ReceivedBy(txs[..j], sender)
        {
          var tx := txs[j];
          if tx.sender == sender {
            txSender := txSender + tx.amount;
          }
          if tx.recipient == sender {
            txRecipient := txRecipient + tx.amount;
          }
          assert AllButLast(txs[..j + 1]) == txs[..j];
          j := j + 1;
        }
        assert txs[..j] == txs;
        assert AllButLast(chain[..i + 1]) == chain[..i];
        i := i + 1;
      }
      assert chain[..i] == chain;
      var k := 0;
      while k < |openTransactions|
        invariant 0 <= k <= |openTransactions|
        invariant openTxSender == SentBy(openTransactions[..k], sender)
      {
        var tx := openTransactions[k];
        if tx.sender == sender {
          openTxSender := openTxSender + tx.amount;
        }
        assert AllButLast(openTransactions[..k + 1]) == openTransactions[..k];
        k := k + 1;
      }
      assert openTransactions[..k] == openTransactions;
      balance := txRecipient - (txSender + openTxSender);
    }

    /** The node's own balance, or -1 when no wallet is set up. */
    method GetBalance() returns (balance: real)
      ensures balance == if publicKey == "" then -1.0 else Balance(chain, openTransactions, publicKey)
    {
      if publicKey == "" {
        return -1.0;
      }
      balance := GetBalanceWithSender(publicKey);
    }

    /** The least uint64 nonce whose guess over the pool and the tip's hash
        has the difficulty prefix. The search terminates only if such a nonce
        exists, which the caller must establish. */
    method ProofOfWork() returns (proof: Nonce)
      requires Valid()
      requires Solvable(codec, openTransactions, BlockHash(codec, Last(chain)))
      ensures IsLeastProof(codec, openTransactions, BlockHash(codec, Last(chain)), proof)
    {
      var lastHash := BlockHash(codec, Last(chain));
      ghost var found: Nonce :| ValidProof(codec, openTransactions, lastHash, found);
      proof := 0;
      while !ValidProof(codec, openTransactions, lastHash, proof)
        invariant proof <= found
        invariant forall q: Nonce :: q < proof ==> !ValidProof(codec, openTransactions, lastHash, q)
        decreases found - proof
      {
        proof := proof + 1;
      }
    }

    /** The admission test: a wallet is set up and the sender can afford the
        amount, counting its pending spends. */
    ghost predicate Admits(sender: string, amount: real)
      reads this
    {
      publicKey != "" && Balance(chain, openTransactions, sender) >= amount
    }

    /** Admits a transaction built from exactly the given fields to the pool.
        The signature is not checked here. */
    method AddTransaction(recipient: string, sender: string, signature: string, amount: real) returns (ok: bool)
      modifies this`openTransactions
      ensures ok == old(Admits(sender, amount))
      ensures openTransactions
           == if ok then old(openTransactions) + [Transaction(sender, recipient, amount, signature)]
              else old(openTransactions)
    {
      if publicKey == "" {
        return false;
      }
      var tx := Transaction(sender, recipient, amount, signature);
      // GetBalanceWithSender computes BalanceOf(chain, openTransactions).
      if !VerifyTransaction(tx, BalanceOf(chain, openTransactions)) {
        return false;
      }
      openTransactions := openTransactions + [tx];
      return true;
    }

    /**
     * AddTransaction, then a broadcast of the transaction to every peer, in
     * order; `replies[k]` is how `peerNodes[k]` answers. An unreachable peer is
     * skipped; a decline stops the broadcast and reports failure although the
     * transaction stays in the local pool.
     */
    method AddTransactionReceiving(recipient: string, sender: string, signature: string, amount: real,
                                   replies: seq<PeerReply>) returns (ok: bool)
      requires |replies| == |peerNodes|
      modifies this`openTransactions
      ensures ok == (old(Admits(sender, amount)) && forall k :: 0 <= k < |replies| ==> !Declined(replies[k]))
      ensures openTransactions
           == if old(Admits(sender, amount)) then old(openTransactions) + [Transaction(sender, recipient, amount, signature)]
              else old(openTransactions)
    {
      var admitted := AddTransaction(recipient, sender, signature, amount);
      if !admitted {
        return false;
      }
      var i := 0;
      while i < |peerNodes|
        invariant 0 <= i <= |peerNodes|
        invariant forall k :: 0 <= k < i ==> !Declined(replies[k])
      {
        if Declined(replies[i]) {
          return false;
        }
        i := i + 1;
      }
      return true;
    }

    /**
     * Mines the pool: finds the proof, checks every pool signature, appends
     * the block (pool plus reward) and empties the pool. Returns None and
     * changes nothing when no wallet is set up or a signature is invalid.
     */
    method MineBlock() returns (mined: Option<Block>)
      requires Valid()
      requires publicKey != "" ==> Solvable(codec, openTransactions, BlockHash(codec, Last(chain)))
      modifies this`chain, this`openTransactions
      ensures Valid()
      ensures mined.None? <==> publicKey == "" || !AllSigned(old(openTransactions), sigValid)
      ensures mined.None? ==> chain == old(chain) && openTransactions == old(openTransactions)
      ensures mined.Some? ==>
                && mined.value == MinedBlock(codec, old(chain), old(openTransactions), publicKey, mined.value.proof)
                && IsLeastProof(codec, old(openTransactions), mined.value.previousHash, mined.value.proof)
                && chain == old(chain) + [mined.value]
                && openTransactions == []
      ensures old(Sliceable(chain) && VerifyChain(codec, chain)) ==> Sliceable(chain) && VerifyChain(codec, chain)
    {
      if publicKey == "" {
        return None;
      }
      var hashedBlock := BlockHash(codec, Last(chain));
      var proof := ProofOfWork();
      var rewardTx := Reward(publicKey);
      var copied := openTransactions;
      var i := 0;
      while i < |copied|
        invariant 0 <= i <= |copied|
        invariant forall k :: 0 <= k < i ==> sigValid(copied[k])
      {
        if !sigValid(copied[i]) {
          return None;
        }
        i := i + 1;
      }
      copied := copied + [rewardTx];
      var block := Block(hashedBlock, |chain|, copied, proof);
      assert block == MinedBlock(codec, chain, openTransactions, publicKey, proof);
      if Sliceable(chain) && VerifyChain(codec, chain) {
        MiningPreservesValidity(codec, chain, openTransactions, publicKey, proof);
      }
      chain := chain + [block];
      openTransactions := [];
      mined := Some(block);
    }

    /**
     * A block received from a peer is appended when its proof holds over all
     * of its transactions and it links to the tip. The pool is not pruned.
     */
    method AddBlock(block: Block) returns (ok: bool)
      requires Valid()
      modifies this`chain
      ensures Valid()
      ensures ok == (ValidProof(codec, block.transactions, block.previousHash, block.proof)
                     && BlockHash(codec, Last(old(chain))) == block.previousHash)
      ensures chain == if ok then old(chain) + [block] else old(chain)
    {
      if !ValidProof(codec, block.transactions, block.previousHash, block.proof) {
        return false;
      }
      if BlockHash(codec, Last(chain)) != block.previousHash {
        return false;
      }
      chain := chain + [block];
      return true;
    }

    /** Appends a peer address; duplicates are kept. */
    method AddPeerNode(node: string)
      modifies this`peerNodes
      ensures peerNodes == old(peerNodes) + [node]
    {
      peerNodes := peerNodes + [node];
    }

    /** Filters the peer list, keeping the entries equal to `node`. */
    method RemovePeerNode(node: string)
      modifies this`peerNodes
      ensures peerNodes == KeepMatching(old(peerNodes), node)
    {
      var filtered: seq<string> := [];
      var i := 0;
      while i < |peerNodes|
        invariant 0 <= i <= |peerNodes|
        invariant filtered == KeepMatching(peerNodes[..i], node)
      {
        if peerNodes[i] == node {
          filtered := filtered + [peerNodes[i]];
        }
        assert AllButLast(peerNodes[..i + 1]) == peerNodes[..i];
        i := i + 1;
      }
      assert peerNodes[..i] == peerNodes;
      peerNodes := filtered;
    }
  }

  /**
   * A walk through the ledger from a fresh node with wallet `wallet`: a spend
   * of 5 is refused on the empty chain, mining credits the reward of 10, the
   * same spend is then admitted, and the pending spend leaves 5.
   */
  method WalletScenario(codec: NodeCodec, sigValid: Transaction -> bool, wallet: string, signature: string)
    returns (before: bool, mined: bool, after: bool, funds: real)
    requires wallet != "" && wallet != MiningSender
    requires Solvable(codec, [], BlockHash(codec, Genesis))
    ensures !before && mined && after && funds == 5.0
  {
    var node := new BlockChain(codec, sigValid, wallet);
    GenesisBalance(wallet);
    before := node.AddTransaction("R", wallet, signature, 5.0);
    var block := node.MineBlock();
    mined := block.Some?;
    BalanceAfterMining([Genesis], [], block.value, wallet, wallet);
    after := node.AddTransaction("R", wallet, signature, 5.0);
    BalanceAfterAdmission(node.chain, [], Transaction(wallet, "R", 5.0, signature), wallet);
    funds := node.GetBalance();
  }
}
