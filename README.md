# Proof-of-work ledger engine, modelled in Dafny

This project models the ledger engine of a small proof-of-work blockchain node
written in Go, and proves properties of the model. The repository holds two
builds of the same program side by side, and both are modelled:

- **The node** (blockchain.go, verification.go, block.go, transaction.go,
  hash.go). A `BlockChain` object holds the chain of blocks, the pool of open
  (unconfirmed) transactions, the list of peer addresses and the node's
  identity, which is the wallet's public key and is empty when no wallet is set
  up. It admits transactions against a balance that counts pending spends. It
  mines the pool with a nonce search. It accepts blocks from peers and keeps
  the peer list. Module `Node`
  (blockchain.dfy) holds the class; `Verification` (verification.dfy) the
  stateless validation rules; `Accounts` (ledger.dfy) the balance fold and
  its lemmas; `Types` (types.dfy) the `Transaction` and `Block` values.
- **The older command-line ledger** (main.go). It has the same algorithms, an
  unsigned `Transaction`, a single user `Owner = "Tomas"`, and state in the
  package variables `bch`, `openTransactions` and `participants`. It declares
  its own `Block`, `Transaction` and `MiningReward`, so it is a separate build
  and is modelled in its own module `Cli` (cli.dfy), with the package
  variables as the fields of a `Ledger` object.

hash.go is part of both builds. Module `Crypto` (crypto.dfy) therefore holds a
generic `Codec<B, T>` whose three fields are SHA-256 in hex (a 64-character
`Digest`), the JSON serialisation of a block, and that of a transaction list.
These library functions are parameters of the model: each `BlockChain` and
`Ledger` object is built with a codec, and the node is also given the RSA
signature check `sigValid`. Nothing is assumed about them beyond their types,
so every property proved holds for any hash function and any serialisation.
`Crypto` also models `strconv.FormatUint`, which writes the nonce into the
proof-of-work guess, together with its inverse.

Main results:

- Mining preserves chain validity, in both builds:
  `Node.MiningPreservesValidity`, the last `ensures` of
  `Node.BlockChain.MineBlock`, `Cli.MiningPreservesValidity`, and
  `Cli.Ledger.Valid` kept by every CLI operation except the tampering
  option, which keeps it only when the check after it passes. One pass of the CLI menu
  loop (`Cli.Ledger.MenuStep`) never reaches the "chain is broken" panic,
  except after the tampering option, and then exactly when block 1 exists and
  the overwritten block 0 hashes differently (`Cli.TamperedChainValidity`).
- The chain is never empty: `Valid()` is set up by the constructors and kept
  by every method (the CLI's tampering option overwrites block 0 and keeps
  the length).
- Balances are a fold. Admitting a spend lowers the sender's balance by
  exactly the amount and changes no one else's (`Accounts.BalanceAfterAdmission`).
  A pending spend blocks a second spend that would overdraw (`Accounts.NoDoubleSpend`).
  Mining turns the pool's credits into confirmed ones and pays the miner
  (`Accounts.BalanceAfterMining`).
- The nonce search returns the least valid nonce.
- Validation is all-or-nothing.
- Every operation that fails changes nothing, with one exception:
  `AddTransactionReceiving` reports failure when a peer declines, but the
  transaction stays in the pool (blockchain.go:212-214).

Behaviours reproduced as the code has them, including where they are
surprising:

- `AddBlock` checks the proof over all of a block's transactions, reward
  included (blockchain.go:259). `verifyChain` checks all but the last
  (verification.go:28). `Node.AcceptedBlockValidity` states what this means
  for chain validity.
- `AddBlock` does not remove from the pool the transactions that the new
  block confirms (blockchain.go:267-269), so a confirmed transaction can
  stay pending and be mined a second time.
- `RemovePeerNode` keeps only the entries equal to its argument
  (blockchain.go:286). `Node.KeepMatchingCopies` states the result.
- verification.go's `verifyTransaction` checks the balance only, never the
  signature (verification.go:36-38). Signatures are checked only when
  mining (blockchain.go:238-242).
- `verifyTransactions` checks each pool entry against a balance that already
  deducts that entry. So main.go's "check transaction validity" option reports
  an admitted full-balance spend as invalid (`Cli.PendingSpendFailsRecheck`).
- verification.go's `verifyChain` ranges over a value of type `BlockChain`,
  which blockchain.go declares as a struct. The model reads it as the
  sequence of blocks.
- blockchain.go:127, :181 and :259 call `Verification.ValidProof` and
  `Verification.VerifyTransaction`. verification.go declares `Verification`
  only as an empty struct type, and the checks as the lowercase free
  functions `validProof` and `verifyTransaction`, so these calls do not
  resolve as written. The model reads them as calls of those free functions.

The one-line checks `validProof` (verification.go:11-17, main.go:88-94),
`verifyTransaction` (verification.go:36-38, main.go:134-136) and
`Block.Hash` (hash.go:14-17) are plain definitions in the model
(`Verification.ValidProof`, `Cli.ValidProof`, `Verification.VerifyTransaction`,
`Cli.Ledger.VerifyTransaction`, `Crypto.BlockHash`). What is proved about them
is in the rows of the members that use them: the nonce search
(`Crypto.DistinctNoncesDistinctGuesses`, the `ProofOfWork` rows), the
balance test (`Verification.VerifyTransactionIgnoresSignature`,
`Cli.Ledger.NoDoubleSpend`), and the hash link (`Verification.AlteredLinkInvalid`,
`Cli.TamperedChainValidity`).

## Model

| member | source | states |
|---|---|---|
| `Crypto.Decimal` | verification.go:13 | the nonce's decimal text is non-empty, all digits, and has no leading zero |
| `Crypto.DecimalRoundTrip` | verification.go:13 | parsing the decimal text of a nonce gives the nonce back |
| `Crypto.DecimalInjective` | verification.go:13 | different nonces have different decimal texts |
| `Crypto.DistinctNoncesDistinctGuesses` | verification.go:11-17 | for fixed transactions and last hash, every nonce the search tries hashes a different guess string |
| `Verification.LeastProofUnique` | blockchain.go:124-131 | the least valid nonce is unique, so the search result depends only on the pool and the tip's hash |
| `Verification.VerifyChain` | verification.go:19-34 | true iff every block after block 0 links to the hash of its predecessor and its proof holds over its transactions minus the last; every chain of at most one block is valid |
| `Verification.VerifyChainAppend` | verification.go:19-33 | a chain extended by one block is valid iff the chain is valid and the block links to its tip with a valid proof |
| `Verification.VerifyChainPrefix` | verification.go:19-33 | every prefix of a valid chain is valid |
| `Verification.BrokenLinkInvalid` | verification.go:25-27 | a block whose previous hash differs from its predecessor's hash makes the chain invalid |
| `Verification.AlteredLinkInvalid` | verification.go:25-27 | changing the previous hash of any non-genesis block of a valid chain makes it invalid |
| `Verification.VerifyTransactionIgnoresSignature` | verification.go:36-38 | verifyTransaction holds iff the sender's balance covers the amount, whatever the signature |
| `Verification.VerifyTransactions` | verification.go:40-47 | true iff every pool transaction passes verifyTransaction against the same balance function (true for an empty pool) |
| `Accounts.SentByAppend` | blockchain.go:156-160 | the amount a participant sends over two concatenated lists is the sum over each |
| `Accounts.ReceivedByAppend` | blockchain.go:151-153 | the amount a participant receives over two concatenated lists is the sum over each |
| `Accounts.GenesisBalance` | blockchain.go:43-44 | on the fresh chain with an empty pool every participant's balance is 0 |
| `Accounts.BalanceAfterAdmission` | blockchain.go:156-162 | appending a transaction to the pool lowers the sender's balance by exactly its amount and leaves every other balance unchanged |
| `Accounts.NoDoubleSpend` | blockchain.go:169-189 | after an admitted spend the sender's balance is not negative, and a second spend by the same sender exceeding the remainder fails verifyTransaction |
| `Accounts.BalanceAfterMining` | blockchain.go:244-253 | after the pool is mined with a reward and emptied, each balance grows by what the pool paid to it, the miner gains 10, and "MINING" loses 10 |
| `Node.MiningPreservesValidity` | blockchain.go:226-252 | appending the block MineBlock builds (tip hash, next index, pool plus reward, a proof valid over the pool) to a valid chain gives a valid chain |
| `Node.AcceptedBlockValidity` | blockchain.go:258-267 | for a block with at least one transaction that links to the tip of a valid chain, the extended chain is valid iff the block's proof holds without its last transaction |
| `Node.KeepMatchingCopies` | blockchain.go:283-293 | the peer list after RemovePeerNode holds only copies of the node, as many as it occurred |
| `Node.BlockChain.constructor` | blockchain.go:43-44 | a new node has the chain `[Block{}]`, an empty pool, no peers and the given identity |
| `Node.BlockChain.Chain` | blockchain.go:26-30 | returns the chain as it is, without changing anything |
| `Node.BlockChain.OpenTransactions` | blockchain.go:32-36 | returns the pool as it is, without changing anything |
| `Node.BlockChain.PeerNodes` | blockchain.go:272-276 | returns the peer list as it is, without changing anything |
| `Node.BlockChain.GetLastBlock` | blockchain.go:165-167 | on a non-empty chain returns its last block |
| `Node.BlockChain.GetBalanceWithSender` | blockchain.go:140-163 | the three running sums give received-in-chain minus (sent-in-chain plus sent-in-pool) |
| `Node.BlockChain.GetBalance` | blockchain.go:133-138 | -1 when no wallet is set up, otherwise the node's own balance |
| `Node.BlockChain.ProofOfWork` | blockchain.go:124-131 | returns a nonce valid over the pool and the tip's hash, and every smaller nonce is invalid |
| `Node.BlockChain.AddTransaction` | blockchain.go:169-189 | succeeds iff a wallet is set up and the sender's balance covers the amount; on success the pool gains exactly the transaction built from the arguments, otherwise nothing changes; chain and peers never change |
| `Node.BlockChain.AddTransactionReceiving` | blockchain.go:191-219 | local admission as AddTransaction; reports success iff admitted and no peer declined with 400 or 500; the pool keeps the transaction even when a peer declines |
| `Node.BlockChain.MineBlock` | blockchain.go:221-256 | fails with no change iff no wallet is set up or some pool signature is invalid; otherwise appends exactly the block with the tip's hash, the old length as index, the pool plus the reward, and the least valid proof over the pool, then empties the pool; preserves verifyChain |
| `Node.BlockChain.AddBlock` | blockchain.go:258-270 | succeeds iff the proof holds over all the block's transactions and it links to the tip; then the chain gains exactly that block; the pool and peers never change |
| `Node.BlockChain.AddPeerNode` | blockchain.go:278-281 | appends the address, keeping duplicates |
| `Node.BlockChain.RemovePeerNode` | blockchain.go:283-293 | the new peer list is the old list filtered to the entries equal to the node |
| `Node.WalletScenario` | blockchain.go:169-256 | on a fresh node a spend of 5 fails, mining succeeds, the same spend then succeeds, and the balance reads 5 |
| `Cli.GenesisBalance` | main.go:29-45 | on the fresh chain with an empty pool every participant, Owner included, has balance 0 |
| `Cli.BalanceAfterAdmission` | main.go:105-128 | appending a transaction to the pool lowers its sender's balance by exactly its amount and leaves every other balance unchanged |
| `Cli.AllAffordable` | main.go:215-222 | true iff every listed transaction's sender has a balance covering its amount |
| `Cli.PendingSpendFailsRecheck` | main.go:134-136 | a pool holding one spend of the sender's whole confirmed balance fails verifyTransactions |
| `Cli.ChainValid` | main.go:198-213 | true iff every block after block 0 links to its predecessor's hash with a proof valid over its transactions minus the last |
| `Cli.MiningPreservesValidity` | main.go:159-181 | appending the mined block to a valid chain gives a valid chain |
| `Cli.TamperedChainValidity` | main.go:268-280 | overwriting block 0 of a valid chain keeps it valid iff the chain has one block or the new block 0 has the same hash as the old one |
| `Cli.Ledger.constructor` | main.go:29-45 | the fresh ledger has the chain `[Block{}]`, an empty pool and the participant set `{Owner}` |
| `Cli.Ledger.GetBalance` | main.go:105-128 | the three running sums give received-in-chain minus (sent-in-chain plus sent-in-pool) |
| `Cli.Ledger.GetLastBlock` | main.go:130-132 | on a non-empty chain returns its last block |
| `Cli.Ledger.NoDoubleSpend` | main.go:134-157 | when verifyTransaction admits a spend, the sender's balance with it in the pool is not negative, and a second spend by the same sender above what is left fails the balance test that addTransactionWithSender applies next |
| `Cli.Ledger.VerifyTransactions` | main.go:215-222 | true iff every pool transaction passes verifyTransaction |
| `Cli.Ledger.VerifyChain` | main.go:198-213 | the loop over the blocks returns true iff `Cli.ChainValid` holds of the current chain: every block after block 0 links to its predecessor's hash with a proof valid over its transactions minus the last |
| `Cli.Ledger.AddTransactionWithSender` | main.go:142-157 | succeeds iff the sender's balance covers the amount; on success appends the transaction and adds sender and recipient to the participants; otherwise nothing changes |
| `Cli.Ledger.AddTransaction` | main.go:138-140 | the same as AddTransactionWithSender with sender Owner |
| `Cli.Ledger.ProofOfWork` | main.go:96-103 | returns the least nonce valid over the pool and the tip's hash |
| `Cli.Ledger.MineBlock` | main.go:159-181 | appends exactly one block (tip hash, old length as index, pool plus the reward for Owner, least valid proof), leaves the pool unchanged, and keeps the chain valid |
| `Cli.Ledger.MineAndClearPool` | main.go:254-257 | the menu's mine option appends the mined block and then empties the pool |
| `Cli.Ledger.MenuStep` | main.go:245-290 | each option changes exactly what it should (a spend as AddTransaction, mining as MineAndClearPool, tampering overwrites block 0, every other option nothing); after every option but tampering the ledger stays valid and the check does not panic; after tampering it panics iff block 1 exists and the new block 0 hashes differently |

## Left out

- SHA-256, `json.Marshal` and the RSA signature check (hash.go, wallet.go) are library calls. They are parameters of the model. Nothing is proved about digests, JSON layout or signatures.
- Wallet key generation, signing, key files and base64 (wallet.go): foreign cryptography and file I/O.
- The HTTP handlers (node.go, old_node.go) and the menu's reading and printing (main.go:183-196, 224-244, 286): I/O. One pass of the menu loop is modelled as `Cli.Ledger.MenuStep` over a parsed `MenuChoice`; the endless loop around it, and the choice "q" beyond exiting before the check, are not. The handler at node.go:159-170 refuses a block whose index is not beyond the tip's. That check is not part of `AddBlock`, and the model does not require it of callers.
- Persistence (`LoadData`, `SaveData`, `loadData`, `saveData`): file I/O. Only the missing-file initial state is kept, as the constructors. A save changes no modelled field. The snapshot-reading bugs in `LoadData` (blockchain.go:76-77) are not modelled.
- Printing inside `validProof` and `verifyChain`.
- The unused `participants` variable of blockchain.go:16.
- Concurrency. Nothing in the code synchronises, and each operation is modelled as one atomic step.
- Amounts are exact reals, not float64: rounding, and the `%f` formatting that signing uses, are not modelled. Block indices are unbounded integers, not int64.
- `GetLastBlock` returns a pointer into the chain's storage. The model returns the block as a value, so writes through that pointer are not modelled. No caller makes any.
- `Chain` and `OpenTransactions` (blockchain.go:26-36) copy shallowly: each copied block still shares its `Transactions` backing array with the node's chain. The model returns values, so writes through such a shared array are not modelled. No caller makes any.
- The peer broadcast is modelled by the replies the peers give (`replies[k]` from `peerNodes[k]`). Timeouts, message encoding and which errors count as connection errors are not modelled.
- Node.BlockChain.ProofOfWork: requires a valid nonce below 2^64. Without one the Go loop wraps around and never ends, and that case is not modelled. The same holds for `Node.BlockChain.MineBlock`, `Cli.Ledger.ProofOfWork`, `Cli.Ledger.MineBlock`, `Cli.Ledger.MineAndClearPool` and the mine option of `Cli.Ledger.MenuStep`.
- Verification.VerifyChain: requires every block after the first to hold at least one transaction. The source checks each block's link (verification.go:25-27) before it slices `Transactions[:len-1]` (verification.go:28), so it panics on an empty block only when that block links correctly and every earlier block passed; an empty block with a broken link, or one after a failing block, makes it return false. The model does not cover chains holding an empty block.
- Node.AcceptedBlockValidity: covers only blocks with at least one transaction. `AddBlock` (blockchain.go:258-269) also appends a block with no transactions when validProof holds over the empty list and the block links to the tip; after that, Go's verifyChain passes the link check (verification.go:25) and panics slicing at verification.go:28. The model's `AddBlock` accepts that block too, but the model's `VerifyChain` cannot be applied to the resulting chain.
- Cli.ChainValid: the same requirement, for main.go:203-207.
- Cli.Ledger.VerifyChain: the same requirement.
- Node.BlockChain.MineBlock: wallet.go:115-128 panics when a pool entry's sender is not valid base64 (:117) or not a PKCS#1 public key (:122), or when its signature is not valid base64 (:127). Such entries can reach the pool, because admission checks only the balance. The model's total `sigValid` has no panic: it treats them as invalid signatures, so the model's `MineBlock` returns None with nothing changed where the Go node crashes.
