# goblockchain ledger engine in Dafny

This project models the ledger engine of goblockchain, a small proof-of-work blockchain in Go.
The engine exists in two copies. `block/blockchain.go` is the networked one, used by the
blockchain server. `main.go` is the earlier standalone program. Both keep a `Blockchain` whose
two mutable sequences, `chain` and `transactionPool`, change only through a few operations:

- the constructor (`NewBlockchain`) seals a genesis block over the hash of the zero block;
- `AddTransaction` appends a transaction to the pool;
- `CreateBlock` seals the pool into a new block and empties the pool;
- `Mining` adds the reward, searches for a nonce with `ProofOfWork` and seals the block;
- `CalculateTotalAmount` folds the sealed transactions into a balance.

Layout:

- `hex.dfy` (module `HexEncoding`) renders a digest the way `%x` prints a `[32]byte`. It also
  proves that "the first d hex digits are 0" means "the first d/2 bytes are 0 and, for odd d,
  the next byte is below 16".
- `ledger.dfy` (module `Ledger`) holds what both copies share: transactions, blocks, 32-byte
  digests, the constants (difficulty 3, minter identity `THE BLOCKCHAIN`, reward 1.0), the
  proof predicate `ValidProof`, hash linking and the balance fold with its lemmas.
- `block_package.dfy` (module `BlockPackage`) is the class for `block/blockchain.go`.
  Admission checks signatures and `Mining` refuses an empty pool. It also holds
  `TransactionRequest.Validate`.
- `main_package.dfy` (module `MainPackage`) is the class for `main.go`. Admission is unchecked
  and `Mining` always seals. It also holds the program's own run (`Scenario`) with the balances
  it prints for the miner, "C" and "D". `ScenarioBalances` adds the balance of "X", which
  the program never asks for.

Abstractions:

- The block hash (SHA-256 over the block's JSON form) is a `const hash: Block -> Digest` of each
  `Blockchain`. It is uninterpreted: nothing is assumed about it except that it is a function.
  The two copies serialise blocks differently, so each instance has its own hash.
- ECDSA verification is a `const verify: (PublicKey, Signature, Transaction) -> bool`. It is
  likewise uninterpreted.
- `float32` amounts are integers counting tenths of a coin, so the reward 1.0 is `10`.
- The wall-clock timestamp of a new block is a `now: int` parameter.
- The nonce search loops until a nonce passes. `ProofOfWork` and `Mining` therefore require
  `Searchable`: some non-negative nonce passes. Apart from the 64-bit wrap-around of Go's
  `int` nonce, that is exactly the case in which the Go loop ends. The loop's termination
  measure is a ghost witness of such a nonce. The search returns the least passing nonce.

## Model

| member | source | states |
|---|---|---|
| HexEncoding.HexDigit | block/blockchain.go:257 | a nibble's lower-case hex digit is '0' exactly when the nibble is 0 |
| HexEncoding.Hex | block/blockchain.go:257 | `%x` of a byte string has two characters per byte |
| HexEncoding.HexAt | block/blockchain.go:257 | character 2i of `%x` is byte i's high nibble and character 2i+1 its low nibble |
| HexEncoding.ZeroHexPrefixBytes | block/blockchain.go:254-258 | the first d hex characters are all '0' iff the first d/2 bytes are 0 and, for odd d, byte d/2 is below 16 |
| Ledger.RewardTransaction | block/blockchain.go:280 | definition used by the `Mining` contracts: the reward goes from the minter identity to the miner and is worth 1.0 |
| Ledger.GuessBlock | block/blockchain.go:256 | definition used by `ValidProof`: the candidate block has timestamp 0 and the given nonce, previous hash and transactions, so a proof never depends on the clock |
| Ledger.ValidProof | block/blockchain.go:254-259 | true iff the first `difficulty` characters of the hex digest of the timestamp-0 candidate block are all '0'; defined only for difficulty at most 64 |
| Ledger.ValidProofBytes | block/blockchain.go:254-259 | the proof predicate holds iff the candidate's digest starts with difficulty/2 zero bytes followed, for odd difficulty, by a byte below 16 |
| Ledger.MiningDifficultyBytes | block/blockchain.go:18 | at difficulty 3 a nonce passes iff digest byte 0 is 0 and byte 1 is below 16 |
| Ledger.LinkedAppend | block/blockchain.go:65-68 | appending a block keeps every block linked to its predecessor's hash iff the chain was linked and the new block points at the old tip's hash |
| Ledger.TransactionNet | block/blockchain.go:295-301 | a transaction adds its value to the recipient's balance, subtracts it from the sender's, leaves others alone, and a self-transfer counts 0 |
| Ledger.TransactionsNetAppend | block/blockchain.go:294-302 | the net effect of two runs of transactions is the sum of their net effects |
| Ledger.BalanceIsSumOverSealed | block/blockchain.go:292-305 | the block-by-block balance equals the sum over every sealed transaction, in chain order, of value received minus value sent |
| Ledger.SelfTransferNeutral | block/blockchain.go:296-301 | appending a self-transfer changes no address's net amount |
| Ledger.BalanceAppend | block/blockchain.go:293 | sealing a block adds exactly its transactions' net effect to every balance |
| Ledger.MinedBlockCredit | block/blockchain.go:280-283 | a mined block credits the miner with the reward and debits the minter identity by it, on top of the pool's own effect |
| BlockPackage.Blockchain.constructor | block/blockchain.go:100-107 | the chain is exactly one genesis block with nonce 0, no transactions and the hash of the zero block as previous hash; the pool is empty |
| BlockPackage.Blockchain.LastBlock | block/blockchain.go:128-130 | definition used by the `CreateBlock`, `ProofOfWork` and `Mining` contracts: the tip is the chain's final block |
| BlockPackage.Blockchain.CreateBlock | block/blockchain.go:65-68 | appends exactly one block carrying the pool in order, keeps earlier blocks, empties the pool, returns the new tip, and keeps the chain linked iff the given previous hash is the old tip's hash |
| BlockPackage.Blockchain.AddTransaction | block/blockchain.go:214-235 | admitted iff the sender is the minter identity or the signature verifies; on admission the pool gains the transaction at its end, otherwise nothing changes |
| BlockPackage.Blockchain.ClearTransactionPool | block/blockchain.go:211-213 | the pool is empty afterwards and the chain is untouched |
| BlockPackage.Blockchain.CopyTransactionPool | block/blockchain.go:243-252 | the copy equals the pool element by element, in order |
| BlockPackage.Blockchain.ProofOfWork | block/blockchain.go:261-270 | the returned nonce passes the proof predicate for the pool and the tip's hash, and every smaller non-negative nonce fails |
| BlockPackage.Blockchain.Mining | block/blockchain.go:272-286 | on an empty pool returns false and changes nothing; otherwise returns true, appends one block over the old tip's hash holding the old pool followed by the reward, with the least passing nonce, empties the pool and keeps the chain linked |
| BlockPackage.Blockchain.CalculateTotalAmount | block/blockchain.go:292-305 | the result is the balance of the address over the chain, equal to the net over all sealed transactions |
| BlockPackage.TransactionRequest.Validate | block/blockchain.go:315-324 | a request is valid iff all five fields are present |
| MainPackage.Blockchain.constructor | main.go:81-87 | the chain is exactly one genesis block over the hash of the zero block; the pool is empty |
| MainPackage.Blockchain.LastBlock | main.go:89-91 | definition used by the `CreateBlock`, `ProofOfWork` and `Mining` contracts: the tip is the chain's final block |
| MainPackage.Blockchain.CreateBlock | main.go:53-58 | appends exactly one block carrying the pool in order, keeps earlier blocks, empties the pool, returns the new tip, and keeps the chain linked iff the given previous hash is the old tip's hash |
| MainPackage.Blockchain.AddTransaction | main.go:134-137 | every transaction is appended at the end of the pool without any check |
| MainPackage.Blockchain.CopyTransactionPool | main.go:139-148 | the copy equals the pool element by element, in order |
| MainPackage.Blockchain.ProofOfWork | main.go:157-166 | the returned nonce is the least non-negative nonce whose timestamp-0 candidate passes at difficulty 3 |
| MainPackage.Blockchain.Mining | main.go:168-175 | always returns true, even on an empty pool; appends one block over the old tip's hash holding the old pool followed by the reward, with the least passing nonce; empties the pool and keeps the chain linked |
| MainPackage.Blockchain.CalculateTotalAmount | main.go:177-190 | the result is the balance of the address over the chain, equal to the net over all sealed transactions |
| MainPackage.ScenarioBalances | main.go:192-208 | over the chain the program builds, the miner holds 2.0, "C" -2.0 and "D" 2.0 (the three printed balances), and "X", never queried by the program, holds -999.9 |
| MainPackage.Scenario | main.go:192-208 | running the program's steps under any hash whose searches end, the three printed balances are 2.0 for the miner, -2.0 for "C" and 2.0 for "D" |

## Left out

- Network fan-out: the DELETE requests to neighbours after sealing (block/blockchain.go:69-75) and the PUT requests in `CreateTransaction` (block/blockchain.go:187-205). This is I/O whose responses are ignored. `CreateTransaction` is therefore `AddTransaction` plus I/O and has no member of its own.
- Neighbour discovery and its timers (`SetNeighbors`, `SyncNeighbors`, `StartSyncNeighbors`) and the mining timer `StartMining`. These are host enumeration and scheduling.
- The mutexes `mux` and `muxNeighbors`. `Mining` is one atomic sequential method. A concurrent `AddTransaction` between the search and the sealing is not modelled.
- SHA-256 and the JSON serialisation behind `Block.Hash`, `MarshalJSON` and `VerifyTransactionSignature`. These are the uninterpreted `hash` and `verify`. This also covers `main.go`'s different block serialisation and the JSON keys of `TransactionRequest`, including the misspelt sender key.
- Nil versus empty slices. Go serialises a nil transaction list as `null` and an empty one as `[]`. The model has one empty sequence, so the genesis block and the zero block both have `[]`.
- Key and signature parsing (`utils.PublicKeyFromString`, `utils.SignatureFromString`) and the key types. A public key is a pair of naturals and a signature a pair of naturals.
- BlockPackage.Blockchain.AddTransaction: requires a key and a signature whenever the sender is not the minter identity. The Go code would dereference the nil pointers and panic, and that crash is not modelled.
- BlockPackage.Blockchain.ProofOfWork: covers only runs that return. It requires that some nonce passes; without one the Go loop never ends. The 64-bit wrap-around of the `int` nonce after 2^63 attempts is not modelled.
- MainPackage.Blockchain.ProofOfWork: has the same restriction to runs that return, for the same reason.
- Ledger.ValidProof: requires a difficulty of at most 64, because a longer slice of the 64-character digest panics in Go. Its `difficulty: nat` also excludes negative difficulties, for which the repeat of zeros panics (block/blockchain.go:255). Only the constant 3 is ever used.
- Float rounding: amounts are exact integer tenths, so `float32` rounding (999.9 is not exact in `float32`) is not modelled.
- The `Print` methods, the `log` output, the `port` field's use and the `TransactionPool` getter. These are output or plain field reads.
- The server files `blockchain_server/blockchain_server.go` and `blockchain_server/main.go` (HTTP handlers, the process-wide cache and flag parsing) are not part of this model.
- The claim that the pool holds only transactions not yet sealed. It concerns object identity, which value-level transactions do not have. The model shows instead that sealing moves the whole pool into the block and empties the pool.
