/** Values shared by both copies of the ledger engine: transactions, blocks, digests,
    the proof-of-work predicate, hash linking and the balance fold. */
module Ledger {
  import opened HexEncoding

  datatype Option<T> = None | Some(value: T)

  type Address = string

  /** Go's float32 amounts, counted here in tenths of a coin: 1.0 is 10. */
  type Amount = int

  /** A SHA-256 digest: 32 bytes. */
  type Digest = s: seq<byte> | |s| == 32 witness ZeroDigest

  /** Go's zero value of `[32]byte`. */
  const ZeroDigest: seq<byte> := seq(32, _ => 0 as byte)

  const MiningDifficulty: nat := 3
  const MiningSender: Address := "THE BLOCKCHAIN"
  const MiningReward: Amount := 10

  datatype Transaction = Transaction(sender: Address, recipient: Address, value: Amount)

  datatype Block = Block(timestamp: int, nonce: int, previousHash: Digest, transactions: seq<Transaction>)

  /** Go's `&Block{}`: every field at its zero value. */
  const ZeroBlock: Block := Block(0, 0, ZeroDigest, [])

  /** The content hash of a block (SHA-256 over its JSON form), left uninterpreted. */
  type Hasher = Block -> Digest

  /** The reward transaction a miner admits before sealing. */
  function RewardTransaction(miner: Address): (t: Transaction)
    ensures t.sender == MiningSender && t.recipient == miner && t.value == MiningReward
  {
    Transaction(MiningSender, miner, MiningReward)
  }

  // ---------------------------------------------------------------- proof of work

  /** The block that a candidate nonce is judged by: timestamp fixed at 0. */
  function GuessBlock(nonce: int, previousHash: Digest, transactions: seq<Transaction>): (b: Block)
    ensures b.timestamp == 0 && b.nonce == nonce
    ensures b.previousHash == previousHash && b.transactions == transactions
  {
    Block(0, nonce, previousHash, transactions)
  }

  /** The first `difficulty` characters of the hex digest of the guess block are the
      string of `difficulty` zeros. A difficulty above 64 would slice past the end. */
  function ValidProof(hash: Hasher, nonce: int, previousHash: Digest,
                      transactions: seq<Transaction>, difficulty: nat): (ok: bool)
    requires difficulty <= 64
    ensures ok <==> ZeroHexPrefix(hash(GuessBlock(nonce, previousHash, transactions)), difficulty)
  {
    var zeros := seq(difficulty, _ => '0');
    var guessHashStr := Hex(hash(GuessBlock(nonce, previousHash, transactions)));
    guessHashStr[..difficulty] == zeros
  }

  /** The proof predicate in terms of the digest bytes. */
  lemma ValidProofBytes(hash: Hasher, nonce: int, previousHash: Digest,
                        transactions: seq<Transaction>, difficulty: nat)
    requires difficulty <= 64
    ensures ValidProof(hash, nonce, previousHash, transactions, difficulty) <==>
            ZeroNibblePrefix(hash(GuessBlock(nonce, previousHash, transactions)), difficulty)
  {
    ZeroHexPrefixBytes(hash(GuessBlock(nonce, previousHash, transactions)), difficulty);
  }

  /** At the mining difficulty of 3: the first byte is zero and the second is below 16. */
  lemma MiningDifficultyBytes(hash: Hasher, nonce: int, previousHash: Digest,
                              transactions: seq<Transaction>)
    ensures ValidProof(hash, nonce, previousHash, transactions, MiningDifficulty) <==>
            var h := hash(GuessBlock(nonce, previousHash, transactions));
            h[0] == 0 && h[1] < 16
  {
    ValidProofBytes(hash, nonce, previousHash, transactions, MiningDifficulty);
  }

  /** Some non-negative nonce passes: apart from the wrap-around of Go's 64-bit nonce, the
      case in which the nonce search terminates. */
  ghost predicate Searchable(hash: Hasher, previousHash: Digest,
                             transactions: seq<Transaction>, difficulty: nat)
  {
    difficulty <= 64 &&
    exists nonce: nat :: ValidProof(hash, nonce, previousHash, transactions, difficulty)
  }

  /** `nonce` is the least non-negative nonce that passes. */
  ghost predicate LeastValidNonce(hash: Hasher, nonce: int, previousHash: Digest,
                                  transactions: seq<Transaction>, difficulty: nat)
    requires difficulty <= 64
  {
    0 <= nonce && ValidProof(hash, nonce, previousHash, transactions, difficulty) &&
    forall m: nat :: m < nonce ==> !ValidProof(hash, m, previousHash, transactions, difficulty)
  }

  // ---------------------------------------------------------------- hash linking

  /** Every block after the first records the hash of its predecessor. */
  ghost predicate Linked(hash: Hasher, chain: seq<Block>)
  {
    forall i :: 0 < i < |chain| ==> chain[i].previousHash == hash(chain[i - 1])
  }

  /** Appending keeps the chain linked exactly when the new block points at the old tip. */
  lemma LinkedAppend(hash: Hasher, chain: seq<Block>, b: Block)
    requires chain != []
    ensures Linked(hash, chain + [b]) <==>
            Linked(hash, chain) && b.previousHash == hash(chain[|chain| - 1])
  {
    var c := chain + [b];
    if Linked(hash, c) {
      forall i | 0 < i < |chain| ensures chain[i].previousHash == hash(chain[i - 1]) {
        assert c[i] == chain[i] && c[i - 1] == chain[i - 1];
      }
      assert c[|chain|].previousHash == hash(c[|chain| - 1]);
      assert c[|chain|] == b && c[|chain| - 1] == chain[|chain| - 1];
    }
    if Linked(hash, chain) && b.previousHash == hash(chain[|chain| - 1]) {
      forall i | 0 < i < |c| ensures c[i].previousHash == hash(c[i - 1]) {
        if i < |chain| {
          assert c[i] == chain[i] && c[i - 1] == chain[i - 1];
        }
      }
    }
  }

  // ---------------------------------------------------------------- balances

  /** What one transaction does to the balance of `a`: plus the value if `a` receives it,
      minus the value if `a` sends it. */
  function TransactionNet(t: Transaction, a: Address): (n: Amount)
    ensures t.sender == t.recipient ==> n == 0
    ensures t.sender != a && t.recipient != a ==> n == 0
    ensures t.sender != t.recipient && t.recipient == a ==> n == t.value
    ensures t.sender != t.recipient && t.sender == a ==> n == -t.value
  {
    (if a == t.recipient then t.value else 0) - (if a == t.sender then t.value else 0)
  }

  /** The net effect of a run of transactions, folded front to back. */
  function TransactionsNet(txs: seq<Transaction>, a: Address): Amount
  {
    if txs == [] then 0
    else TransactionsNet(txs[..|txs| - 1], a) + TransactionNet(txs[|txs| - 1], a)
  }

  /** The balance of `a` over a chain, folded block by block. */
  function Balance(chain: seq<Block>, a: Address): Amount
  {
    if chain == [] then 0
    else Balance(chain[..|chain| - 1], a) + TransactionsNet(chain[|chain| - 1].transactions, a)
  }

  /** Every sealed transaction, in chain order. */
  function Sealed(chain: seq<Block>): seq<Transaction>
  {
    if chain == [] then [] else Sealed(chain[..|chain| - 1]) + chain[|chain| - 1].transactions
  }

  lemma {:induction false} TransactionsNetAppend(x: seq<Transaction>, y: seq<Transaction>, a: Address)
    ensures TransactionsNet(x + y, a) == TransactionsNet(x, a) + TransactionsNet(y, a)
  {
    if y != [] {
      var y' := y[..|y| - 1];
      assert (x + y)[..|x + y| - 1] == x + y';
      assert (x + y)[|x + y| - 1] == y[|y| - 1];
      TransactionsNetAppend(x, y', a);
    } else {
      assert x + y == x;
    }
  }

  /** The balance is the sum, over every sealed transaction, of value received minus value sent. */
  lemma {:induction false} BalanceIsSumOverSealed(chain: seq<Block>, a: Address)
    ensures Balance(chain, a) == TransactionsNet(Sealed(chain), a)
  {
    if chain != [] {
      var prefix := chain[..|chain| - 1];
      BalanceIsSumOverSealed(prefix, a);
      TransactionsNetAppend(Sealed(prefix), chain[|chain| - 1].transactions, a);
    }
  }

  /** A self-transfer changes nobody's balance, whatever its value. */
  lemma SelfTransferNeutral(txs: seq<Transaction>, x: Address, v: Amount, a: Address)
    ensures TransactionsNet(txs + [Transaction(x, x, v)], a) == TransactionsNet(txs, a)
  {
  }

  /** Sealing a block adds its transactions' net effect and leaves the earlier blocks' share alone. */
  lemma BalanceAppend(chain: seq<Block>, b: Block, a: Address)
    ensures Balance(chain + [b], a) == Balance(chain, a) + TransactionsNet(b.transactions, a)
  {
  }

  /** A mined block credits its miner with the reward on top of the pool's own effect. */
  lemma MinedBlockCredit(pool: seq<Transaction>, miner: Address, a: Address)
    requires miner != MiningSender
    ensures TransactionsNet(pool + [RewardTransaction(miner)], a) ==
            TransactionsNet(pool, a) + (if a == miner then MiningReward
                                        else if a == MiningSender then -MiningReward else 0)
  {
  }
}
