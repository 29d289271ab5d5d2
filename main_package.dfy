/** The earlier standalone ledger of the `main` package: the same chain and pool, but every
    transaction is admitted without a check and mining runs even on an empty pool. */
module MainPackage {
  import opened Ledger

  class Blockchain {
    var transactionPool: seq<Transaction>
    var chain: seq<Block>
    const blockchainAddress: Address
    /** This copy serialises blocks differently before hashing, so it has its own hash. */
    const hash: Hasher

    /** The chain always holds its genesis block, which points at the zero block's hash. */
    ghost predicate Valid()
      reads this
    {
      |chain| >= 1 && chain[0].previousHash == hash(ZeroBlock) && chain[0].transactions == []
    }

    /** Every block after genesis records the hash of its predecessor. */
    ghost predicate ChainLinked()
      reads this
    {
      Linked(hash, chain)
    }

    /** NewBlockchain: seals the genesis block over the zero block's hash. */
    constructor (blockchainAddress: Address, hash: Hasher, now: int)
      ensures Valid() && ChainLinked()
      ensures chain == [Block(now, 0, hash(ZeroBlock), [])] && transactionPool == []
      ensures this.blockchainAddress == blockchainAddress && this.hash == hash
    {
      this.blockchainAddress := blockchainAddress;
      this.hash := hash;
      chain := [];
      transactionPool := [];
      new;
      var genesis := CreateBlock(0, hash(ZeroBlock), now);
    }

    /** The tip of the chain. */
    function LastBlock(): (b: Block)
      reads this
      requires Valid()
      ensures b == chain[|chain| - 1]
    {
      chain[|chain| - 1]
    }

    /** Seals the whole pool, in order, into a new block at the end of the chain and empties
        the pool. */
    method CreateBlock(nonce: int, previousHash: Digest, now: int) returns (b: Block)
      modifies this`chain, this`transactionPool
      ensures b == Block(now, nonce, previousHash, old(transactionPool))
      ensures chain == old(chain) + [b] && transactionPool == []
      ensures old(Valid()) ==> Valid() && LastBlock() == b
      ensures old(Valid()) ==>
                (ChainLinked() <==> old(ChainLinked()) && previousHash == hash(old(LastBlock())))
    {
      b := Block(now, nonce, previousHash, transactionPool);
      if |chain| > 0 {
        LinkedAppend(hash, chain, b);
      }
      chain := chain + [b];
      transactionPool := [];
    }

    /** Appends the transaction to the pool, with no check of any kind. */
    method AddTransaction(sender: Address, recipient: Address, value: Amount)
      modifies this`transactionPool
      ensures transactionPool == old(transactionPool) + [Transaction(sender, recipient, value)]
    {
      var t := Transaction(sender, recipient, value);
      transactionPool := transactionPool + [t];
    }

    /** A transaction-by-transaction copy of the pool, in order. */
    method CopyTransactionPool() returns (transactions: seq<Transaction>)
      ensures transactions == transactionPool
    {
      transactions := [];
      for i := 0 to |transactionPool|
        invariant transactions == transactionPool[..i]
      {
        var t := transactionPool[i];
        transactions := transactions + [Transaction(t.sender, t.recipient, t.value)];
      }
    }

    /** Tries nonces 0, 1, 2, ... against the pool and the tip's hash and returns the first
        that passes. The search returns only when some nonce passes. */
    method ProofOfWork() returns (nonce: nat)
      requires Valid()
      requires Searchable(hash, hash(LastBlock()), transactionPool, MiningDifficulty)
      ensures LeastValidNonce(hash, nonce, hash(LastBlock()), transactionPool, MiningDifficulty)
    {
      var transactions := CopyTransactionPool();
      var previousHash := hash(LastBlock());
      ghost var bound: nat :| ValidProof(hash, bound, previousHash, transactions, MiningDifficulty);
      nonce := 0;
      while !ValidProof(hash, nonce, previousHash, transactions, MiningDifficulty)
        invariant nonce <= bound
        invariant forall m: nat :: m < nonce ==>
                    !ValidProof(hash, m, previousHash, transactions, MiningDifficulty)
        decreases bound - nonce
      {
        nonce := nonce + 1;
      }
    }

    /** One mining pass, with no empty-pool guard: admits the reward to this node's address,
        searches for a nonce and seals the block over the tip's hash. Always succeeds. */
    method Mining(now: int) returns (mined: bool)
      requires Valid()
      requires Searchable(hash, hash(LastBlock()),
                          transactionPool + [RewardTransaction(blockchainAddress)], MiningDifficulty)
      modifies this`chain, this`transactionPool
      ensures Valid() && mined
      ensures |chain| == |old(chain)| + 1 && chain[..|old(chain)|] == old(chain)
      ensures transactionPool == []
      ensures LastBlock().timestamp == now
      ensures LastBlock().previousHash == hash(old(LastBlock()))
      ensures LastBlock().transactions == old(transactionPool) + [RewardTransaction(blockchainAddress)]
      ensures LeastValidNonce(hash, LastBlock().nonce, LastBlock().previousHash,
                              LastBlock().transactions, MiningDifficulty)
      ensures old(ChainLinked()) ==> ChainLinked()
    {
      AddTransaction(MiningSender, blockchainAddress, MiningReward);
      var nonce := ProofOfWork();
      var previousHash := hash(LastBlock());
      var b := CreateBlock(nonce, previousHash, now);
      return true;
    }

    /** The sum, over every transaction of every block, of what `blockchainAddress` received
        minus what it sent. */
    method CalculateTotalAmount(blockchainAddress: Address) returns (totalAmount: Amount)
      ensures totalAmount == Balance(chain, blockchainAddress)
      ensures totalAmount == TransactionsNet(Sealed(chain), blockchainAddress)
    {
      totalAmount := 0;
      for i := 0 to |chain|
        invariant totalAmount == Balance(chain[..i], blockchainAddress)
      {
        var b := chain[i];
        ghost var before := totalAmount;
        for j := 0 to |b.transactions|
          invariant totalAmount == before + TransactionsNet(b.transactions[..j], blockchainAddress)
        {
          var t := b.transactions[j];
          assert b.transactions[..j + 1][..j] == b.transactions[..j];
          if blockchainAddress == t.recipient {
            totalAmount := totalAmount + t.value;
          }
          if blockchainAddress == t.sender {
            totalAmount := totalAmount - t.value;
          }
        }
        assert b.transactions[..|b.transactions|] == b.transactions;
        assert chain[..i + 1][..i] == chain[..i];
      }
      assert chain[..|chain|] == chain;
      BalanceIsSumOverSealed(chain, blockchainAddress);
    }
  }

  const MinerAddress: Address := "my_blockchain_address"

  /** The balances over the chain the program's run builds: the miner's, "C"'s and "D"'s,
      which the program prints, and "X"'s, which it never asks for. */
  lemma ScenarioBalances(genesis: Block, first: Block, second: Block)
    requires genesis.transactions == []
    requires first.transactions == [Transaction("Mr. A", "B-san", 10), RewardTransaction(MinerAddress)]
    requires second.transactions ==
               [Transaction("C", "D", 20), Transaction("X", "Y", 9999), RewardTransaction(MinerAddress)]
    ensures Balance([genesis, first, second], MinerAddress) == 20
    ensures Balance([genesis, first, second], "C") == -20
    ensures Balance([genesis, first, second], "D") == 20
    ensures Balance([genesis, first, second], "X") == -9999
  {
    var chain := [genesis, first, second];
    var t1 := first.transactions;
    var t2 := second.transactions;
    forall a: Address
      ensures Balance(chain, a) == TransactionsNet(t1, a) + TransactionsNet(t2, a)
      ensures TransactionsNet(t1, a) == TransactionNet(t1[0], a) + TransactionNet(t1[1], a)
      ensures TransactionsNet(t2, a) ==
                TransactionNet(t2[0], a) + TransactionNet(t2[1], a) + TransactionNet(t2[2], a)
    {
      assert chain[..2] == [genesis, first] && chain[..2][..1] == [genesis] && [genesis][..0] == [];
      assert Balance([genesis], a) == 0;
      assert Balance(chain, a) == Balance(chain[..2], a) + TransactionsNet(t2, a);
      assert t1[..1] == [t1[0]] && t1[..1][..0] == [];
      assert TransactionsNet(t1, a) == TransactionsNet(t1[..1], a) + TransactionNet(t1[1], a);
      assert t2[..2] == [t2[0], t2[1]] && t2[..2][..1] == [t2[0]] && t2[..2][..1][..0] == [];
      assert TransactionsNet(t2, a) == TransactionsNet(t2[..2], a) + TransactionNet(t2[2], a);
      assert TransactionsNet(t2[..2], a) == TransactionsNet(t2[..2][..1], a) + TransactionNet(t2[1], a);
    }
  }

  /** The program's own run: a miner's chain, one transfer and a mining pass, two more
      transfers and a second mining pass, then the balances it prints for the miner, "C"
      and "D" (in tenths: 2.0, -2.0 and 2.0). The hash is any hash under which every nonce
      search ends; the timestamps are arbitrary. */
  method Scenario(hash: Hasher, t0: int, t1: int, t2: int)
    returns (me: Amount, c: Amount, d: Amount)
    requires forall ph: Digest, txs: seq<Transaction> :: Searchable(hash, ph, txs, MiningDifficulty)
    ensures me == 20 && c == -20 && d == 20
  {
    var bc := new Blockchain(MinerAddress, hash, t0);

    ghost var genesis := bc.LastBlock();
    bc.AddTransaction("Mr. A", "B-san", 10);
    var mined := bc.Mining(t1);
    ghost var first := bc.LastBlock();

    bc.AddTransaction("C", "D", 20);
    bc.AddTransaction("X", "Y", 9999);
    mined := bc.Mining(t2);
    ghost var second := bc.LastBlock();

    assert bc.chain == [genesis, first, second];
    ScenarioBalances(genesis, first, second);

    me := bc.CalculateTotalAmount(MinerAddress);
    c := bc.CalculateTotalAmount("C");
    d := bc.CalculateTotalAmount("D");
  }
}
