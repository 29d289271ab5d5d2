/** The networked ledger engine of the `block` package: a blockchain that checks signatures
    on admission and refuses to mine an empty pool. */
module BlockPackage {
  import opened Ledger

  /** The sender's ECDSA public key (curve point) and a signature (r, s). */
  datatype PublicKey = PublicKey(x: nat, y: nat)
  datatype Signature = Signature(r: nat, s: nat)

  /** ECDSA verification of a signature over the transaction's hash, left uninterpreted. */
  type Verifier = (PublicKey, Signature, Transaction) -> bool

  class Blockchain {
    var transactionPool: seq<Transaction>
    var chain: seq<Block>
    const blockchainAddress: Address
    const port: nat
    const hash: Hasher
    const verify: Verifier

    /** The chain always holds its genesis block, which points at the zero block's hash. */
    ghost predicate Valid()
      reads this
    {
      |chain| >= 1 && chain[0].previousHash == hash(ZeroBlock) && chain[0].transactions == []
    }

    /** Every block after genesis records the hash of its predecessor. */
    ghost predicate ChainLinked()
      reads this
    {
      Linked(hash, chain)
    }

    /** NewBlockchain: seals the genesis block over the zero block's hash. */
    constructor (blockchainAddress: Address, port: nat, hash: Hasher, verify: Verifier, now: int)
      requires port < 0x1_0000
      ensures Valid() && ChainLinked()
      ensures chain == [Block(now, 0, hash(ZeroBlock), [])] && transactionPool == []
      ensures this.blockchainAddress == blockchainAddress && this.port == port
      ensures this.hash == hash && this.verify == verify
    {
      this.blockchainAddress := blockchainAddress;
      this.port := port;
      this.hash := hash;
      this.verify := verify;
      chain := [];
      transactionPool := [];
      new;
      var genesis := CreateBlock(0, hash(ZeroBlock), now);
    }

    /** The tip of the chain. */
    function LastBlock(): (b: Block)
      reads this
      requires Valid()
      ensures b == chain[|chain| - 1]
    {
      chain[|chain| - 1]
    }

    /** Seals the whole pool, in order, into a new block at the end of the chain and empties
        the pool. The notification of neighbours that follows is not modelled. */
    method CreateBlock(nonce: int, previousHash: Digest, now: int) returns (b: Block)
      modifies this`chain, this`transactionPool
      ensures b == Block(now, nonce, previousHash, old(transactionPool))
      ensures chain == old(chain) + [b] && transactionPool == []
      ensures old(Valid()) ==> Valid() && LastBlock() == b
      ensures old(Valid()) ==>
                (ChainLinked() <==> old(ChainLinked()) && previousHash == hash(old(LastBlock())))
    {
      b := Block(now, nonce, previousHash, transactionPool);
      if |chain| > 0 {
        LinkedAppend(hash, chain, b);
      }
      chain := chain + [b];
      transactionPool := [];
    }

    /** A transaction from the minter identity is always admitted; any other only when its
        signature verifies. Only an admitted transaction is appended to the pool. A missing
        key or signature for another sender would be dereferenced, so callers supply both. */
    method AddTransaction(sender: Address, recipient: Address, value: Amount,
                          senderPublicKey: Option<PublicKey>, s: Option<Signature>)
      returns (admitted: bool)
      requires sender != MiningSender ==> senderPublicKey.Some? && s.Some?
      modifies this`transactionPool
      ensures admitted <==>
                sender == MiningSender ||
                verify(senderPublicKey.value, s.value, Transaction(sender, recipient, value))
      ensures transactionPool ==
                if admitted then old(transactionPool) + [Transaction(sender, recipient, value)]
                else old(transactionPool)
    {
      var t := Transaction(sender, recipient, value);
      if sender == MiningSender {
        transactionPool := transactionPool + [t];
        return true;
      }
      if verify(senderPublicKey.value, s.value, t) {
        transactionPool := transactionPool + [t];
        return true;
      }
      return false;
    }

    /** Empties the pool. */
    method ClearTransactionPool()
      modifies this`transactionPool
      ensures transactionPool == []
    {
      transactionPool := transactionPool[..0];
    }

    /** A transaction-by-transaction copy of the pool, in order. */
    method CopyTransactionPool() returns (transactions: seq<Transaction>)
      ensures transactions == transactionPool
    {
      transactions := [];
      for i := 0 to |transactionPool|
        invariant transactions == transactionPool[..i]
      {
        var t := transactionPool[i];
        transactions := transactions + [Transaction(t.sender, t.recipient, t.value)];
      }
    }

    /** Tries nonces 0, 1, 2, ... against the pool and the tip's hash and returns the first
        that passes. The search returns only when some nonce passes. */
    method ProofOfWork() returns (nonce: nat)
      requires Valid()
      requires Searchable(hash, hash(LastBlock()), transactionPool, MiningDifficulty)
      ensures ValidProof(hash, nonce, hash(LastBlock()), transactionPool, MiningDifficulty)
      ensures forall m: nat :: m < nonce ==>
                !ValidProof(hash, m, hash(LastBlock()), transactionPool, MiningDifficulty)
    {
      var transactions := CopyTransactionPool();
      var previousHash := hash(LastBlock());
      ghost var bound: nat :| ValidProof(hash, bound, previousHash, transactions, MiningDifficulty);
      nonce := 0;
      while !ValidProof(hash, nonce, previousHash, transactions, MiningDifficulty)
        invariant nonce <= bound
        invariant forall m: nat :: m < nonce ==>
                    !ValidProof(hash, m, previousHash, transactions, MiningDifficulty)
        decreases bound - nonce
      {
        nonce := nonce + 1;
      }
    }

    /** One mining pass: refuses an empty pool; otherwise admits the reward to this node's
        address, searches for a nonce and seals the block over the tip's hash. */
    method Mining(now: int) returns (mined: bool)
      requires Valid()
      requires transactionPool != [] ==>
                 Searchable(hash, hash(LastBlock()),
                            transactionPool + [RewardTransaction(blockchainAddress)], MiningDifficulty)
      modifies this`chain, this`transactionPool
      ensures Valid()
      ensures mined <==> old(transactionPool) != []
      ensures !mined ==> chain == old(chain) && transactionPool == old(transactionPool)
      ensures mined ==>
                |chain| == |old(chain)| + 1 && chain[..|old(chain)|] == old(chain) &&
                transactionPool == [] &&
                LastBlock().timestamp == now &&
                LastBlock().previousHash == hash(old(LastBlock())) &&
                LastBlock().transactions == old(transactionPool) + [RewardTransaction(blockchainAddress)] &&
                LeastValidNonce(hash, LastBlock().nonce, LastBlock().previousHash,
                                LastBlock().transactions, MiningDifficulty)
      ensures old(ChainLinked()) ==> ChainLinked()
    {
      if |transactionPool| == 0 {
        return false;
      }
      var rewarded := AddTransaction(MiningSender, blockchainAddress, MiningReward, None, None);
      var nonce := ProofOfWork();
      var previousHash := hash(LastBlock());
      var b := CreateBlock(nonce, previousHash, now);
      return true;
    }

    /** The sum, over every transaction of every block, of what `blockchainAddress` received
        minus what it sent. */
    method CalculateTotalAmount(blockchainAddress: Address) returns (totalAmount: Amount)
      ensures totalAmount == Balance(chain, blockchainAddress)
      ensures totalAmount == TransactionsNet(Sealed(chain), blockchainAddress)
    {
      totalAmount := 0;
      for i := 0 to |chain|
        invariant totalAmount == Balance(chain[..i], blockchainAddress)
      {
        var b := chain[i];
        ghost var before := totalAmount;
        for j := 0 to |b.transactions|
          invariant totalAmount == before + TransactionsNet(b.transactions[..j], blockchainAddress)
        {
          var t := b.transactions[j];
          assert b.transactions[..j + 1][..j] == b.transactions[..j];
          if blockchainAddress == t.recipient {
            totalAmount := totalAmount + t.value;
          }
          if blockchainAddress == t.sender {
            totalAmount := totalAmount - t.value;
          }
        }
        assert b.transactions[..|b.transactions|] == b.transactions;
        assert chain[..i + 1][..i] == chain[..i];
      }
      assert chain[..|chain|] == chain;
      BalanceIsSumOverSealed(chain, blockchainAddress);
    }
  }

  /** A transaction submission as decoded from a request: each field may be absent. */
  datatype TransactionRequest = TransactionRequest(
    senderBlockchainAddress: Option<Address>,
    recipientBlockchainAddress: Option<Address>,
    senderPublicKey: Option<string>,
    value: Option<Amount>,
    signature: Option<string>)
  {
    /** A request is valid when none of its five fields is missing. */
    function Validate(): (ok: bool)
      ensures ok <==> senderBlockchainAddress.Some? && recipientBlockchainAddress.Some? &&
                      senderPublicKey.Some? && value.Some? && signature.Some?
    {
      if senderBlockchainAddress.None? || recipientBlockchainAddress.None? ||
         senderPublicKey.None? || value.None? || signature.None?
      then false
      else true
    }
  }
}
