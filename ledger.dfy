/**
 * The ledger: an append-only chain of committed blocks plus a pool of
 * pending transactions, with proof-of-work search, block acceptance and
 * mining.
 *
 * The first half states the chain's invariant on attribute values; the
 * class `Blockchain` below keeps its chain of block objects within it.
 */
module Ledger {
  import opened Blocks
  import opened Work

  /** The genesis block's shape: index 0, no transactions, sentinel predecessor "0", no nonce. */
  predicate IsGenesis(a: Attributes)
  {
    a.index == 0 && a.transactions == [] && a.previousHash == "0" && a.nonce == None
  }

  /** The genesis block as committed at time `now`: hashed without a nonce and without proof-of-work. */
  function GenesisAttributes(hasher: Hasher, now: Timestamp): (g: Attributes)
    ensures IsGenesis(g) && HashCommitted(hasher, g)
  {
    var unhashed := Attributes(0, [], now, "0", None, None);
    unhashed.(hash := Some(hasher(unhashed)))
  }

  /** Linkage: every block after the first names the hash of the block before it. */
  predicate Linked(v: seq<Attributes>)
  {
    forall i :: 0 < i < |v| ==> v[i - 1].hash == Some(v[i].previousHash)
  }

  /** Every block's hash is committed; every block after genesis also passed proof-of-work. */
  predicate Committed(hasher: Hasher, v: seq<Attributes>)
  {
    forall i :: 0 <= i < |v| ==>
      HashCommitted(hasher, v[i]) && (i > 0 ==> MeetsDifficulty(v[i].hash.value))
  }

  /** What every reachable chain satisfies: non-empty, genesis first, linked, committed. */
  predicate ChainInvariant(hasher: Hasher, v: seq<Attributes>)
  {
    |v| > 0 && IsGenesis(v[0]) && Linked(v) && Committed(hasher, v)
  }

  /** Indices run 0, 1, 2, ... along the chain. */
  predicate Indexed(v: seq<Attributes>)
  {
    forall i :: 0 <= i < |v| ==> v[i].index == i
  }

  /**
   * Linkage as the chain is built: a chain is linked when it is a linked
   * chain plus one block that names the hash of that chain's tip.
   */
  predicate LinkedByAppends(v: seq<Attributes>)
  {
    |v| <= 1 || (LinkedByAppends(v[..|v| - 1]) && v[|v| - 2].hash == Some(v[|v| - 1].previousHash))
  }

  /** Appending one linked block at a time yields exactly the chains linked pointwise. */
  lemma {:induction false} LinkedByAppendsIff(v: seq<Attributes>)
    ensures LinkedByAppends(v) <==> Linked(v)
  {
    if |v| > 1 {
      var w := v[..|v| - 1];
      LinkedByAppendsIff(w);
      assert forall i :: 0 <= i < |w| ==> w[i] == v[i];
    }
  }

  /** The acceptance test of `add_block`, on attribute values: the candidate extends the tip and carries a valid proof. */
  predicate Accepts(hasher: Hasher, tip: Attributes, candidate: Attributes, proof: string)
  {
    tip.hash == Some(candidate.previousHash) && MeetsDifficulty(proof) && proof == hasher(candidate)
  }

  /** Appending an accepted candidate, with the proof as its hash, keeps the chain invariant. */
  lemma AcceptedBlockExtendsChain(hasher: Hasher, v: seq<Attributes>, candidate: Attributes, proof: string)
    requires ChainInvariant(hasher, v)
    requires candidate.hash == None
    requires Accepts(hasher, v[|v| - 1], candidate, proof)
    ensures ChainInvariant(hasher, v + [candidate.(hash := Some(proof))])
    ensures Indexed(v) && candidate.index == |v| ==> Indexed(v + [candidate.(hash := Some(proof))])
  {
  }

  /**
   * Acceptance is the step of the chain-building definition of linkage: an
   * accepted candidate, appended to a valid chain, gives a chain linked by appends.
   */
  lemma {:induction false} AcceptedBlockLinksByAppend(hasher: Hasher, v: seq<Attributes>, candidate: Attributes, proof: string)
    requires ChainInvariant(hasher, v)
    requires candidate.hash == None
    requires Accepts(hasher, v[|v| - 1], candidate, proof)
    ensures LinkedByAppends(v + [candidate.(hash := Some(proof))])
  {
    AcceptedBlockExtendsChain(hasher, v, candidate, proof);
    LinkedByAppendsIff(v + [candidate.(hash := Some(proof))]);
  }

  /** The block `mine` builds on top of `tip`, before proof-of-work. */
  function MineCandidate(tip: Attributes, pending: seq<Transaction>, now: Timestamp): (c: Attributes)
    requires tip.hash.Some?
  {
    Attributes(tip.index + 1, pending, now, tip.hash.value, None, None)
  }

  /** `a` with nonce `n` meets the difficulty: the proof-of-work search may stop at `n`. */
  predicate Solves(hasher: Hasher, a: Attributes, n: nat)
  {
    MeetsDifficulty(hasher(a.(nonce := Some(n))))
  }

  /**
   * In `mine`, the call to `add_block` cannot fail: the candidate names the
   * tip's hash, and the nonce found by proof-of-work gives a valid proof. The
   * chain it produces keeps the invariant and its indices in order.
   */
  lemma MinedBlockAccepted(hasher: Hasher, v: seq<Attributes>, pending: seq<Transaction>, now: Timestamp, n: nat)
    requires ChainInvariant(hasher, v)
    requires Solves(hasher, MineCandidate(v[|v| - 1], pending, now), n)
    ensures var c := MineCandidate(v[|v| - 1], pending, now).(nonce := Some(n));
      && Accepts(hasher, v[|v| - 1], c, hasher(c))
      && ChainInvariant(hasher, v + [c.(hash := Some(hasher(c)))])
      && (Indexed(v) ==> Indexed(v + [c.(hash := Some(hasher(c)))]))
  {
    var c := MineCandidate(v[|v| - 1], pending, now).(nonce := Some(n));
    AcceptedBlockExtendsChain(hasher, v, c, hasher(c));
  }

  /**
   * `m` is the block `mine` commits on top of `tip`: the candidate with the
   * smallest nonce that meets the difficulty, hashed under that nonce.
   */
  predicate MinedBlock(hasher: Hasher, tip: Attributes, pending: seq<Transaction>, now: Timestamp, m: Attributes)
  {
    && tip.hash.Some? && m.nonce.Some?
    && m.(hash := None) == MineCandidate(tip, pending, now).(nonce := m.nonce)
    && HashCommitted(hasher, m) && MeetsDifficulty(m.hash.value)
    && forall k: nat :: k < m.nonce.value ==> !Solves(hasher, MineCandidate(tip, pending, now), k)
  }

  /** What `Mine` reports: nothing to mine, or the index of the block it committed. */
  datatype MineOutcome = NothingToMine | Mined(index: nat)

  class Blockchain {
    /** The content digest used for every block of this ledger. */
    const hasher: Hasher
    var unconfirmedTransactions: seq<Transaction>
    var chain: seq<Block>

    /** The committed blocks' attributes, in chain order. */
    ghost function View(): (v: seq<Attributes>)
      reads this`chain, chain
      ensures |v| == |chain|
      ensures forall i :: 0 <= i < |chain| ==> v[i] == chain[i].Attrs()
    {
      var blocks := chain;
      seq(|blocks|, i requires 0 <= i < |blocks| reads blocks => blocks[i].Attrs())
    }

    ghost predicate Valid()
      reads this`chain, chain
    {
      ChainInvariant(hasher, View())
    }

    /** A new ledger holds only the genesis block and no pending transactions. */
    constructor (hasher: Hasher, now: Timestamp)
      ensures this.hasher == hasher
      ensures Valid() && Indexed(View())
      ensures unconfirmedTransactions == []
      ensures |chain| == 1 && fresh(chain[0])
      ensures chain[0].Attrs() == GenesisAttributes(hasher, now)
    {
      this.hasher := hasher;
      unconfirmedTransactions := [];
      chain := [];
      new;
      CreateGenesisBlock(now);
    }

    /** Appends a genesis block whose hash is its own digest, without proof-of-work. */
    method CreateGenesisBlock(now: Timestamp)
      modifies this`chain
      ensures |chain| == old(|chain|) + 1 && chain[..old(|chain|)] == old(chain)
      ensures fresh(chain[|chain| - 1])
      ensures chain[|chain| - 1].Attrs() == GenesisAttributes(hasher, now)
    {
      var genesis := new Block(0, [], now, "0");
      genesis.hash := Some(genesis.ComputeHash(hasher));
      chain := chain + [genesis];
    }

    /** The chain's tip: it always exists, and its hash is committed. */
    function LastBlock(): (b: Block)
      requires Valid()
      reads this`chain, chain
      ensures b == chain[|chain| - 1]
      ensures b.hash.Some? && HashCommitted(hasher, b.Attrs())
    {
      chain[|chain| - 1]
    }

    /** `blockHash` has the required leading zeros and is the block's digest. */
    function IsValidProof(block: Block, blockHash: string): (r: bool)
      reads block
      ensures r <==> LeadingZeros(blockHash) >= Difficulty && blockHash == hasher(block.Attrs())
    {
      StartsWithZeros(blockHash, Difficulty);
      StartsWith(blockHash, Zeros(Difficulty)) && blockHash == block.ComputeHash(hasher)
    }

    /**
     * Tries nonces 0, 1, 2, ... on `block` until its digest meets the
     * difficulty, leaving the winning nonce on the block. The search ends
     * because some nonce solves the block.
     */
    method ProofOfWork(block: Block) returns (computedHash: string)
      requires exists n: nat :: Solves(hasher, block.Attrs(), n)
      modifies block`nonce
      ensures block.nonce.Some?
      ensures block.Attrs() == old(block.Attrs()).(nonce := block.nonce)
      ensures computedHash == block.ComputeHash(hasher) && MeetsDifficulty(computedHash)
      ensures forall m: nat :: m < block.nonce.value ==> !Solves(hasher, old(block.Attrs()), m)
    {
      ghost var base := block.Attrs();
      ghost var w: nat :| Solves(hasher, base, w);
      block.nonce := Some(0);
      computedHash := block.ComputeHash(hasher);
      while !StartsWith(computedHash, Zeros(Difficulty))
        invariant block.nonce.Some? && block.nonce.value <= w
        invariant block.Attrs() == base.(nonce := block.nonce)
        invariant computedHash == block.ComputeHash(hasher)
        invariant forall m: nat :: m < block.nonce.value ==> !Solves(hasher, base, m)
        decreases w - block.nonce.value
      {
        block.nonce := Some(block.nonce.value + 1);
        computedHash := block.ComputeHash(hasher);
      }
    }

    /**
     * Accepts `block` with hash `proof` when it names the tip's hash and the
     * proof is valid; otherwise changes nothing.
     */
    method AddBlock(block: Block, proof: string) returns (added: bool)
      requires Valid()
      requires block.hash == None
      modifies this`chain, block`hash
      ensures Valid()
      ensures added <==> old(LastBlock().hash) == Some(block.previousHash) && old(IsValidProof(block, proof))
      ensures added ==> block.hash == Some(proof) && chain == old(chain) + [block]
      ensures added ==> View() == old(View()) + [block.Attrs()]
      ensures !added ==> block.hash == None && chain == old(chain) && View() == old(View())
    {
      ghost var v := View();
      ghost var candidate := block.Attrs();
      var previousHash := LastBlock().hash.value;
      if previousHash != block.previousHash {
        return false;
      }
      if !IsValidProof(block, proof) {
        return false;
      }
      StartsWithZeros(proof, Difficulty);
      assert Accepts(hasher, v[|v| - 1], candidate, proof);
      AcceptedBlockExtendsChain(hasher, v, candidate, proof);
      forall i | 0 <= i < |chain|
        ensures chain[i] != block
      {
        assert chain[i].hash.Some?;
      }
      block.hash := Some(proof);
      chain := chain + [block];
      assert View() == v + [candidate.(hash := Some(proof))];
      added := true;
    }

    /** Appends one transaction to the pending pool. */
    method AddNewTransaction(transaction: Transaction)
      modifies this`unconfirmedTransactions
      ensures Valid() == old(Valid())
      ensures unconfirmedTransactions == old(unconfirmedTransactions) + [transaction]
      ensures chain == old(chain) && View() == old(View())
    {
      unconfirmedTransactions := unconfirmedTransactions + [transaction];
      assert View() == old(View());
    }

    /**
     * Packages the pending transactions into a block on top of the tip, runs
     * proof-of-work on it, commits it and empties the pending pool.
     */
    method Mine(now: Timestamp) returns (outcome: MineOutcome)
      requires Valid()
      requires unconfirmedTransactions != [] ==>
        exists n: nat :: Solves(hasher, MineCandidate(LastBlock().Attrs(), unconfirmedTransactions, now), n)
      modifies this
      ensures Valid()
      ensures old(unconfirmedTransactions) == [] ==>
        outcome == NothingToMine && chain == old(chain) && unconfirmedTransactions == []
      ensures old(unconfirmedTransactions) != [] ==>
        && outcome == Mined(old(LastBlock().index) + 1)
        && |chain| == old(|chain|) + 1 && chain[..old(|chain|)] == old(chain)
        && fresh(chain[|chain| - 1])
        && MinedBlock(hasher, old(LastBlock().Attrs()), old(unconfirmedTransactions), now, chain[|chain| - 1].Attrs())
        && unconfirmedTransactions == []
      ensures Indexed(old(View())) ==> Indexed(View())
    {
      if unconfirmedTransactions == [] {
        return NothingToMine;
      }
      ghost var v := View();
      var lastBlock := LastBlock();
      var newBlock := new Block(lastBlock.index + 1, unconfirmedTransactions, now, lastBlock.hash.value);
      ghost var candidate := newBlock.Attrs();
      assert candidate == MineCandidate(v[|v| - 1], unconfirmedTransactions, now);
      var proof := ProofOfWork(newBlock);
      ghost var n := newBlock.nonce.value;
      ghost var mined := candidate.(nonce := Some(n), hash := Some(proof));
      assert MinedBlock(hasher, v[|v| - 1], unconfirmedTransactions, now, mined);
      MinedBlockAccepted(hasher, v, unconfirmedTransactions, now, n);
      StartsWithZeros(proof, Difficulty);
      var added := AddBlock(newBlock, proof);
      assert added;
      assert View() == v + [mined];
      unconfirmedTransactions := [];
      assert View() == v + [mined];
      outcome := Mined(newBlock.index);
    }
  }

  /**
   * One round trip through the ledger: a fresh ledger, one submitted
   * transaction, one mining round. The block mined is block 1, its hash
   * starts with "00", and nothing is left pending.
   */
  method MineFirstBlock(hasher: Hasher, created: Timestamp, tx: Transaction, minedAt: Timestamp)
    returns (ledger: Blockchain, outcome: MineOutcome)
    requires exists n: nat :: Solves(hasher, MineCandidate(GenesisAttributes(hasher, created), [tx], minedAt), n)
    ensures outcome == Mined(1)
    ensures ledger.Valid() && Indexed(ledger.View())
    ensures |ledger.chain| == 2 && ledger.unconfirmedTransactions == []
    ensures ledger.chain[1].transactions == [tx] && ledger.chain[1].previousHash == ledger.chain[0].hash.value
    ensures StartsWith(ledger.chain[1].hash.value, "00")
  {
    ledger := new Blockchain(hasher, created);
    ledger.AddNewTransaction(tx);
    ghost var w: nat :| Solves(hasher, MineCandidate(GenesisAttributes(hasher, created), [tx], minedAt), w);
    assert ledger.LastBlock().Attrs() == GenesisAttributes(hasher, created);
    assert ledger.unconfirmedTransactions == [tx];
    assert Solves(hasher, MineCandidate(ledger.LastBlock().Attrs(), ledger.unconfirmedTransactions, minedAt), w);
    outcome := ledger.Mine(minedAt);
  }
}
