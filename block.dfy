/**
 * A block of the ledger: one link of the chain, holding a batch of
 * transactions and the hash of its predecessor.
 *
 * A block object starts with four attributes; proof-of-work later adds a
 * `nonce` and acceptance adds the block's own `hash`. The content hash is
 * computed over whatever attributes the object has at that moment, so the
 * attribute record below carries `nonce` and `hash` as optional entries.
 */
module Blocks {

  datatype Option<T> = None | Some(value: T)

  /** A transaction record: an opaque key/value mapping supplied by the caller. */
  type Transaction = map<string, string>

  /** A wall-clock reading; the ledger stores and hashes it but never inspects it. */
  type Timestamp = real

  /** The attributes present on a block object, i.e. what its content hash serialises. */
  datatype Attributes = Attributes(
    index: nat,
    transactions: seq<Transaction>,
    timestamp: Timestamp,
    previousHash: string,
    nonce: Option<nat>,
    hash: Option<string>)

  /**
   * The content digest: SHA-256 of the canonical (key-sorted) JSON form of the
   * attributes. It is left abstract; being a function, it is deterministic.
   */
  type Hasher = Attributes -> string

  /**
   * A block carries a committed hash: its `hash` is the digest of the
   * attributes it had when the hash was assigned, that is, all of its other
   * attributes (the hash was not yet present then).
   */
  predicate HashCommitted(hasher: Hasher, a: Attributes)
  {
    a.hash == Some(hasher(a.(hash := None)))
  }

  class Block {
    const index: nat
    const transactions: seq<Transaction>
    const timestamp: Timestamp
    const previousHash: string
    var nonce: Option<nat>
    var hash: Option<string>

    /** A new block has neither a nonce nor a hash. */
    constructor (index: nat, transactions: seq<Transaction>, timestamp: Timestamp, previousHash: string)
      ensures Attrs() == Attributes(index, transactions, timestamp, previousHash, None, None)
    {
      this.index := index;
      this.transactions := transactions;
      this.timestamp := timestamp;
      this.previousHash := previousHash;
      nonce := None;
      hash := None;
    }

    /** The block's attribute dictionary as it stands now. */
    function Attrs(): (a: Attributes)
      reads this
    {
      Attributes(index, transactions, timestamp, previousHash, nonce, hash)
    }

    /**
     * The digest of the block's present attributes. Computed while the block
     * has no hash yet and then stored as its hash, it commits the block.
     */
    function ComputeHash(hasher: Hasher): (h: string)
      reads this
      ensures hash == None ==> HashCommitted(hasher, Attrs().(hash := Some(h)))
    {
      hasher(Attrs())
    }
  }

  /** Hash determinism: two blocks with the same attributes have the same digest. */
  lemma SameAttributesSameHash(hasher: Hasher, a: Block, b: Block)
    requires a.Attrs() == b.Attrs()
    ensures a.ComputeHash(hasher) == b.ComputeHash(hasher)
  {
  }
}
