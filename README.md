# A verified model of the blockchain101 ledger engine

This project models the ledger engine of a small single-node blockchain
(`app/utils/objects.py`). A **block** holds a batch of transactions, a
timestamp, the hash of its predecessor, and later a proof-of-work `nonce` and
its own committed `hash`. The **blockchain** owns an append-only `chain` of
committed blocks and a list of pending (`unconfirmed`) transactions. It
creates a genesis block, searches for a nonce whose digest starts with
`difficulty` (= 2) zero characters, accepts a candidate block on top of the
chain tip, and mines the pending transactions into a new block.

Modules:

- `Blocks` (`block.dfy`): the block's attribute record `Attributes`, the
  abstract digest `Hasher`, and the class `Block`, whose `nonce` and `hash`
  are updated in place.
- `Work` (`work.dfy`): the difficulty constant and Python's `startswith`
  test against a string of zeros, with a leading-zero count as an
  independent reference.
- `Ledger` (`ledger.dfy`): the chain invariant stated on attribute values,
  lemmas about it, and the class `Blockchain` with its methods.

The chain invariant (`ChainInvariant`, stated on a ledger as `Valid()`;
the constructor sets it up, and `AddBlock`, `AddNewTransaction` and `Mine`
keep it):

- the chain is never empty;
- its first block is a genesis block (index 0, no transactions, predecessor
  `"0"`, no nonce);
- every block after the first names its predecessor's hash;
- every block's hash is the digest of its other attributes;
- every block after genesis has a hash that meets the difficulty.

`CreateGenesisBlock` and `ProofOfWork` neither need nor keep it, as in the
source: calling `create_genesis_block` again appends a second genesis block
whose predecessor `"0"` is not the tip's hash, and `proof_of_work` run on a
block already in the chain gives it a nonce, so its stored hash no longer
matches its attributes. The source calls the first only from `__init__` and
the second only on the fresh block in `mine`.

Indices running 0, 1, 2, … (`Indexed`) are kept by the constructor and by
`Mine`. They are not part of `Valid()`, because `add_block` does not check a
block's index.

The digest covers whatever attributes the block object has when the hash is
computed. A block's `hash` is therefore not part of the digest it is assigned,
because it is set only afterwards. The model keeps this order: the attribute
record carries `nonce` and `hash` as optional entries, and "committed" means
`hash == hasher(attributes without hash)`. One consequence, which the model
makes visible but which no code path exercises: recomputing the digest of an
already committed block would include its `hash` attribute, so it would not
reproduce the stored hash.

## Model

| member | source | states |
|---|---|---|
| `Blocks.Block.constructor` | app/utils/objects.py:6-19 | a new block has exactly the four given attributes and neither a nonce nor a hash |
| `Blocks.Block.ComputeHash` | app/utils/objects.py:22-28 | the digest of the block's attributes as they stand now, with nonce and hash included when present; computed before a hash is set and then stored as the hash, it commits the block (its hash is the digest of its other attributes) |
| `Blocks.SameAttributesSameHash` | app/utils/objects.py:22-28 | the content hash is deterministic: blocks with equal attributes have equal digests |
| `Work.StartsWithZeros` | app/utils/objects.py:65 | a hash starts with `'0' * d` exactly when it has at least `d` leading zero characters |
| `Ledger.GenesisAttributes` | app/utils/objects.py:43-50 | the genesis block has index 0, no transactions, predecessor `"0"` and no nonce, and its hash is the digest of its other attributes |
| `Ledger.Blockchain.constructor` | app/utils/objects.py:34-41 | a new ledger has no pending transactions and a chain of exactly one fresh genesis block; the chain invariant and index order hold |
| `Ledger.Blockchain.CreateGenesisBlock` | app/utils/objects.py:43-50 | appends one fresh block with the genesis attributes and a hash equal to its own digest, without proof-of-work; earlier blocks are kept |
| `Ledger.Blockchain.LastBlock` | app/utils/objects.py:52-57 | the tip is the chain's final element; it always exists, and its hash is committed |
| `Ledger.Blockchain.ProofOfWork` | app/utils/objects.py:59-69 | leaves a nonce on the block and changes nothing else; returns the block's digest under that nonce, which meets the difficulty; no smaller nonce meets it |
| `Ledger.Blockchain.IsValidProof` | app/utils/objects.py:90-94 | true exactly when the hash has at least `difficulty` leading zeros and equals the block's digest; reads only the block |
| `Ledger.Blockchain.AddBlock` | app/utils/objects.py:71-87 | accepts exactly when the block names the tip's hash and the proof is valid. On acceptance it sets `hash` to the proof and appends the block. On rejection, `chain` and the block's `hash` are unchanged. The invariant is kept either way |
| `Ledger.AcceptedBlockExtendsChain` | app/utils/objects.py:78-86 | appending an accepted candidate, hashed with its proof, keeps the chain invariant, and keeps index order when its index is the chain length |
| `Ledger.AcceptedBlockLinksByAppend` | app/utils/objects.py:78-86 | accepting a candidate is one step of building a chain by appends: the valid chain plus the accepted block, hashed with its proof, is linked by appends |
| `Ledger.LinkedByAppendsIff` | app/utils/objects.py:78-86 | a chain built by appending blocks that name the current tip's hash is exactly a chain where `chain[i].previous_hash == chain[i-1].hash` for every `i > 0` |
| `Ledger.Blockchain.AddNewTransaction` | app/utils/objects.py:96-97 | appends exactly one record to the end of the pending list on a ledger in any state; the chain is unchanged, so the ledger is valid afterwards exactly when it was before |
| `Ledger.Blockchain.Mine` | app/utils/objects.py:99-119 | with nothing pending: returns "nothing to mine" and changes nothing. Otherwise: commits one fresh block with index `tip.index + 1`, predecessor `tip.hash`, the old pending list as transactions, and the smallest solving nonce; earlier blocks are kept, pending becomes empty, and the new index is returned |
| `Ledger.MinedBlockAccepted` | app/utils/objects.py:105-119 | the `add_block` call inside `mine` cannot fail: the candidate names the tip's hash and its proof-of-work hash is a valid proof. The extended chain keeps the invariant and the index order |
| `Ledger.MineFirstBlock` | app/utils/objects.py:99-119 | on a fresh ledger with one pending transaction, mining returns index 1 and the chain has two blocks. Block 1 holds that transaction, names the genesis hash, and has a hash that starts with `"00"`. Nothing is left pending |

## Left out

- The digest (`sha256` over `json.dumps(..., sort_keys=True)`) is a library call. It is replaced by a deterministic function `hasher: Attributes -> string`, given to the ledger when it is created. Nothing is assumed about it beyond being a function. So the model states only that equal attributes give equal digests; that changing an attribute changes the digest needs SHA-256's collision resistance and is not modelled.
- `time.time()` (creating the genesis block, mining) reads the wall clock. The timestamp is a parameter (`now`), and the model does not inspect it.
- Transactions are opaque string-to-string maps. This simplifies their value type: the request layer adds a floating-point `timestamp` value to each record, which the model would have to store as a string. The ledger never reads these records, so no behaviour of the ledger depends on it. The request layer's check of `author`/`content` is not part of this model (`app/controller.py`).
- `Ledger.Blockchain.CreateGenesisBlock`, `Ledger.Blockchain.ProofOfWork`: do not keep the chain invariant when called on an existing ledger or on a block already in the chain (see above); the model, like the source, does not guard against this.
- `Ledger.Blockchain.ProofOfWork`: a search that never ends is not modelled. The method requires that some nonce meets the difficulty, which is exactly when the source's loop terminates. `Ledger.Blockchain.Mine` requires the same of the block it builds.
- `Ledger.Blockchain.AddBlock`: requires that the block has no `hash` yet, i.e. it was never committed. Calling `add_block` again on a block object that is already in a chain (aliasing it twice) is not modelled.
- The new block shares the pending list object in the source. `mine` then rebinds the pending list instead of mutating it, so the model uses sequence values and does not model this sharing.
- The Flask routes, template rendering and the process-wide ledger instance (`app/controller.py`, `app/__init__.py`) are web plumbing.
- Concurrency: the source has no locking, and the model is sequential.
- Python integers are unbounded; indices and nonces are `nat`.
