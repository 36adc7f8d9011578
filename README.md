# Contract state store and sealed-block lookups of fuel-core, modelled in Dafny

This project models two parts of fuel-core's database layer.

**The Merkle-indexed contract state store** (`ContractsState`). It keeps
three columns consistent:

- the raw column mapping `(ContractId, slot)` to a 32-byte value;
- the metadata column mapping a contract to the last root of its sparse Merkle tree;
- the content-addressed node store of those trees.

It offers `get`, `contains_key`, `insert`, `remove` and `root`.

- `state.dfy` (module `State`) describes every operation as a function of the
  three columns. It also holds the invariant the columns keep and the
  lemmas about it.
- `state_database.dfy` (module `StateDatabase`) is the database object. It
  has the three columns as fields, and its `Insert` and `Remove` methods
  update them in place. Each method is proved equal to its `State`
  counterpart. Client methods replay fuel-core's unit tests on a fresh
  database.

**The sealed-block lookups** (`sealed_block.dfy`, module `SealedBlocks`).
These read-only functions combine a block read and a consensus read into a
sealed block or a sealed header. `get_genesis` returns a distinct not-found
error when the genesis consensus record is absent or is not a genesis record.

`primitives.dfy` holds `Option`/`Result`, the 32-byte types, the literal
`[0; 32]` and the storage error type.

## How the tree engine is abstracted

- A tree is the map of its leaves (`Content`). Its root is `commit(content)`.
  The commitment function `commit` is a parameter, so the model fixes none of
  the tree's hashing.
- The node store maps every root a tree has written to the content that root
  commits to. `MerkleTree::load` fails with `Other(LoadError(root))` exactly
  when the root is not in the node store. Nodes are never deleted.
- `tree.update` is `content[slot := value]` and `tree.delete` is
  `content - {slot}`.
- The engine assumptions are explicit, satisfiable predicates on `commit`.
  `State.EngineIsSatisfiable` exhibits a commitment that meets them.
  - `EmptyOnlyForEmpty`: only the tree with no leaves has the empty root.
  - `EmptyRootIsZero`: the in-memory empty root (`EmptyRoot(commit)`, compared
    by `remove` and returned by `root`) equals the literal `[0; 32]` that
    `insert` compares against. The code uses both values. The model keeps both
    checks as written and states that they agree as an assumption.
  - `Engine` is the conjunction of the two. It is required by the lemmas
    about `insert`, which compare against `[0; 32]`, and by the database's
    `Valid()`, on which the database's `Insert` and `Remove` clauses rest.
    The lemmas about `remove` and `root` require only `EmptyOnlyForEmpty`.
- Roots are 32 bytes, so no commitment is collision-free on all trees.
  Collision resistance is therefore assumed per write: `NoCollision(commit,
  nodes, content)` says the root of the tree about to be written names no
  other tree in the node store. `RemoveNoCollision` asks this only for the
  non-empty tree a `remove` writes; the empty tree never collides
  (`State.EmptyTreeNeverCollides`). Lemmas that keep the invariant, or that
  say a root changes, take this as a hypothesis about the one write they
  describe.

The invariant `State.Consistent` says three things:

- every stored node is keyed by the root of its own content;
- every metadata root loads exactly the contract's raw entries;
- metadata is present exactly for the contracts that have raw entries.

From it the model proves:

- the stored root equals the commitment of the current content, and a
  contract without metadata reports the empty root;
- a raw entry exists exactly when its leaf does.

Two behaviours of the code worth noting:

- `insert` detects "no tree yet" by comparing the metadata root, or the
  default record's root, with the literal `[0; 32]`. It does not use the
  canonical empty root.
- On a tree-load failure, the raw column has already been written or
  removed. The model keeps that write and leaves the metadata and node
  store unchanged.

## Model

| member | source | states |
|---|---|---|
| `State.Get` | crates/fuel-core/src/database/state.rs:39-46 | the stored value of the key, nothing exactly when the key is absent; never an error |
| `State.ContainsKey` | crates/fuel-core/src/database/state.rs:47-53 | true exactly when `get` finds a value |
| `State.GetIsLeaf` | crates/fuel-core/src/database/state.rs:39-53 | a key is found exactly when its contract's content has the slot, and `get` returns that leaf's value |
| `State.EmptyRoot` | crates/fuel-core/src/database/state.rs:125-146 | the root of the tree with no leaves, computed in memory as `commit(map[])`; `remove` compares against it and `root` returns it |
| `State.Root` | crates/fuel-core/src/database/state.rs:142-148 | the metadata root when there is metadata, else the in-memory empty root; there is no error path |
| `State.LoadTree` | crates/fuel-core/src/database/state.rs:79-80 | loading succeeds exactly when the node store holds the root, and yields the tree stored under it; otherwise the error is `Other(LoadError(root))` |
| `State.PriorRoot` | crates/fuel-core/src/database/state.rs:66-71 | the contract's metadata root, or the default record's `[0; 32]` when there is none |
| `State.PriorTree` | crates/fuel-core/src/database/state.rs:73-82 | the empty tree when the prior root is `[0; 32]`, else exactly what loading the prior root yields |
| `State.Insert` | crates/fuel-core/src/database/state.rs:57-96 | the raw value is written and reads back on every path, other keys and other contracts' metadata are unchanged; the only failure is a non-`[0; 32]` prior root missing from the node store, which leaves metadata and nodes untouched and is never treated as empty; on success the previous raw value is returned, the metadata holds the root of the prior tree with the leaf updated, and the node store gains that tree under that root |
| `State.Remove` | crates/fuel-core/src/database/state.rs:98-138 | the key no longer exists on every path and other keys and contracts are unchanged; without metadata only the raw column changes; the only failure is an unloadable metadata root; on success the removed value is returned, the loaded tree without the leaf is written under its root, and the metadata is dropped exactly when that root is the empty root, else overwritten with it |
| `State.RootIsEmptyIff` | crates/fuel-core/src/database/state.rs:74-76 | when only the empty tree has the empty root, a tree's root is the empty root exactly when it has no leaves, and, when the empty root is `[0; 32]`, so the `[0; 32]` test agrees with it |
| `State.EngineIsSatisfiable` | crates/fuel-core/src/database/state.rs:74-76 | some commitment meets the engine assumptions, so the lemmas that require them hold of real inputs |
| `State.ClientAssumptionsSatisfiable` | crates/fuel-core/src/database/state.rs:262-298 | the no-collision premise of the two-slot clients is met by a commitment that meets the engine assumptions |
| `State.RootIsCommitment` | crates/fuel-core/src/database/state.rs:142-148 | on a consistent store, the root of every contract, with or without metadata, is the commitment of that contract's current raw entries; a contract without metadata gets the empty root and no error |
| `State.MetadataIffEntries` | crates/fuel-core/src/database/state.rs:124-134 | on a consistent store a contract has metadata exactly when it has raw entries |
| `State.LeafIffRawEntry` | crates/fuel-core/src/database/state.rs:84-86 | on a consistent store a raw entry exists exactly when the contract's stored tree holds that leaf, with the same value |
| `State.RootDependsOnlyOnContent` | crates/fuel-core/src/database/state.rs:300-346 | two consistent stores whose raw entries agree for a contract report the same root for it; conversely, equal roots imply equal entries unless the second store's content collides with a tree the first store holds |
| `State.InsertOnConsistent` | crates/fuel-core/src/database/state.rs:66-93 | on a consistent store `insert` materialises exactly the contract's current entries, never fails, returns the previous value and writes the root of the updated content |
| `State.InsertPreservesConsistent` | crates/fuel-core/src/database/state.rs:57-96 | `insert` on a consistent store keeps the invariant whenever its new tree collides with no stored tree; the contract then has metadata, and its root is the commitment of its content with the slot updated |
| `State.RemoveOnConsistent` | crates/fuel-core/src/database/state.rs:106-135 | on a consistent store `remove` never fails and returns the removed value; with metadata it writes the tree without the leaf and drops the metadata exactly when no entry remains; without metadata the contract had no entries and nothing but the raw column changes |
| `State.EmptyTreeNeverCollides` | crates/fuel-core/src/database/state.rs:125-128 | in a content-addressed node store, every tree under the empty root is the empty tree, so writing the empty tree never collides |
| `State.RemovePreservesConsistent` | crates/fuel-core/src/database/state.rs:98-138 | `remove` on a consistent store keeps the invariant whenever the non-empty tree it writes collides with no stored tree; the root becomes the commitment of the content without the slot, and metadata remains exactly when entries remain |
| `State.InsertRoot` | crates/fuel-core/src/database/state.rs:89-93 | after `insert` on a consistent store the root is the commitment of the content with the slot updated |
| `State.RemoveRoot` | crates/fuel-core/src/database/state.rs:124-134 | after `remove` on a consistent store the root is the commitment of the content without the slot, also when the metadata was dropped |
| `State.InsertChangesRootIff` | crates/fuel-core/src/database/state.rs:262-298 | when the new tree collides with no stored tree, an insert changes the contract's root exactly when it changes the stored value; a new slot then always gives a new root |
| `State.InsertSameValueKeepsStore` | crates/fuel-core/src/database/state.rs:89-93 | inserting the value already stored succeeds and rewrites the metadata with the root it already held, so no column changes |
| `State.RemoveChangesRootIff` | crates/fuel-core/src/database/state.rs:98-138 | when the tree it writes collides with no stored tree, a remove changes the contract's root exactly when the key was stored |
| `State.InsertThenRemoveRestoresRoot` | crates/fuel-core/src/database/state.rs:300-346 | inserting a slot that was absent and removing it again restores the raw column and every contract's root |
| `State.OtherContractsUnaffected` | crates/fuel-core/src/database/state.rs:92-93 | an insert or remove on one contract leaves every other contract's root unchanged |
| `State.UnloadableRootIsAnError` | crates/fuel-core/src/database/state.rs:79-80 | a metadata root the node store cannot load makes `insert` and `remove` fail with that load error; only the raw column has changed |
| `StateDatabase.Database.constructor` | crates/fuel-core/src/database/state.rs:160-165 | a default database has every column empty, and it is valid whenever the commitment meets the engine assumptions |
| `StateDatabase.Database.Get` | crates/fuel-core/src/database/state.rs:39-46 | the stored value under the key, nothing exactly when it is absent |
| `StateDatabase.Database.ContainsKey` | crates/fuel-core/src/database/state.rs:47-53 | true exactly when `Get` finds a value |
| `StateDatabase.Database.Root` | crates/fuel-core/src/database/state.rs:142-148 | the empty root for a contract without metadata; on a valid database, the commitment of the contract's current raw entries |
| `StateDatabase.Database.Insert` | crates/fuel-core/src/database/state.rs:57-96 | the new columns and the result are those of `State.Insert`; on a valid database the previous value is returned and the root becomes the commitment of the content with the slot updated, and validity is kept whenever the new tree collides with no stored tree |
| `StateDatabase.Database.Remove` | crates/fuel-core/src/database/state.rs:98-138 | the new columns and the result are those of `State.Remove`; on a valid database the removed value is returned and the root becomes the commitment of the content without the slot, and validity is kept whenever the tree it writes collides with no stored tree |
| `StateDatabase.InsertThenRead` | crates/fuel-core/src/database/state.rs:160-234 | on a fresh database, after an insert `get` returns the value and `contains_key` is true |
| `StateDatabase.InsertThenRemove` | crates/fuel-core/src/database/state.rs:200-217 | on a fresh database, after an insert and a remove `contains_key` is false |
| `StateDatabase.RootOfUnknownContract` | crates/fuel-core/src/database/state.rs:250-260 | on a fresh database, a contract's root is the in-memory empty root |
| `StateDatabase.SecondSlotChangesRoot` | crates/fuel-core/src/database/state.rs:262-298 | with the engine assumptions and distinct roots for the one-slot and two-slot trees, writing a second slot changes the root, and the first root is not the empty root |
| `StateDatabase.RemoveRestoresRoot` | crates/fuel-core/src/database/state.rs:300-346 | with the engine assumptions and distinct roots for the one-slot and two-slot trees, inserting slot 1 (root R0), then slot 2 (root R1), then removing slot 2 gives a root equal to R0 and different from R1 |
| `StateDatabase.RemoveLastEntry` | crates/fuel-core/src/database/state.rs:124-128 | with the engine assumptions, removing a contract's only entry brings its root back to the empty root and leaves no metadata |
| `SealedBlocks.SealedBlockById` | crates/fuel-core/src/database/sealed_block.rs:39-58 | a sealed block of the full block and its consensus exactly when both reads find a record; otherwise `None`; a failing read's error propagates, the block read first |
| `SealedBlocks.SealedBlockByHeight` | crates/fuel-core/src/database/sealed_block.rs:62-71 | `None` when the height has no block id, the id lookup's error when it fails, else the sealed block of that id |
| `SealedBlocks.GetGenesis` | crates/fuel-core/src/database/sealed_block.rs:73-85 | succeeds exactly when the consensus record stored for the genesis id is a genesis record, and returns it; an absent record or another kind is `NotFound(SealedBlockConsensus)`; read errors propagate |
| `SealedBlocks.SealedBlockHeaderById` | crates/fuel-core/src/database/sealed_block.rs:98-115 | the `FuelBlocks` header with its consensus exactly when both reads find a record; otherwise `None`; read errors propagate, the `FuelBlocks` read first |
| `SealedBlocks.SealedBlockHeaderByHeight` | crates/fuel-core/src/database/sealed_block.rs:87-96 | `None` when the height has no block id, the id lookup's error when it fails, else the sealed header of that id |
| `SealedBlocks.TransactionsOnBlock` | crates/fuel-core/src/database/sealed_block.rs:117-124 | found exactly when the sealed block is found and then the block's transactions; `None` exactly when there is no sealed block; errors are the sealed-block read's |
| `SealedBlocks.SealedHeaderIsSealedBlockHeader` | crates/fuel-core/src/database/sealed_block.rs:105-110 | when the full-block read and `FuelBlocks` agree about a block, the sealed header is found exactly when the sealed block is, and is its header with the same consensus |
| `SealedBlocks.SealedBlockByHeightIsSealedById` | crates/fuel-core/src/database/sealed_block.rs:66-70 | a height's sealed block, when found, is sealed by the consensus record of the id the height maps to |
| `SealedBlocks.GenesisSealsGenesisBlock` | crates/fuel-core/src/database/sealed_block.rs:80-81 | when the genesis record is found and the genesis block is stored, that block's sealed form carries exactly that genesis record |

## Left out

- The sparse Merkle tree's node hashing and internal node layout are not modelled. A tree is its content, its root is an abstract commitment, and the node store maps roots to contents.
- InsertPreservesConsistent, RemovePreservesConsistent, Database.Insert, Database.Remove: invariant preservation is proved for writes whose new root collides with no stored tree, not for every write. A 32-byte root cannot be collision-free on all trees, so the code's reliance on the hash is stated as this per-write premise.
- InsertChangesRootIff, RemoveChangesRootIff, RootDependsOnlyOnContent: "different content gives a different root" is proved under the same per-write no-collision premise, not unconditionally.
- SecondSlotChangesRoot, RemoveRestoresRoot: these clients assume the one-slot and two-slot trees have different roots, which the hash makes overwhelmingly likely but no 32-byte commitment can guarantee for all contents.
- Failures of the backing store are not modelled: I/O errors of the raw column, of the metadata column and of the node column, including errors from `tree.update` and `tree.delete`. `get`, `contains_key` and `root` therefore return plain values. So one ordering detail of the code is also not modelled: the raw column's result is held until the end while the tree and metadata are updated.
- The enclosing transaction is not modelled: atomicity, rollback of a half-done mutation, and concurrent readers. A failed `insert` or `remove` keeps its raw write, as the code does before the transaction layer discards it.
- Byte-level key encoding (`key.as_ref()`) and the `Cow` ownership details are left out. Keys are a datatype of two 32-byte values.
- Remove: the model also records the empty content under the empty root in the node store when the last leaf is removed. This is harmless because no metadata ever points at it. Whether the real tree writes such a node is left open.
- The full-block read, the height-to-id read and the genesis-ids read behind the sealed-block functions are other parts of the database. They appear only as lookups that fail, find nothing, or find a record. Their consistency with `FuelBlocks` is a requirement of the lemma that uses it, not a theorem.
- The `DatabaseColumn` mapping of `SealedBlockConsensus` to a column is configuration with no behaviour.
- The peer-to-peer network behaviour and the instant block-production integration test are not part of this model: they are networking wiring and an asynchronous end-to-end test.
- The `root` unit test (it checks only that the call succeeds) holds by construction, since `Root` has no error outcome.
