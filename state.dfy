/** The Merkle-indexed contract state store, as a function of the three columns
    it keeps consistent: the raw `ContractsState` column, the per-contract
    metadata column holding the last root, and the content-addressed node
    store of the sparse Merkle tree.

    The tree engine is abstracted: a tree is the map of leaves it holds, its
    root is `commit(content)` for a commitment function that is a parameter of
    every operation, and the node store maps each root the tree has written to
    the content that root commits to. Loading a tree by a root fails exactly
    when the node store does not hold that root. */
module State {
  import opened Wrappers
  import opened Primitives

  type Slot = Bytes32
  type Value = Bytes32

  /** The leaves of one contract's tree. */
  type Content = map<Slot, Value>

  /** The sparse Merkle tree's root computation. */
  type Commitment = Content -> MerkleRoot

  /** A key of the `ContractsState` column. */
  datatype Key = Key(contractId: ContractId, slot: Slot)

  datatype Store = Store(
    state: map<Key, Value>,                 // ContractsState
    metadata: map<ContractId, MerkleRoot>,  // ContractsStateMerkleMetadata
    nodes: map<MerkleRoot, Content>)        // ContractsStateMerkleData

  /** A mutation's new store and the value it returns to the caller. */
  datatype Outcome = Outcome(store: Store, result: Result<Option<Value>, StorageError>)

  /** A fresh database: every column empty. */
  function EmptyStore(): Store {
    Store(map[], map[], map[])
  }

  /** The root of a tree with no leaves, computed in memory. */
  function EmptyRoot(commit: Commitment): (r: MerkleRoot)
    ensures r == commit(map[])
  {
    commit(map[])
  }

  /** Only the tree with no leaves has the empty root. */
  ghost predicate EmptyOnlyForEmpty(commit: Commitment) {
    forall content :: commit(content) == EmptyRoot(commit) ==> content == map[]
  }

  /** The in-memory empty root coincides with the literal `[0; 32]` that `insert` compares against. */
  ghost predicate EmptyRootIsZero(commit: Commitment) {
    EmptyRoot(commit) == ZeroRoot
  }

  /** The assumptions this model makes about the tree engine for every store;
      `EngineIsSatisfiable` exhibits a commitment that meets them. */
  ghost predicate Engine(commit: Commitment) {
    EmptyOnlyForEmpty(commit) && EmptyRootIsZero(commit)
  }

  /** Collision resistance for one write: the root of the tree about to be
      written names no other tree in the node store. Roots are 32 bytes, so no
      commitment avoids collisions everywhere; the model asks for this per
      write instead. */
  ghost predicate NoCollision(commit: Commitment, nodes: map<MerkleRoot, Content>, content: Content) {
    commit(content) in nodes ==> nodes[commit(content)] == content
  }

  /** The slots and values the raw column stores under one contract. */
  function ContentOf(state: map<Key, Value>, c: ContractId): Content {
    map k | k in state && k.contractId == c :: k.slot := state[k]
  }

  // ---------------------------------------------------------------------------
  // Reads

  /** The stored value, or nothing for an absent key; `GetIsLeaf` relates it to
      the contract's tree content. */
  function Get(store: Store, key: Key): (r: Option<Value>)
    ensures r.Some? <==> key in store.state
    ensures r.Some? ==> r.value == store.state[key]
  {
    if key in store.state then Some(store.state[key]) else None
  }

  /** Whether the key is stored: exactly when `Get` finds a value, and exactly
      when the contract's content has that slot. */
  function ContainsKey(store: Store, key: Key): (r: bool)
    ensures r <==> Get(store, key).Some?
  {
    key in store.state
  }

  /** The metadata root, or the in-memory empty root when there is none; never an error. */
  function Root(store: Store, commit: Commitment, c: ContractId): (r: MerkleRoot)
    ensures c in store.metadata ==> r == store.metadata[c]
    ensures c !in store.metadata ==> r == EmptyRoot(commit)
  {
    if c in store.metadata then store.metadata[c] else EmptyRoot(commit)
  }

  /** `MerkleTree::load`: the tree a root names, or a load error naming that root. */
  function LoadTree(nodes: map<MerkleRoot, Content>, root: MerkleRoot): (r: Result<Content, StorageError>)
    ensures r.Success? <==> root in nodes
    ensures r.Success? ==> r.value == nodes[root]
    ensures r.Failure? ==> r.error == Other(LoadError(root))
  {
    if root in nodes then Success(nodes[root]) else Failure(Other(LoadError(root)))
  }

  // ---------------------------------------------------------------------------
  // Mutations

  /** The root `insert` starts from: the metadata root, or the default record's `[0; 32]`. */
  function PriorRoot(store: Store, c: ContractId): (r: MerkleRoot)
    ensures c in store.metadata ==> r == store.metadata[c]
    ensures c !in store.metadata ==> r == ZeroRoot
  {
    if c in store.metadata then store.metadata[c] else ZeroRoot
  }

  /** The tree `insert` updates, when it can be materialised: empty for `[0; 32]`,
      else the one the node store holds for the prior root. */
  function PriorTree(store: Store, c: ContractId): (r: Content)
    requires PriorRoot(store, c) == ZeroRoot || PriorRoot(store, c) in store.nodes
    ensures PriorRoot(store, c) == ZeroRoot ==> r == map[]
    ensures PriorRoot(store, c) != ZeroRoot ==> Success(r) == LoadTree(store.nodes, PriorRoot(store, c))
  {
    if PriorRoot(store, c) == ZeroRoot then map[] else store.nodes[PriorRoot(store, c)]
  }

  /** `insert`: write the raw entry, then materialise the contract's tree (a new
      one when the prior root is `[0; 32]`, else loaded by that root), update the
      leaf and write the new root into the metadata, unconditionally. */
  function Insert(store: Store, commit: Commitment, key: Key, value: Value): (r: Outcome)
    // The raw write happens first and is kept on every path.
    ensures Get(r.store, key) == Some(value) && ContainsKey(r.store, key)
    ensures forall k :: k != key ==> Get(r.store, k) == Get(store, k)
    // Nothing changes for any other contract's metadata.
    ensures r.store.metadata - {key.contractId} == store.metadata - {key.contractId}
    // The only failure is a prior root the node store cannot load: never treated as empty.
    ensures r.result.Failure? <==> PriorRoot(store, key.contractId) != ZeroRoot && PriorRoot(store, key.contractId) !in store.nodes
    ensures r.result.Failure? ==>
      && r.result.error == Other(LoadError(PriorRoot(store, key.contractId)))
      && r.store.metadata == store.metadata && r.store.nodes == store.nodes
    // On success: the previous raw value is returned and the metadata holds the
    // root of the prior tree with the leaf updated.
    ensures r.result.Success? ==>
      && r.result.value == Get(store, key)
      && key.contractId in r.store.metadata
      && r.store.metadata[key.contractId] == commit(PriorTree(store, key.contractId)[key.slot := value])
      && r.store.nodes == store.nodes[r.store.metadata[key.contractId] := PriorTree(store, key.contractId)[key.slot := value]]
  {
    var prev := Get(store, key);
    var state := store.state[key := value];
    var root := PriorRoot(store, key.contractId);
    var tree: Result<Content, StorageError> := if root == ZeroRoot then Success(map[]) else LoadTree(store.nodes, root);
    if tree.Failure? then
      Outcome(store.(state := state), Failure(tree.error))
    else
      var content := tree.value[key.slot := value];
      var newRoot := commit(content);
      Outcome(Store(state, store.metadata[key.contractId := newRoot], store.nodes[newRoot := content]), Success(prev))
  }

  /** The tree `remove` writes: the loaded tree without the slot. */
  function RemovedTree(store: Store, key: Key): Content
    requires key.contractId in store.metadata && store.metadata[key.contractId] in store.nodes
  {
    store.nodes[store.metadata[key.contractId]] - {key.slot}
  }

  /** `remove`: delete the raw entry; when the contract has metadata, load its
      tree, delete the leaf, and either drop the metadata (the new root is the
      empty root) or overwrite it with the new root. */
  function Remove(store: Store, commit: Commitment, key: Key): (r: Outcome)
    // The raw removal happens first and is kept on every path.
    ensures Get(r.store, key) == None && !ContainsKey(r.store, key)
    ensures forall k :: k != key ==> Get(r.store, k) == Get(store, k)
    ensures r.store.metadata - {key.contractId} == store.metadata - {key.contractId}
    // Without metadata only the raw column is touched.
    ensures key.contractId !in store.metadata ==>
      r == Outcome(store.(state := store.state - {key}), Success(Get(store, key)))
    // The only failure is a metadata root the node store cannot load.
    ensures r.result.Failure? <==> key.contractId in store.metadata && store.metadata[key.contractId] !in store.nodes
    ensures r.result.Failure? ==>
      && r.result.error == Other(LoadError(store.metadata[key.contractId]))
      && r.store.metadata == store.metadata && r.store.nodes == store.nodes
    ensures r.result.Success? ==> r.result.value == Get(store, key)
    // With metadata: the metadata is dropped exactly when the tree's new root is the empty root.
    ensures r.result.Success? && key.contractId in store.metadata ==>
      && (key.contractId in r.store.metadata <==> commit(RemovedTree(store, key)) != EmptyRoot(commit))
      && (key.contractId in r.store.metadata ==> r.store.metadata[key.contractId] == commit(RemovedTree(store, key)))
      && r.store.nodes == store.nodes[commit(RemovedTree(store, key)) := RemovedTree(store, key)]
  {
    var prev := Get(store, key);
    var state := store.state - {key};
    if key.contractId !in store.metadata then
      Outcome(store.(state := state), Success(prev))
    else
      var tree := LoadTree(store.nodes, store.metadata[key.contractId]);
      if tree.Failure? then
        Outcome(store.(state := state), Failure(tree.error))
      else
        var content := tree.value - {key.slot};
        var newRoot := commit(content);
        var nodes := store.nodes[newRoot := content];
        if newRoot == EmptyRoot(commit) then
          Outcome(Store(state, store.metadata - {key.contractId}, nodes), Success(prev))
        else
          Outcome(Store(state, store.metadata[key.contractId := newRoot], nodes), Success(prev))
  }

  // ---------------------------------------------------------------------------
  // The invariant the three columns keep

  /** Every stored node is keyed by the root of its own content. */
  ghost predicate ContentAddressed(store: Store, commit: Commitment) {
    forall h :: h in store.nodes ==> commit(store.nodes[h]) == h
  }

  /** Every metadata root loads the tree of exactly the contract's raw entries. */
  ghost predicate MetadataLoadable(store: Store) {
    forall c :: c in store.metadata ==>
      store.metadata[c] in store.nodes && store.nodes[store.metadata[c]] == ContentOf(store.state, c)
  }

  /** Metadata is present exactly for the contracts that have raw entries. */
  ghost predicate MetadataPresence(store: Store) {
    && (forall k :: k in store.state ==> k.contractId in store.metadata)
    && (forall c :: c in store.metadata ==> ContentOf(store.state, c) != map[])
  }

  ghost predicate Consistent(store: Store, commit: Commitment) {
    ContentAddressed(store, commit) && MetadataLoadable(store) && MetadataPresence(store)
  }

  // ---------------------------------------------------------------------------
  // Lemmas about one contract's content

  lemma ContentOfInsert(state: map<Key, Value>, key: Key, value: Value, c: ContractId)
    ensures ContentOf(state[key := value], c) ==
      if c == key.contractId then ContentOf(state, c)[key.slot := value] else ContentOf(state, c)
  {
    var a, b := ContentOf(state[key := value], c), ContentOf(state, c);
    if c == key.contractId {
      forall s | s in a ensures s in b[key.slot := value] && a[s] == b[key.slot := value][s] {
        if s != key.slot {
          assert Key(c, s) in state;
        }
      }
      assert Key(c, key.slot) == key;
      assert a == b[key.slot := value];
    } else {
      forall s | s in a ensures s in b && a[s] == b[s] {
        assert Key(c, s) in state;
      }
      assert a == b;
    }
  }

  lemma ContentOfRemove(state: map<Key, Value>, key: Key, c: ContractId)
    ensures ContentOf(state - {key}, c) ==
      if c == key.contractId then ContentOf(state, c) - {key.slot} else ContentOf(state, c)
  {
    var a, b := ContentOf(state - {key}, c), ContentOf(state, c);
    if c == key.contractId {
      forall s | s in b - {key.slot} ensures s in a {
        assert Key(c, s) in state - {key};
      }
      assert a == b - {key.slot};
    } else {
      forall s | s in b ensures s in a {
        assert Key(c, s) in state - {key};
      }
      assert a == b;
    }
  }

  /** A key's slot is in its contract's content exactly when the key is stored,
      with the stored value. */
  lemma ContentOfAt(state: map<Key, Value>, key: Key)
    ensures key.slot in ContentOf(state, key.contractId) <==> key in state
    ensures key in state ==> ContentOf(state, key.contractId)[key.slot] == state[key]
  {
    if key.slot in ContentOf(state, key.contractId) {
      var k :| k in state && k.contractId == key.contractId && k.slot == key.slot;
      assert k == key;
    }
  }

  /** `get` and `contains_key` read the contract's leaves: a key is found exactly
      when its contract's content has the slot, with the same value. */
  lemma GetIsLeaf(store: Store, key: Key)
    ensures ContainsKey(store, key) <==> key.slot in ContentOf(store.state, key.contractId)
    ensures Get(store, key).Some? ==> Get(store, key).value == ContentOf(store.state, key.contractId)[key.slot]
  {
    ContentOfAt(store.state, key);
  }

  /** Only the empty content commits to the empty root, and, when the empty root
      is `[0; 32]`, only the empty content commits to `[0; 32]`. */
  lemma RootIsEmptyIff(commit: Commitment, content: Content)
    requires EmptyOnlyForEmpty(commit)
    ensures commit(content) == EmptyRoot(commit) <==> content == map[]
    ensures EmptyRootIsZero(commit) ==> (commit(content) == ZeroRoot <==> content == map[])
  {
  }

  // ---------------------------------------------------------------------------
  // The engine assumptions are satisfiable

  /** A commitment that records how many leaves a tree has (saturating at 255)
      in its first byte. It is no Merkle root; it only shows that `Engine`
      constrains the commitment without being contradictory. */
  function SizeCommitment(content: Content): MerkleRoot {
    var n: bv8 := if |content| < 256 then |content| as bv8 else 255;
    ZeroRoot[0 := n]
  }

  lemma EngineIsSatisfiable()
    ensures Engine(SizeCommitment)
  {
    forall content | SizeCommitment(content) == EmptyRoot(SizeCommitment) ensures content == map[] {
      assert SizeCommitment(content)[0] == 0;
    }
  }

  /** The one-write collision assumptions the clients below make hold of a
      commitment that meets `Engine`. */
  lemma ClientAssumptionsSatisfiable(s1: Slot, s2: Slot, v: Value)
    requires s1 != s2
    ensures Engine(SizeCommitment)
    ensures SizeCommitment(map[s1 := v, s2 := v]) != SizeCommitment(map[s1 := v])
  {
    EngineIsSatisfiable();
    assert |map[s1 := v]| == 1;
    assert |map[s1 := v, s2 := v]| == 2;
    assert SizeCommitment(map[s1 := v, s2 := v])[0] != SizeCommitment(map[s1 := v])[0];
  }

  // ---------------------------------------------------------------------------
  // The invariant's consequences

  lemma EmptyStoreConsistent(commit: Commitment)
    ensures Consistent(EmptyStore(), commit)
  {
  }

  /** I1 and I3: the root of every contract, with or without metadata, is the
      commitment of the contract's current raw entries. */
  lemma RootIsCommitment(store: Store, commit: Commitment, c: ContractId)
    ensures Consistent(store, commit) ==> Root(store, commit, c) == commit(ContentOf(store.state, c))
  {
    if Consistent(store, commit) && c !in store.metadata {
      if ContentOf(store.state, c) != map[] {
        var s :| s in ContentOf(store.state, c);
      }
    }
  }

  /** I2: metadata is present exactly for the contracts that have raw entries. */
  lemma MetadataIffEntries(store: Store, commit: Commitment, c: ContractId)
    requires Consistent(store, commit)
    ensures c in store.metadata <==> ContentOf(store.state, c) != map[]
  {
    if c !in store.metadata && ContentOf(store.state, c) != map[] {
      var s :| s in ContentOf(store.state, c);
    }
  }

  /** I4: a raw entry exists exactly when the contract's stored tree holds the
      same leaf, so there is no orphaned leaf and no orphaned raw entry. */
  lemma LeafIffRawEntry(store: Store, commit: Commitment, key: Key)
    requires Consistent(store, commit)
    ensures key in store.state <==>
      && key.contractId in store.metadata
      && key.slot in store.nodes[store.metadata[key.contractId]]
    ensures key in store.state ==> store.nodes[store.metadata[key.contractId]][key.slot] == store.state[key]
  {
    ContentOfAt(store.state, key);
  }

  /** Root depends only on current content: two consistent stores whose raw
      entries agree for a contract report the same root for it; conversely,
      equal roots mean equal entries unless the second store's content
      collides with a tree the first store holds. */
  lemma RootDependsOnlyOnContent(s1: Store, s2: Store, commit: Commitment, c: ContractId)
    requires Consistent(s1, commit) && Consistent(s2, commit)
    ensures ContentOf(s1.state, c) == ContentOf(s2.state, c) ==> Root(s1, commit, c) == Root(s2, commit, c)
    ensures EmptyOnlyForEmpty(commit) && NoCollision(commit, s1.nodes, ContentOf(s2.state, c))
            && Root(s1, commit, c) == Root(s2, commit, c)
            ==> ContentOf(s1.state, c) == ContentOf(s2.state, c)
  {
    RootIsCommitment(s1, commit, c);
    RootIsCommitment(s2, commit, c);
    MetadataIffEntries(s1, commit, c);
  }

  // ---------------------------------------------------------------------------
  // Mutations keep the invariant

  /** Writing a contract's new tree into the node store keeps the store
      content-addressed and every other contract's metadata loadable, as long as
      the other contracts' raw entries are unchanged and the new root collides
      with no stored tree. */
  lemma RecordTree(store: Store, commit: Commitment, state: map<Key, Value>, c: ContractId)
    requires ContentAddressed(store, commit) && MetadataLoadable(store)
    requires NoCollision(commit, store.nodes, ContentOf(state, c))
    requires forall c2 :: c2 != c ==> ContentOf(state, c2) == ContentOf(store.state, c2)
    ensures var content := ContentOf(state, c);
      var nodes := store.nodes[commit(content) := content];
      && ContentAddressed(Store(state, store.metadata, nodes), commit)
      && (forall c2 :: c2 in store.metadata && c2 != c ==>
            store.metadata[c2] in nodes && nodes[store.metadata[c2]] == ContentOf(state, c2))
  {
    var content := ContentOf(state, c);
    var nodes := store.nodes[commit(content) := content];
    forall c2 | c2 in store.metadata && c2 != c
      ensures store.metadata[c2] in nodes && nodes[store.metadata[c2]] == ContentOf(state, c2)
    {
      if store.metadata[c2] == commit(content) {
        assert store.nodes[commit(content)] == content;
      }
    }
  }

  /** On a consistent store `insert` materialises exactly the contract's current
      entries, never fails and returns the previous value. */
  lemma InsertOnConsistent(store: Store, commit: Commitment, key: Key, value: Value)
    requires Engine(commit) && Consistent(store, commit)
    ensures var content := ContentOf(store.state, key.contractId)[key.slot := value];
      Insert(store, commit, key, value) == Outcome(
        Store(store.state[key := value], store.metadata[key.contractId := commit(content)],
              store.nodes[commit(content) := content]),
        Success(Get(store, key)))
  {
    MetadataIffEntries(store, commit, key.contractId);
    if key.contractId in store.metadata {
      RootIsEmptyIff(commit, ContentOf(store.state, key.contractId));
    }
  }

  /** The metadata column after recommitting contract `c` with raw entries
      `state`: the new root while entries remain, no record otherwise. */
  function RecommitMetadata(metadata: map<ContractId, MerkleRoot>, commit: Commitment,
                            state: map<Key, Value>, c: ContractId): map<ContractId, MerkleRoot>
  {
    var content := ContentOf(state, c);
    if content == map[] then metadata - {c} else metadata[c := commit(content)]
  }

  /** Recommitting one contract after its raw entries changed keeps the store
      consistent: its new tree is recorded, and its metadata holds the new root
      while entries remain and is dropped otherwise. */
  lemma Recommit(store: Store, commit: Commitment, state: map<Key, Value>, c: ContractId)
    requires Consistent(store, commit) && NoCollision(commit, store.nodes, ContentOf(state, c))
    requires forall c2 :: c2 != c ==> ContentOf(state, c2) == ContentOf(store.state, c2)
    ensures var content := ContentOf(state, c);
      Consistent(Store(state, RecommitMetadata(store.metadata, commit, state, c),
                       store.nodes[commit(content) := content]), commit)
  {
    RecommitLoadable(store, commit, state, c);
    RecommitPresence(store, commit, state, c);
  }

  lemma RecommitLoadable(store: Store, commit: Commitment, state: map<Key, Value>, c: ContractId)
    requires ContentAddressed(store, commit) && MetadataLoadable(store)
    requires NoCollision(commit, store.nodes, ContentOf(state, c))
    requires forall c2 :: c2 != c ==> ContentOf(state, c2) == ContentOf(store.state, c2)
    ensures var content := ContentOf(state, c);
      var ns := Store(state, RecommitMetadata(store.metadata, commit, state, c),
                      store.nodes[commit(content) := content]);
      ContentAddressed(ns, commit) && MetadataLoadable(ns)
  {
    RecordTree(store, commit, state, c);
  }

  lemma RecommitPresence(store: Store, commit: Commitment, state: map<Key, Value>, c: ContractId)
    requires MetadataPresence(store)
    requires forall c2 :: c2 != c ==> ContentOf(state, c2) == ContentOf(store.state, c2)
    ensures MetadataPresence(Store(state, RecommitMetadata(store.metadata, commit, state, c), map[]))
  {
    var metadata := RecommitMetadata(store.metadata, commit, state, c);
    forall k | k in state ensures k.contractId in metadata {
      ContentOfAt(state, k);
      if k.contractId != c {
        ContentOfAt(store.state, k);
      }
    }
    forall c2 | c2 in metadata ensures ContentOf(state, c2) != map[] {
      if c2 != c {
        assert c2 in store.metadata;
      }
    }
  }

  /** The store `insert` leaves behind on a consistent store is consistent when
      the new tree's root collides with no stored tree. */
  lemma InsertedStoreConsistent(store: Store, commit: Commitment, key: Key, value: Value)
    requires Consistent(store, commit)
    requires NoCollision(commit, store.nodes, ContentOf(store.state, key.contractId)[key.slot := value])
    ensures var content := ContentOf(store.state, key.contractId)[key.slot := value];
      Consistent(Store(store.state[key := value], store.metadata[key.contractId := commit(content)],
                       store.nodes[commit(content) := content]), commit)
  {
    var c := key.contractId;
    var state := store.state[key := value];
    OthersAfterInsert(store.state, key, value);
    ContentOfInsert(store.state, key, value, c);
    assert key.slot in ContentOf(state, c);
    Recommit(store, commit, state, c);
  }

  /** Writing a key changes no other contract's content. */
  lemma OthersAfterInsert(state: map<Key, Value>, key: Key, value: Value)
    ensures forall c2 :: c2 != key.contractId ==> ContentOf(state[key := value], c2) == ContentOf(state, c2)
  {
    forall c2 | c2 != key.contractId ensures ContentOf(state[key := value], c2) == ContentOf(state, c2) {
      ContentOfInsert(state, key, value, c2);
    }
  }

  /** `insert` keeps the invariant whenever the new tree's root collides with
      no stored tree; the contract then has metadata, and its root is the
      commitment of its content with the slot updated. */
  lemma InsertPreservesConsistent(store: Store, commit: Commitment, key: Key, value: Value)
    requires Engine(commit) && Consistent(store, commit)
    requires NoCollision(commit, store.nodes, ContentOf(store.state, key.contractId)[key.slot := value])
    ensures var r := Insert(store, commit, key, value);
      && r.result == Success(Get(store, key))
      && Consistent(r.store, commit)
      && key.contractId in r.store.metadata
      && Root(r.store, commit, key.contractId) == commit(ContentOf(store.state, key.contractId)[key.slot := value])
  {
    InsertOnConsistent(store, commit, key, value);
    InsertedStoreConsistent(store, commit, key, value);
  }

  /** On a consistent store `remove` deletes the leaf from exactly the
      contract's current entries, never fails and returns the removed value. */
  lemma RemoveOnConsistent(store: Store, commit: Commitment, key: Key)
    requires EmptyOnlyForEmpty(commit) && Consistent(store, commit)
    ensures var content := ContentOf(store.state, key.contractId) - {key.slot};
      var r := Remove(store, commit, key);
      && r.result == Success(Get(store, key))
      && r.store.state == store.state - {key}
      && (key.contractId in store.metadata ==>
            && r.store.nodes == store.nodes[commit(content) := content]
            && r.store.metadata == if content == map[] then store.metadata - {key.contractId}
                                   else store.metadata[key.contractId := commit(content)])
      && (key.contractId !in store.metadata ==> r.store == store && ContentOf(store.state, key.contractId) == map[])
  {
    var c := key.contractId;
    MetadataIffEntries(store, commit, c);
    if c in store.metadata {
      RemoveLoaded(store, commit, key);
    } else {
      RemoveUntracked(store, commit, key);
    }
  }

  lemma RemoveLoaded(store: Store, commit: Commitment, key: Key)
    requires EmptyOnlyForEmpty(commit) && key.contractId in store.metadata
    requires store.metadata[key.contractId] in store.nodes
    requires store.nodes[store.metadata[key.contractId]] == ContentOf(store.state, key.contractId)
    ensures var content := ContentOf(store.state, key.contractId) - {key.slot};
      var r := Remove(store, commit, key);
      && r.result == Success(Get(store, key))
      && r.store.state == store.state - {key}
      && r.store.nodes == store.nodes[commit(content) := content]
      && r.store.metadata == if content == map[] then store.metadata - {key.contractId}
                             else store.metadata[key.contractId := commit(content)]
  {
    RootIsEmptyIff(commit, ContentOf(store.state, key.contractId) - {key.slot});
  }

  lemma RemoveUntracked(store: Store, commit: Commitment, key: Key)
    requires key.contractId !in store.metadata && ContentOf(store.state, key.contractId) == map[]
    ensures var r := Remove(store, commit, key);
      && r.result == Success(Get(store, key))
      && r.store == store && r.store.state == store.state - {key}
  {
    ContentOfAt(store.state, key);
    RemoveAbsent(store.state, key);
  }

  lemma RemoveAbsent<K, V>(m: map<K, V>, k: K)
    requires k !in m
    ensures m - {k} == m
  {
  }

  /** The store `remove` leaves behind, for a contract that keeps entries, is
      consistent when the new tree's root collides with no stored tree. */
  lemma RemovedStoreConsistent(store: Store, commit: Commitment, key: Key)
    requires Consistent(store, commit) && key.contractId in store.metadata
    requires ContentOf(store.state, key.contractId) - {key.slot} != map[]
    requires NoCollision(commit, store.nodes, ContentOf(store.state, key.contractId) - {key.slot})
    ensures var content := ContentOf(store.state, key.contractId) - {key.slot};
      Consistent(Store(store.state - {key}, store.metadata[key.contractId := commit(content)],
                       store.nodes[commit(content) := content]), commit)
  {
    OthersAfterRemove(store.state, key);
    ContentOfRemove(store.state, key, key.contractId);
    Recommit(store, commit, store.state - {key}, key.contractId);
  }

  /** The empty tree never collides: every stored tree under the empty root is empty. */
  lemma EmptyTreeNeverCollides(store: Store, commit: Commitment)
    requires EmptyOnlyForEmpty(commit) && ContentAddressed(store, commit)
    ensures NoCollision(commit, store.nodes, map[])
  {
    if EmptyRoot(commit) in store.nodes {
      assert commit(store.nodes[EmptyRoot(commit)]) == EmptyRoot(commit);
    }
  }

  /** The store `remove` leaves behind, for a contract whose last entry it
      removes, is consistent. */
  lemma RemovedLastStoreConsistent(store: Store, commit: Commitment, key: Key)
    requires EmptyOnlyForEmpty(commit) && Consistent(store, commit) && key.contractId in store.metadata
    requires ContentOf(store.state, key.contractId) - {key.slot} == map[]
    ensures var content := ContentOf(store.state, key.contractId) - {key.slot};
      Consistent(Store(store.state - {key}, store.metadata - {key.contractId},
                       store.nodes[commit(content) := content]), commit)
  {
    OthersAfterRemove(store.state, key);
    ContentOfRemove(store.state, key, key.contractId);
    EmptyTreeNeverCollides(store, commit);
    Recommit(store, commit, store.state - {key}, key.contractId);
  }

  /** Removing a key changes no other contract's content. */
  lemma OthersAfterRemove(state: map<Key, Value>, key: Key)
    ensures forall c2 :: c2 != key.contractId ==> ContentOf(state - {key}, c2) == ContentOf(state, c2)
  {
    forall c2 | c2 != key.contractId ensures ContentOf(state - {key}, c2) == ContentOf(state, c2) {
      ContentOfRemove(state, key, c2);
    }
  }

  /** The collision assumption `remove` needs: only a non-empty tree it writes
      for a contract with metadata must not collide; an empty tree never does. */
  ghost predicate RemoveNoCollision(store: Store, commit: Commitment, key: Key) {
    var content := ContentOf(store.state, key.contractId) - {key.slot};
    key.contractId in store.metadata && content != map[] ==> NoCollision(commit, store.nodes, content)
  }

  /** `remove` keeps the invariant whenever the tree it writes collides with no
      stored tree, and the contract's root becomes the commitment of its content
      without the slot; the metadata is dropped exactly when no entry remains. */
  lemma RemovePreservesConsistent(store: Store, commit: Commitment, key: Key)
    requires EmptyOnlyForEmpty(commit) && Consistent(store, commit) && RemoveNoCollision(store, commit, key)
    ensures var r := Remove(store, commit, key);
      && r.result == Success(Get(store, key))
      && Consistent(r.store, commit)
      && Root(r.store, commit, key.contractId) == commit(ContentOf(store.state, key.contractId) - {key.slot})
      && (key.contractId in r.store.metadata <==> ContentOf(store.state, key.contractId) - {key.slot} != map[])
  {
    RemoveOnConsistent(store, commit, key);
    RemoveRoot(store, commit, key);
    if key.contractId in store.metadata {
      if ContentOf(store.state, key.contractId) - {key.slot} == map[] {
        RemovedLastStoreConsistent(store, commit, key);
      } else {
        RemovedStoreConsistent(store, commit, key);
      }
    }
  }

  // ---------------------------------------------------------------------------
  // How the root moves

  lemma UpdateThenRemove<K, V>(m: map<K, V>, k: K, v: V)
    requires k !in m
    ensures m[k := v] - {k} == m
  {
  }

  lemma UpdateWithSame<K, V>(m: map<K, V>, k: K, v: V)
    requires k in m && m[k] == v
    ensures m[k := v] == m
  {
  }

  /** Updating a slot leaves a content unchanged exactly when the slot already
      held that value. */
  lemma ContentUpdateIff(content: Content, s: Slot, v: Value)
    ensures content[s := v] == content <==> s in content && content[s] == v
  {
    if s in content && content[s] == v {
      assert content[s := v] == content;
    }
  }

  /** Removing a slot leaves a content unchanged exactly when the slot was absent. */
  lemma ContentRemoveIff(content: Content, s: Slot)
    ensures content - {s} == content <==> s !in content
  {
    if s !in content {
      assert content - {s} == content;
    }
  }

  /** After `insert` on a consistent store, the contract's root is the commitment
      of its content with the slot updated. */
  lemma InsertRoot(store: Store, commit: Commitment, key: Key, value: Value)
    requires Engine(commit) && Consistent(store, commit)
    ensures Root(Insert(store, commit, key, value).store, commit, key.contractId)
         == commit(ContentOf(store.state, key.contractId)[key.slot := value])
  {
    InsertOnConsistent(store, commit, key, value);
  }

  /** After `remove` on a consistent store, the contract's root is the commitment
      of its content without the slot. */
  lemma RemoveRoot(store: Store, commit: Commitment, key: Key)
    requires EmptyOnlyForEmpty(commit) && Consistent(store, commit)
    ensures Root(Remove(store, commit, key).store, commit, key.contractId)
         == commit(ContentOf(store.state, key.contractId) - {key.slot})
  {
    RemoveOnConsistent(store, commit, key);
    if key.contractId !in store.metadata {
      assert ContentOf(store.state, key.contractId) - {key.slot} == map[];
    }
  }

  /** A consistent store's tree for a contract is the only one under that root:
      the current content never collides. A tree that collides with it is
      therefore that very content. */
  lemma CurrentTreeAt(store: Store, commit: Commitment, c: ContractId, content: Content)
    requires EmptyOnlyForEmpty(commit) && Consistent(store, commit)
    requires NoCollision(commit, store.nodes, content)
    requires commit(content) == Root(store, commit, c)
    ensures content == ContentOf(store.state, c)
  {
    MetadataIffEntries(store, commit, c);
    RootIsCommitment(store, commit, c);
    if c !in store.metadata {
      RootIsEmptyIff(commit, content);
    }
  }

  /** An insert changes the contract's root exactly when it changes the stored
      value, provided its new tree collides with no stored tree; in particular
      a new slot then always yields a new root. */
  lemma InsertChangesRootIff(store: Store, commit: Commitment, key: Key, value: Value)
    requires Engine(commit) && Consistent(store, commit)
    requires NoCollision(commit, store.nodes, ContentOf(store.state, key.contractId)[key.slot := value])
    ensures Root(Insert(store, commit, key, value).store, commit, key.contractId) == Root(store, commit, key.contractId)
        <==> Get(store, key) == Some(value)
  {
    var content := ContentOf(store.state, key.contractId);
    InsertRoot(store, commit, key, value);
    RootIsCommitment(store, commit, key.contractId);
    ContentOfAt(store.state, key);
    ContentUpdateIff(content, key.slot, value);
    if commit(content[key.slot := value]) == Root(store, commit, key.contractId) {
      CurrentTreeAt(store, commit, key.contractId, content[key.slot := value]);
    }
  }

  /** Inserting the value already stored still rewrites the metadata, with the
      root it already held: no column changes. */
  lemma InsertSameValueKeepsStore(store: Store, commit: Commitment, key: Key, value: Value)
    requires Engine(commit) && Consistent(store, commit)
    requires Get(store, key) == Some(value)
    ensures Insert(store, commit, key, value) == Outcome(store, Success(Some(value)))
  {
    var c := key.contractId;
    var content := ContentOf(store.state, c);
    ContentOfAt(store.state, key);
    ContentUpdateIff(content, key.slot, value);
    MetadataIffEntries(store, commit, c);
    RootIsCommitment(store, commit, c);
    var h := commit(content);
    UpdateWithSame(store.state, key, value);
    UpdateWithSame(store.metadata, c, h);
    UpdateWithSame(store.nodes, h, content);
    InsertOnConsistent(store, commit, key, value);
  }

  /** A remove changes the contract's root exactly when the key was stored,
      provided the tree it writes collides with no stored tree. */
  lemma RemoveChangesRootIff(store: Store, commit: Commitment, key: Key)
    requires EmptyOnlyForEmpty(commit) && Consistent(store, commit)
    requires NoCollision(commit, store.nodes, ContentOf(store.state, key.contractId) - {key.slot})
    ensures Root(Remove(store, commit, key).store, commit, key.contractId) == Root(store, commit, key.contractId)
        <==> !ContainsKey(store, key)
  {
    var content := ContentOf(store.state, key.contractId);
    RemoveRoot(store, commit, key);
    RootIsCommitment(store, commit, key.contractId);
    ContentOfAt(store.state, key);
    ContentRemoveIff(content, key.slot);
    if commit(content - {key.slot}) == Root(store, commit, key.contractId) {
      CurrentTreeAt(store, commit, key.contractId, content - {key.slot});
    }
  }

  /** Root depends only on current content: inserting a new slot and removing
      it again restores the raw column and every contract's root. */
  lemma InsertThenRemoveRestoresRoot(store: Store, commit: Commitment, key: Key, value: Value, c: ContractId)
    requires Engine(commit) && Consistent(store, commit)
    requires !ContainsKey(store, key)
    ensures var after := Remove(Insert(store, commit, key, value).store, commit, key).store;
      after.state == store.state && Root(after, commit, c) == Root(store, commit, c)
  {
    var mid := Insert(store, commit, key, value).store;
    InsertOnConsistent(store, commit, key, value);
    var after := Remove(mid, commit, key).store;
    UpdateThenRemove(store.state, key, value);
    if c == key.contractId {
      var content := ContentOf(store.state, c);
      ContentOfAt(store.state, key);
      UpdateThenRemove(content, key.slot, value);
      // The tree written by insert is the one remove loads, whatever else the node store holds.
      assert RemovedTree(mid, key) == content;
      RootIsEmptyIff(commit, content);
      RootIsCommitment(store, commit, c);
    } else {
      OtherContractsUnaffected(store, commit, key, value, c);
      OtherContractsUnaffected(mid, commit, key, value, c);
    }
  }

  /** Mutations on one contract leave every other contract's root alone. */
  lemma OtherContractsUnaffected(store: Store, commit: Commitment, key: Key, value: Value, c: ContractId)
    requires c != key.contractId
    ensures Root(Insert(store, commit, key, value).store, commit, c) == Root(store, commit, c)
    ensures Root(Remove(store, commit, key).store, commit, c) == Root(store, commit, c)
  {
    assert c in store.metadata - {key.contractId} <==> c in store.metadata;
  }

  // ---------------------------------------------------------------------------
  // Error paths

  /** A metadata root the node store cannot load makes both mutations fail with
      the load error instead of starting from an empty tree; no metadata and no
      node changes. */
  lemma UnloadableRootIsAnError(store: Store, commit: Commitment, key: Key, value: Value)
    requires key.contractId in store.metadata
    requires store.metadata[key.contractId] != ZeroRoot && store.metadata[key.contractId] !in store.nodes
    ensures var r := Insert(store, commit, key, value);
      r.result == Failure(Other(LoadError(store.metadata[key.contractId])))
      && r.store == store.(state := store.state[key := value])
    ensures var r := Remove(store, commit, key);
      r.result == Failure(Other(LoadError(store.metadata[key.contractId])))
      && r.store == store.(state := store.state - {key})
  {
  }
}
