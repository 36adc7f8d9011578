/** The database object that serves the `ContractsState` table: three columns
    updated in place by `insert` and `remove`, each operation proved equal to
    its counterpart in `State`, together with clients that replay the
    behaviour fuel-core's unit tests check. */
module StateDatabase {
  import opened Wrappers
  import opened Primitives
  import opened State

  class Database {
    var state: map<Key, Value>
    var metadata: map<ContractId, MerkleRoot>
    var nodes: map<MerkleRoot, Content>
    /** The tree engine's root computation, fixed for the database's lifetime. */
    const commit: Commitment

    /** The three columns as a value. */
    function Snapshot(): Store
      reads this
    {
      Store(state, metadata, nodes)
    }

    ghost predicate Valid()
      reads this
    {
      Engine(commit) && Consistent(Snapshot(), commit)
    }

    /** `Database::default()`: all columns empty. */
    constructor (commit: Commitment)
      ensures this.commit == commit && Snapshot() == EmptyStore()
      ensures Engine(commit) ==> Valid()
    {
      this.commit := commit;
      state, metadata, nodes := map[], map[], map[];
      new;
      EmptyStoreConsistent(commit);
    }

    /** The stored value under the key. */
    function Get(key: Key): (r: Option<Value>)
      reads this
      ensures r.Some? <==> key in state
      ensures r.Some? ==> r.value == state[key]
    {
      State.Get(Snapshot(), key)
    }

    /** Whether the key is stored, exactly when `Get` finds a value. */
    function ContainsKey(key: Key): (r: bool)
      reads this
      ensures r <==> Get(key).Some?
    {
      State.ContainsKey(Snapshot(), key)
    }

    /** The contract's root; on a valid database, the commitment of the
        contract's current raw entries. */
    function Root(c: ContractId): (r: MerkleRoot)
      reads this
      ensures c in metadata ==> r == metadata[c]
      ensures c !in metadata ==> r == EmptyRoot(commit)
      ensures Valid() ==> r == commit(ContentOf(state, c))
    {
      RootIsCommitment(Snapshot(), commit, c);
      State.Root(Snapshot(), commit, c)
    }

    method Insert(key: Key, value: Value) returns (r: Result<Option<Value>, StorageError>)
      modifies this
      ensures Snapshot() == State.Insert(old(Snapshot()), commit, key, value).store
      ensures r == State.Insert(old(Snapshot()), commit, key, value).result
      ensures old(Valid()) ==>
        && r == Success(old(Get(key)))
        && Root(key.contractId) == commit(ContentOf(old(state), key.contractId)[key.slot := value])
      ensures old(Valid()) && NoCollision(commit, old(nodes), ContentOf(old(state), key.contractId)[key.slot := value])
        ==> Valid()
    {
      ghost var before := Snapshot();
      var prev := if key in state then Some(state[key]) else None;
      state := state[key := value];
      var root := if key.contractId in metadata then metadata[key.contractId] else ZeroRoot;
      var tree: Content := map[];
      if root != ZeroRoot {
        if root !in nodes {
          return Failure(Other(LoadError(root)));
        }
        tree := nodes[root];
      }
      tree := tree[key.slot := value];
      var newRoot := commit(tree);
      nodes := nodes[newRoot := tree];
      metadata := metadata[key.contractId := newRoot];
      r := Success(prev);
      if old(Valid()) {
        InsertOnConsistent(before, commit, key, value);
        InsertRoot(before, commit, key, value);
        if NoCollision(commit, before.nodes, ContentOf(before.state, key.contractId)[key.slot := value]) {
          InsertPreservesConsistent(before, commit, key, value);
        }
      }
    }

    method Remove(key: Key) returns (r: Result<Option<Value>, StorageError>)
      modifies this
      ensures Snapshot() == State.Remove(old(Snapshot()), commit, key).store
      ensures r == State.Remove(old(Snapshot()), commit, key).result
      ensures old(Valid()) ==>
        && r == Success(old(Get(key)))
        && Root(key.contractId) == commit(ContentOf(old(state), key.contractId) - {key.slot})
      ensures old(Valid()) && RemoveNoCollision(old(Snapshot()), commit, key) ==> Valid()
    {
      ghost var before := Snapshot();
      var prev := if key in state then Some(state[key]) else None;
      state := state - {key};
      if key.contractId in metadata {
        var root := metadata[key.contractId];
        if root !in nodes {
          return Failure(Other(LoadError(root)));
        }
        var tree := nodes[root] - {key.slot};
        var newRoot := commit(tree);
        nodes := nodes[newRoot := tree];
        if newRoot == EmptyRoot(commit) {
          metadata := metadata - {key.contractId};
        } else {
          metadata := metadata[key.contractId := newRoot];
        }
      }
      r := Success(prev);
      if old(Valid()) {
        RemoveOnConsistent(before, commit, key);
        RemoveRoot(before, commit, key);
        if RemoveNoCollision(before, commit, key) {
          RemovePreservesConsistent(before, commit, key);
        }
      }
    }
  }

  // ---------------------------------------------------------------------------
  // Clients replaying fuel-core's unit tests on a fresh database

  /** After an insert, the value reads back and the key exists. */
  method InsertThenRead(commit: Commitment, key: Key, value: Value) returns (got: Option<Value>, found: bool)
    ensures got == Some(value) && found
  {
    var db := new Database(commit);
    var _ := db.Insert(key, value);
    got := db.Get(key);
    found := db.ContainsKey(key);
  }

  /** After an insert and a remove, the key no longer exists. */
  method InsertThenRemove(commit: Commitment, key: Key, value: Value) returns (found: bool)
    ensures !found
  {
    var db := new Database(commit);
    var _ := db.Insert(key, value);
    var _ := db.Remove(key);
    found := db.ContainsKey(key);
  }

  /** A contract never written to has the empty root, and asking is not an error. */
  method RootOfUnknownContract(commit: Commitment, c: ContractId) returns (root: MerkleRoot)
    ensures root == EmptyRoot(commit)
  {
    var db := new Database(commit);
    root := db.Root(c);
  }

  /** Writing a second slot of a contract changes its root, as long as the
      two trees' roots do not collide. */
  method SecondSlotChangesRoot(commit: Commitment, c: ContractId, s1: Slot, s2: Slot, value: Value)
    returns (root1: MerkleRoot, root2: MerkleRoot)
    requires Engine(commit) && s1 != s2
    requires commit(map[s1 := value, s2 := value]) != commit(map[s1 := value])
    ensures root1 != EmptyRoot(commit) && root1 != root2
  {
    var db := new Database(commit);
    ghost var s0 := db.Snapshot();
    assert ContentOf(s0.state, c) == map[];
    var _ := db.Insert(Key(c, s1), value);
    root1 := db.Root(c);
    ghost var st1 := db.Snapshot();
    ContentOfInsert(s0.state, Key(c, s1), value, c);
    InsertOnConsistent(s0, commit, Key(c, s1), value);
    assert st1.nodes == map[commit(map[s1 := value]) := map[s1 := value]];
    var _ := db.Insert(Key(c, s2), value);
    root2 := db.Root(c);
    RootIsEmptyIff(commit, map[s1 := value]);
  }

  /** Removing the slot written last restores the root the contract had before
      it, as long as the two trees' roots do not collide. */
  method RemoveRestoresRoot(commit: Commitment, c: ContractId, s1: Slot, s2: Slot, value: Value)
    returns (root0: MerkleRoot, root1: MerkleRoot, root2: MerkleRoot)
    requires Engine(commit) && s1 != s2
    requires commit(map[s1 := value, s2 := value]) != commit(map[s1 := value])
    ensures root1 != root2 && root0 == root2
  {
    var db := new Database(commit);
    ghost var s0 := db.Snapshot();
    assert ContentOf(s0.state, c) == map[];
    var _ := db.Insert(Key(c, s1), value);
    root0 := db.Root(c);
    ghost var st1 := db.Snapshot();
    ghost var one := map[s1 := value];
    assert db.Valid() && root0 == commit(one);
    ContentOfInsert(s0.state, Key(c, s1), value, c);
    InsertOnConsistent(s0, commit, Key(c, s1), value);
    assert st1.nodes == map[commit(one) := one];
    assert ContentOf(st1.state, c) == one;
    ghost var two := one[s2 := value];
    assert NoCollision(commit, st1.nodes, two);
    var _ := db.Insert(Key(c, s2), value);
    root1 := db.Root(c);
    ghost var st2 := db.Snapshot();
    assert db.Valid() && root1 == commit(two);
    ContentOfInsert(st1.state, Key(c, s2), value, c);
    assert ContentOf(st2.state, c) == two;
    var _ := db.Remove(Key(c, s2));
    root2 := db.Root(c);
    assert root2 == commit(two - {s2});
    UpdateThenRemove(one, s2, value);
  }

  /** Removing a contract's only entry brings its root back to the empty root
      and drops its metadata. */
  method RemoveLastEntry(commit: Commitment, c: ContractId, slot: Slot, value: Value)
    returns (root1: MerkleRoot, root2: MerkleRoot, hasMetadata: bool)
    requires Engine(commit)
    ensures root1 != EmptyRoot(commit) && root2 == EmptyRoot(commit) && !hasMetadata
  {
    var db := new Database(commit);
    ghost var s0 := db.Snapshot();
    var _ := db.Insert(Key(c, slot), value);
    root1 := db.Root(c);
    ghost var st1 := db.Snapshot();
    var _ := db.Remove(Key(c, slot));
    root2 := db.Root(c);
    hasMetadata := c in db.metadata;
    InsertChangesRootIff(s0, commit, Key(c, slot), value);
    RemovePreservesConsistent(st1, commit, Key(c, slot));
    ContentOfInsert(s0.state, Key(c, slot), value, c);
    assert ContentOf(s0.state, c) == map[];
    assert ContentOf(st1.state, c) - {slot} == map[];
  }
}
