/**
 The durable ObjectStore's tables and what one mutation means to them. `history` is every mutation ever
 committed or pending, and `prunedThrough` the highest revision pruned; both are auxiliary, roll back with
 the tables, and are what the rest is measured against.
 */
module ObjectTables {
  import opened Common
  import opened Journal

  type Name = seq<byte>
  type Key = seq<byte>

  /** Primary key of __esdb_records. */
  datatype Row = Row(store: nat, key: Key)

  /** Everything in the database file that is not ESDB's own. */
  type UserTables = map<string, string>

  datatype Tables = Tables(
    stores: map<Name, nat>,                 // __esdb_stores: name -> id
    records: map<Row, Record>,              // __esdb_records
    changes: map<nat, Change<Row>>,         // __esdb_object_changes by revision
    sequence: nat,                          // sqlite_sequence of __esdb_object_changes
    metaRevision: nat,                      // __esdb_meta 'store_revision'
    userVersion: nat,                       // PRAGMA user_version
    user: UserTables,
    history: seq<Mutation<Row>>,
    prunedThrough: nat)

  /** Revision metadata, journal, records and store ids all agree with the history. */
  ghost predicate Consistent(t: Tables) {
    && t.metaRevision == t.sequence == |t.history| <= REVISION_MAX
    && t.records == RecordsOf(t.history)
    && t.prunedThrough <= t.sequence
    && JournalOk(t.changes, t.history, t.prunedThrough)
    && (forall i :: 0 <= i < |t.history| ==> !t.history[i].ClearAll? && 1 <= t.history[i].key.store <= |t.stores|)
    && IdsOk(t.stores)
    && (forall row :: row in t.records ==> 1 <= row.store <= |t.stores|)
  }

  /** The journal table holds the changes of the history above the pruning mark, as they were written. */
  ghost predicate JournalOk(changes: map<nat, Change<Row>>, history: seq<Mutation<Row>>, prunedThrough: nat) {
    && (forall r :: r in changes <==> prunedThrough < r <= |history|)
    && (forall r :: r in changes ==> changes[r] == ChangeOf(history[r - 1], r))
  }

  /** Store ids are 1..n without repetition: rows of __esdb_stores are never deleted. */
  ghost predicate IdsOk(stores: map<Name, nat>) {
    && (forall n :: n in stores ==> 1 <= stores[n] <= |stores|)
    && (forall m, n :: m in stores && n in stores && stores[m] == stores[n] ==> m == n)
  }

  /** The journal rows, each under its own revision, tell of puts and deletes in stores that have an id. */
  ghost predicate RowsNumbered(t: Tables) {
    forall r :: r in t.changes ==>
      && t.changes[r].revision == r <= t.sequence
      && !t.changes[r].Clear? && t.changes[r].key.store > 0
  }

  /** INSERT INTO __esdb_stores ... ON CONFLICT DO NOTHING. */
  function InsertStore(t: Tables, name: Name): Tables {
    if name in t.stores then t else t.(stores := t.stores[name := |t.stores| + 1])
  }

  /** INSERT INTO __esdb_object_changes: AUTOINCREMENT hands out the next revision. */
  function InsertChange(t: Tables, change: Change<Row>): Tables {
    t.(changes := t.changes[change.revision := change], sequence := change.revision)
  }

  function UpsertRecord(t: Tables, row: Row, record: Record): Tables {
    t.(records := t.records[row := record])
  }

  function DeleteRecord(t: Tables, row: Row): Tables {
    t.(records := t.records - {row})
  }

  /** UPDATE of 'store_revision'; the mutation enters the history here. */
  function SetRevision(t: Tables, revision: nat, m: Mutation<Row>): Tables {
    t.(metaRevision := revision, history := t.history + [m])
  }

  function PruneChanges(t: Tables, through: nat): Tables {
    t.(changes := map r | r in t.changes && r > through :: t.changes[r],
       prunedThrough := if through <= t.prunedThrough then t.prunedThrough
                        else if through <= t.sequence then through else t.sequence)
  }

  function RowOf(t: Tables, name: Name, key: Key): Row
    requires name in t.stores
  {
    Row(t.stores[name], key)
  }

  function Lookup(t: Tables, name: Name, key: Key): Option<Record> {
    if name in t.stores && RowOf(t, name, key) in t.records then Some(t.records[RowOf(t, name, key)]) else None
  }

  /** The tables after a complete put. */
  function PutTables(t: Tables, name: Name, key: Key, value: Value): Tables {
    var t1 := InsertStore(t, name);
    var row, r := RowOf(t1, name, key), t.sequence + 1;
    SetRevision(UpsertRecord(InsertChange(t1, Put(r, row, value.valueType)), row, Record(value, r)), r,
        PutValue(row, value))
  }

  /** The tables after a complete delete of a key that is there. */
  function DeleteTables(t: Tables, name: Name, key: Key): Tables
    requires name in t.stores
  {
    var row, r := RowOf(t, name, key), t.sequence + 1;
    SetRevision(InsertChange(DeleteRecord(t, row), Delete(r, row)), r, DeleteKey(row))
  }

  lemma IdInserted(stores: map<Name, nat>, name: Name)
    requires IdsOk(stores) && name !in stores
    ensures var stores' := stores[name := |stores| + 1]; IdsOk(stores') && |stores'| == |stores| + 1
  {
    var stores' := stores[name := |stores| + 1];
    assert stores'.Keys == stores.Keys + {name};
    assert |stores'| == |stores'.Keys| == |stores.Keys| + 1 == |stores| + 1;
  }

  lemma StoreInserted(t: Tables, name: Name)
    requires IdsOk(t.stores)
    ensures var t' := InsertStore(t, name);
            && IdsOk(t'.stores) && name in t'.stores && |t'.stores| >= |t.stores|
            && forall n :: n in t.stores ==> n in t'.stores && t'.stores[n] == t.stores[n]
  {
    if name !in t.stores {
      IdInserted(t.stores, name);
    }
  }

  /** Registering a store adds its name under an id that no store has, unless it is there, and changes nothing else. */
  ghost predicate Registered(t: Tables, t': Tables, name: Name) {
    && t'.stores.Keys == t.stores.Keys + {name}
    && (forall n :: n in t.stores ==> t'.stores[n] == t.stores[n])
    && (name !in t.stores ==> t'.stores[name] > 0 && t'.stores[name] !in t.stores.Values)
  }

  lemma EnsureKeepsConsistent(t: Tables, name: Name)
    requires Consistent(t)
    ensures var t' := InsertStore(t, name); Consistent(t') && Registered(t, t', name) && t' == t.(stores := t'.stores)
  {
    StoreInserted(t, name);
    StoreRegistered(t, name);
  }

  lemma StoreRegistered(t: Tables, name: Name)
    requires IdsOk(t.stores)
    ensures Registered(t, InsertStore(t, name), name)
  {
    if name !in t.stores {
      IdInserted(t.stores, name);
    }
  }

  /** Tables that differ by one mutation, appended to history, records, journal and both counters. */
  ghost predicate Extends(t: Tables, t': Tables, m: Mutation<Row>) {
    var r := t.sequence + 1;
    t' == t.(stores := t'.stores, records := RecordsAfter(t.records, m, r), changes := t.changes[r := ChangeOf(m, r)],
             sequence := r, metaRevision := r, history := t.history + [m])
  }

  lemma JournalExtends(changes: map<nat, Change<Row>>, history: seq<Mutation<Row>>, prunedThrough: nat,
                       m: Mutation<Row>)
    requires JournalOk(changes, history, prunedThrough) && prunedThrough <= |history|
    ensures JournalOk(changes[|history| + 1 := ChangeOf(m, |history| + 1)], history + [m], prunedThrough)
  {
  }

  lemma MutationKeepsConsistent(t: Tables, t': Tables, m: Mutation<Row>)
    requires Consistent(t) && t.sequence < REVISION_MAX && Extends(t, t', m)
    requires IdsOk(t'.stores) && |t'.stores| >= |t.stores|
    requires m.PutValue? || m.DeleteKey?
    requires 1 <= m.key.store <= |t'.stores|
    ensures Consistent(t')
  {
    RecordsAppend(t.history, m);
    JournalExtends(t.changes, t.history, t.prunedThrough, m);
  }

  lemma PutExtends(t: Tables, name: Name, key: Key, value: Value)
    ensures var t' := PutTables(t, name, key, value);
            name in t'.stores && Extends(t, t', PutValue(RowOf(t', name, key), value))
  {
  }

  /** All that a put changes: one row of the records, one new row of the journal, the counters, and a store's name. */
  ghost predicate PutDone(t: Tables, t': Tables, name: Name, key: Key, value: Value) {
    var r := t.sequence + 1;
    && Registered(t, t', name)
    && var row := Row(t'.stores[name], key);
       t' == Tables(t'.stores, t.records[row := Record(value, r)], t.changes[r := Journal.Put(r, row, value.valueType)],
                    r, r, t.userVersion, t.user, t.history + [PutValue(row, value)], t.prunedThrough)
  }

  /** All that a delete changes: one row of the records goes, one new row of the journal, and the counters. */
  ghost predicate DeleteDone(t: Tables, t': Tables, name: Name, key: Key) {
    var r := t.sequence + 1;
    && name in t.stores
    && var row := Row(t.stores[name], key);
       t' == Tables(t.stores, t.records - {row}, t.changes[r := Journal.Delete(r, row)],
                    r, r, t.userVersion, t.user, t.history + [DeleteKey(row)], t.prunedThrough)
  }

  lemma PutIsDone(t: Tables, name: Name, key: Key, value: Value)
    requires IdsOk(t.stores)
    ensures PutDone(t, PutTables(t, name, key, value), name, key, value)
  {
    StoreRegistered(t, name);
  }

  lemma DeleteIsDone(t: Tables, name: Name, key: Key)
    requires name in t.stores
    ensures DeleteDone(t, DeleteTables(t, name, key), name, key)
  {
  }

  /**
   A put keeps the invariant, stores the value under its key at the next revision, and disturbs no other key of any
   store.
   */
  lemma PutMeans(t: Tables, name: Name, key: Key, value: Value)
    requires Consistent(t) && t.sequence < REVISION_MAX
    ensures var t' := PutTables(t, name, key, value);
            && Consistent(t') && PutDone(t, t', name, key, value)
            && Lookup(t', name, key) == Some(Record(value, t.sequence + 1))
            && forall n, k :: (n != name || k != key) ==> Lookup(t', n, k) == Lookup(t, n, k)
  {
    PutIsDone(t, name, key, value);
    PutKeepsConsistent(t, name, key, value);
    PutDisturbs(t, PutTables(t, name, key, value), name, key, Record(value, t.sequence + 1));
  }

  lemma PutKeepsConsistent(t: Tables, name: Name, key: Key, value: Value)
    requires Consistent(t) && t.sequence < REVISION_MAX
    ensures Consistent(PutTables(t, name, key, value))
  {
    var t' := PutTables(t, name, key, value);
    StoreInserted(t, name);
    PutExtends(t, name, key, value);
    MutationKeepsConsistent(t, t', PutValue(RowOf(t', name, key), value));
  }

  lemma PutDisturbs(t: Tables, t': Tables, name: Name, key: Key, record: Record)
    requires IdsOk(t.stores) && IdsOk(t'.stores) && t'.stores == InsertStore(t, name).stores && name in t'.stores
    requires forall r :: r in t.records ==> 1 <= r.store <= |t.stores|
    requires t'.records == t.records[Row(t'.stores[name], key) := record]
    ensures Lookup(t', name, key) == Some(record)
    ensures forall n, k :: (n != name || k != key) ==> Lookup(t', n, k) == Lookup(t, n, k)
  {
    forall n, k | n != name || k != key ensures Lookup(t', n, k) == Lookup(t, n, k) {
      LookupDisturbed(t, t', RowOf(t', name, key), record, name, n, k);
    }
  }

  /** Only the row written can look different: ids are unique, and a store that is just being created starts empty. */
  lemma LookupDisturbed(t: Tables, t': Tables, row: Row, record: Record, name: Name, n: Name, k: Key)
    requires IdsOk(t.stores) && IdsOk(t'.stores) && t'.stores == InsertStore(t, name).stores
    requires forall r :: r in t.records ==> 1 <= r.store <= |t.stores|
    requires t'.records == t.records[row := record] && name in t'.stores && row.store == t'.stores[name]
    requires n != name || k != row.key
    ensures Lookup(t', n, k) == Lookup(t, n, k)
  {
  }

  lemma DeleteMeans(t: Tables, name: Name, key: Key)
    requires Consistent(t) && t.sequence < REVISION_MAX && Lookup(t, name, key).Some?
    ensures var t' := DeleteTables(t, name, key);
            && Consistent(t') && DeleteDone(t, t', name, key)
            && Lookup(t', name, key) == None
            && forall n, k :: (n != name || k != key) ==> Lookup(t', n, k) == Lookup(t, n, k)
  {
    var t' := DeleteTables(t, name, key);
    DeleteIsDone(t, name, key);
    MutationKeepsConsistent(t, t', DeleteKey(RowOf(t, name, key)));
  }

  /** Pruning removes exactly the journal rows through a revision; records, revision and history stay. */
  lemma PruneMeans(t: Tables, through: nat)
    requires Consistent(t)
    ensures var t' := PruneChanges(t, through);
            && Consistent(t')
            && t' == t.(changes := t'.changes, prunedThrough := t'.prunedThrough)
            && forall r :: r in t'.changes <==> r in t.changes && r > through
  {
  }

  /**
   Every live record is its key's latest PUT, and neither it nor any journal row is newer than the durable revision.
   */
  lemma NothingIsNewerThanTheRevision(t: Tables, row: Row)
    requires Consistent(t) && row in t.records
    ensures var r := t.records[row].revision;
            && 1 <= r <= t.metaRevision == t.sequence
            && t.history[r - 1] == PutValue(row, t.records[row].value)
            && (forall i :: r <= i < |t.history| ==> !Touches(t.history[i], row))
            && (forall c :: c in t.changes ==> 1 <= c <= t.metaRevision)
  {
    RecordIsLatestPut(t.history, row);
  }
}
