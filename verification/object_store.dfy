/**
 The durable ObjectStore's operations on one connection: each mutation is a scope (a transaction of its own, or an
 internal savepoint inside the caller's) around several statements, any of which may fail. The tables exist already.
 */
module ObjectStore {
  import opened Common
  import opened Journal
  import opened Sqlite
  import opened Runtime
  import opened ObjectTables
  import Utf8

  const STORE_NAME_MAX_BYTES: nat := 255
  const KEY_MAX_BYTES: nat := 4096
  const CHANGE_LIMIT_MAX: nat := 10000

  predicate ValidText(text: seq<byte>, maximum: nat) {
    1 <= |text| <= maximum && Utf8.WellFormed(text)
  }

  method IsValidText(text: seq<byte>, maximum: nat) returns (valid: bool)
    ensures valid == ValidText(text, maximum)
  {
    if !(0 < |text| <= maximum) {
      return false;
    }
    valid := Utf8.ValidUtf8(text);
  }

  predicate ValidArguments(name: Name, key: Key) {
    ValidText(name, STORE_NAME_MAX_BYTES) && ValidText(key, KEY_MAX_BYTES)
  }

  /** A write belongs to the caller's transaction if there is one, and is committed at once if there is none. */
  ghost predicate Wrote(before: Machine<Tables>, after: Machine<Tables>) {
    && after.inTransaction == before.inTransaction && after.stack == before.stack
    && after.committed == if before.inTransaction then before.committed else after.content
  }

  lemma WriteWrites(before: Machine<Tables>, t: Tables)
    requires !before.inTransaction ==> before.content == before.committed
    ensures Wrote(before, before.Write(t)) && before.Write(t).content == t
  {
  }

  /** What the operations need of the invariant that every visible content satisfies: they keep it. */
  ghost predicate KeptByOperations(inv: Tables -> bool) {
    && (forall t, name :: inv(t) ==> inv(InsertStore(t, name)))
    && (forall t, name, key, value :: inv(t) && t.sequence < REVISION_MAX ==> inv(PutTables(t, name, key, value)))
    && (forall t, name, key :: inv(t) && t.sequence < REVISION_MAX && Lookup(t, name, key).Some? ==>
         inv(DeleteTables(t, name, key)))
    && (forall t, through :: inv(t) ==> inv(PruneChanges(t, through)))
    && (forall t :: inv(t) ==> IdsOk(t.stores) && RowsNumbered(t))
    && (forall t :: inv(t) ==> t.prunedThrough <= t.sequence)
  }

  /** So every content a connection shows, commits or can restore stays Consistent. */
  lemma ConsistencyIsKept()
    ensures KeptByOperations((t: Tables) => Consistent(t))
  {
    forall t, name | Consistent(t) ensures Consistent(InsertStore(t, name)) {
      EnsureKeepsConsistent(t, name);
    }
    forall t, name, key, value | Consistent(t) && t.sequence < REVISION_MAX
        ensures Consistent(PutTables(t, name, key, value)) {
      PutMeans(t, name, key, value);
    }
    forall t, name, key | Consistent(t) && t.sequence < REVISION_MAX && Lookup(t, name, key).Some?
      ensures Consistent(DeleteTables(t, name, key))
    {
      DeleteMeans(t, name, key);
    }
    forall t, through | Consistent(t) ensures Consistent(PruneChanges(t, through)) {
      PruneMeans(t, through);
    }
  }

  ghost predicate Ready(d: Database<Tables>)
    reads d, d.savepoints
  {
    d.Valid() && KeptByOperations(d.inv)
  }

  const Empty := Tables(map[], map[], map[], 0, 0, 0, map[], [], 0)

  /**
   A connection to a database whose tables were just created; from here on every content it can show is consistent.
   */
  method OpenCreated(reliable: bool) returns (d: Database<Tables>)
    ensures fresh(d) && fresh(d.savepoints) && Ready(d) && d.db.content == Empty && d.reliable == reliable
    ensures d.inv == ((t: Tables) => Consistent(t))
  {
    assert Consistent(Empty);
    ConsistencyIsKept();
    d := new Database(Empty, reliable, (t: Tables) => Consistent(t));
  }

  /** get_store_id: register the store when asked to, then look its id up. Some(0) stands for a missing store. */
  method GetStoreId(d: Database<Tables>, name: Name, create: bool) returns (id: Option<nat>)
    modifies d`db
    ensures id.None? ==> d.db == old(d.db) || (create && d.db == old(d.db).Write(InsertStore(old(d.db.content), name)))
    ensures d.reliable ==> id.Some?
    ensures id.Some? && create ==> d.db == old(d.db).Write(InsertStore(old(d.db.content), name))
    ensures id.Some? && !create ==> d.db == old(d.db)
    ensures id.Some? ==> id.value == if name in d.db.content.stores then d.db.content.stores[name] else 0
  {
    if create {
      var inserted := d.Exec(d.db.Write(InsertStore(d.db.content, name)));
      if !inserted {
        return None;
      }
    }
    var failed := Fails(d.reliable);
    if failed {
      return None;
    }
    id := Some(if name in d.db.content.stores then d.db.content.stores[name] else 0);
  }

  /** insert_change: AUTOINCREMENT hands out the next revision, and fails once the last one has been used. */
  method InsertChangeRow(d: Database<Tables>, row: Row, valueType: Option<ValueType>) returns (revision: Option<nat>)
    requires d.db.inTransaction
    modifies d`db
    ensures d.db == old(d.db).(content := d.db.content)
    ensures d.reliable && old(d.db.content.sequence) < REVISION_MAX ==> revision.Some?
    ensures revision.Some? ==> revision.value == old(d.db.content.sequence) + 1 <= REVISION_MAX
    ensures revision.Some? ==>
              var r := revision.value;
              d.db.content == InsertChange(old(d.db.content), if valueType.Some? then Put(r, row, valueType.value)
                  else Delete(r, row))
  {
    var t := d.db.content;
    if t.sequence >= REVISION_MAX {
      return None;
    }
    var r := t.sequence + 1;
    var ok := d.Exec(d.db.Write(InsertChange(t, if valueType.Some? then Put(r, row, valueType.value)
        else Delete(r, row))));
    revision := if ok then Some(r) else None;
  }

  /** The statements of a put, in order, stopping at the first that fails. */
  method PutStatements(d: Database<Tables>, name: Name, key: Key, value: Value) returns (revision: Option<nat>)
    requires d.db.inTransaction
    modifies d`db
    ensures d.db == old(d.db).(content := d.db.content)
    ensures d.reliable && old(d.db.content.sequence) < REVISION_MAX ==> revision.Some?
    ensures revision.Some? ==> revision.value == old(d.db.content.sequence) + 1 <= REVISION_MAX
    ensures revision.Some? ==> d.db.content == PutTables(old(d.db.content), name, key, value)
  {
    var id := GetStoreId(d, name, true);
    if id.None? {
      return None;
    }
    var row := Row(id.value, key);
    revision := InsertChangeRow(d, row, Some(value.valueType));
    if revision.None? {
      return None;
    }
    var ok := d.Exec(d.db.Write(UpsertRecord(d.db.content, row, Record(value, revision.value))));
    if !ok {
      return None;
    }
    ok := d.Exec(d.db.Write(SetRevision(d.db.content, revision.value, PutValue(row, value))));
    if !ok {
      return None;
    }
  }

  /**
   A put is all or nothing, whether it owns a transaction or runs inside the caller's: either the value is stored under
   the next revision, or nothing in any table has changed; transaction and savepoints stay the caller's.
   */
  method ObjectPut(d: Database<Tables>, name: Name, key: Key, value: Value) returns (status: Status, revision: nat)
    requires Ready(d)
    modifies d`db, d`transactionActive, d`savepointDepth
    ensures Ready(d) && d.savepointDepth == old(d.savepointDepth)
    ensures status in {Ok, InvalidArgument, Sqlite}
    ensures status.InvalidArgument? <==> !ValidArguments(name, key)
    ensures status.InvalidArgument? ==> d.db == old(d.db)
    ensures d.reliable && old(d.db.content.sequence) < REVISION_MAX ==> !status.Sqlite?
    ensures status.Ok? ==> revision == old(d.db.content.sequence) + 1 <= REVISION_MAX
    ensures status.Ok? ==> d.db == old(d.db).Write(PutTables(old(d.db.content), name, key, value))
    ensures status.Ok? ==> PutDone(old(d.db.content), d.db.content, name, key, value)
    ensures status.Ok? ==> Wrote(old(d.db), d.db)
    ensures !status.Ok? ==> revision == 0 && Restored(old(d.db), d.db)
    ensures !status.Ok? && !old(d.db.inTransaction) ==> d.db == old(d.db)
  {
    var validName := IsValidText(name, STORE_NAME_MAX_BYTES);
    var validKey := IsValidText(key, KEY_MAX_BYTES);
    if !validName || !validKey {
      return InvalidArgument, 0;
    }
    ghost var before := d.db;
    status, revision := PutMutation(d, name, key, value);
    PutIsDone(before.content, name, key, value);
    WriteWrites(before, PutTables(before.content, name, key, value));
  }

  /** The scope around the statements of a put. */
  method PutMutation(d: Database<Tables>, name: Name, key: Key, value: Value) returns (status: Status, revision: nat)
    requires Ready(d)
    modifies d`db, d`transactionActive, d`savepointDepth
    ensures Ready(d) && d.savepointDepth == old(d.savepointDepth)
    ensures status in {Ok, Sqlite}
    ensures d.reliable && old(d.db.content.sequence) < REVISION_MAX ==> status.Ok?
    ensures status.Ok? ==> revision == old(d.db.content.sequence) + 1 <= REVISION_MAX
    ensures status.Ok? ==> d.db == old(d.db).Write(PutTables(old(d.db.content), name, key, value))
    ensures !status.Ok? ==> revision == 0 && Restored(old(d.db), d.db)
    ensures !status.Ok? && !old(d.db.inTransaction) ==> d.db == old(d.db)
  {
    ghost var before := d.db;
    assert before.content.sequence < REVISION_MAX ==> d.inv(PutTables(before.content, name, key, value));
    var owns;
    status, owns := d.BeginStoreMutation();
    if !status.Ok? {
      return status, 0;
    }
    var r := PutStatements(d, name, key, value);
    if r.None? {
      ghost var _ := d.RollbackStoreMutation(owns, before);
      return Status.Sqlite, 0;
    }
    ghost var released;
    status, released := d.CommitStoreMutation(owns, before);
    revision := if status.Ok? then r.value else 0;
  }

  /** The statements of a delete; Some(0) when there was no such row. */
  method DeleteStatements(d: Database<Tables>, ghost name: Name, id: nat, key: Key) returns (revision: Option<nat>)
    requires d.db.inTransaction
    requires name in d.db.content.stores && id == d.db.content.stores[name]
    modifies d`db
    ensures d.db == old(d.db).(content := d.db.content)
    ensures d.reliable && old(d.db.content.sequence) < REVISION_MAX ==> revision.Some?
    ensures revision.Some? ==> (revision.value > 0 <==> Lookup(old(d.db.content), name, key).Some?)
    ensures revision == Some(0) ==> d.db.content == old(d.db.content)
    ensures revision.Some? && revision.value > 0 ==>
              && revision.value == old(d.db.content.sequence) + 1 <= REVISION_MAX
              && d.db.content == DeleteTables(old(d.db.content), name, key)
  {
    var row := Row(id, key);
    var deleted := row in d.db.content.records;
    var ok := d.Exec(d.db.Write(DeleteRecord(d.db.content, row)));
    if !ok {
      return None;
    }
    if !deleted {
      assert d.db.content.records == old(d.db.content).records;
      return Some(0);
    }
    revision := InsertChangeRow(d, row, None);
    if revision.None? {
      return None;
    }
    ok := d.Exec(d.db.Write(SetRevision(d.db.content, revision.value, DeleteKey(row))));
    if !ok {
      return None;
    }
  }

  /**
   A delete is all or nothing as well; deleting what is not there succeeds, takes no revision and changes no table.
   */
  method ObjectDelete(d: Database<Tables>, name: Name, key: Key) returns (status: Status, deleted: bool, revision: nat)
    requires Ready(d)
    modifies d`db, d`transactionActive, d`savepointDepth
    ensures Ready(d) && d.savepointDepth == old(d.savepointDepth)
    ensures status in {Ok, InvalidArgument, Sqlite}
    ensures status.InvalidArgument? <==> !ValidArguments(name, key)
    ensures status.InvalidArgument? ==> d.db == old(d.db)
    ensures d.reliable && old(d.db.content.sequence) < REVISION_MAX ==> !status.Sqlite?
    ensures status.Ok? ==> deleted == Lookup(old(d.db.content), name, key).Some?
    ensures deleted ==> status.Ok? && revision == old(d.db.content.sequence) + 1 <= REVISION_MAX
    ensures status.Ok? ==> d.db == if deleted then old(d.db).Write(DeleteTables(old(d.db.content), name, key))
            else old(d.db)
    ensures deleted ==> DeleteDone(old(d.db.content), d.db.content, name, key) && Wrote(old(d.db), d.db)
    ensures !deleted ==> revision == 0
    ensures !status.Ok? ==> Restored(old(d.db), d.db)
    ensures !status.Ok? && !old(d.db.inTransaction) ==> d.db == old(d.db)
  {
    var validName := IsValidText(name, STORE_NAME_MAX_BYTES);
    var validKey := IsValidText(key, KEY_MAX_BYTES);
    if !validName || !validKey {
      return InvalidArgument, false, 0;
    }
    ghost var before := d.db;
    var id := GetStoreId(d, name, false);
    if id.None? {
      return Status.Sqlite, false, 0;
    }
    if id.value == 0 {
      return Ok, false, 0;
    }
    status, deleted, revision := DeleteMutation(d, name, id.value, key);
    DeleteIsDone(before.content, name, key);
    WriteWrites(before, DeleteTables(before.content, name, key));
  }

  /** The scope around the statements of a delete. */
  method DeleteMutation(d: Database<Tables>, ghost name: Name, id: nat, key: Key)
    returns (status: Status, deleted: bool, revision: nat)
    requires Ready(d) && name in d.db.content.stores && id == d.db.content.stores[name]
    modifies d`db, d`transactionActive, d`savepointDepth
    ensures Ready(d) && d.savepointDepth == old(d.savepointDepth)
    ensures status in {Ok, Sqlite}
    ensures d.reliable && old(d.db.content.sequence) < REVISION_MAX ==> status.Ok?
    ensures status.Ok? ==> deleted == Lookup(old(d.db.content), name, key).Some?
    ensures deleted ==> status.Ok? && revision == old(d.db.content.sequence) + 1 <= REVISION_MAX
    ensures status.Ok? ==> d.db == if deleted then old(d.db).Write(DeleteTables(old(d.db.content), name, key))
            else old(d.db)
    ensures !deleted ==> revision == 0
    ensures !status.Ok? ==> Restored(old(d.db), d.db)
    ensures !status.Ok? && !old(d.db.inTransaction) ==> d.db == old(d.db)
  {
    ghost var before := d.db;
    var owns;
    status, owns := d.BeginStoreMutation();
    if !status.Ok? {
      return status, false, 0;
    }
    var r := DeleteStatements(d, name, id, key);
    if r.None? {
      ghost var _ := d.RollbackStoreMutation(owns, before);
      return Status.Sqlite, false, 0;
    }
    ghost var released;
    status, released := d.CommitStoreMutation(owns, before);
    if status.Ok? && r.value > 0 {
      deleted, revision := true, r.value;
    } else {
      deleted, revision := false, 0;
    }
  }

  /** Registering a store is one statement: it commits by itself or belongs to the caller's transaction. */
  method EnsureStore(d: Database<Tables>, name: Name) returns (status: Status)
    requires Ready(d)
    modifies d`db
    ensures Ready(d)
    ensures status in {Ok, InvalidArgument, Sqlite}
    ensures status.InvalidArgument? <==> !ValidText(name, STORE_NAME_MAX_BYTES)
    ensures status.Ok? ==> d.db == old(d.db).Write(InsertStore(old(d.db.content), name)) && name in d.db.content.stores
    ensures !status.Ok? ==> d.db == old(d.db) || d.db == old(d.db).Write(InsertStore(old(d.db.content), name))
    ensures name in old(d.db.content.stores) ==> d.db == old(d.db)
    ensures d.reliable ==> !status.Sqlite?
  {
    var valid := IsValidText(name, STORE_NAME_MAX_BYTES);
    if !valid {
      return InvalidArgument;
    }
    var id := GetStoreId(d, name, false);
    if id.None? {
      return Status.Sqlite;
    }
    if id.value != 0 {
      assert d.db.content == InsertStore(d.db.content, name);
      return Ok;
    }
    id := GetStoreId(d, name, true);
    return if id.Some? then Ok else Status.Sqlite;
  }

  /** Pruning is one DELETE: records, revision and the caller's transaction stay as they are. */
  method PruneObjectChanges(d: Database<Tables>, through: nat) returns (status: Status, deleted: nat)
    requires Ready(d)
    modifies d`db
    ensures Ready(d)
    ensures status in {Ok, InvalidArgument, Sqlite}
    ensures status.InvalidArgument? <==> through > REVISION_MAX
    ensures status.Ok? ==> d.db == old(d.db).Write(PruneChanges(old(d.db.content), through))
    ensures status.Ok? ==> deleted == |set r | r in old(d.db.content).changes && r <= through|
    ensures !status.Ok? ==> d.db == old(d.db) && deleted == 0
    ensures d.reliable ==> !status.Sqlite?
  {
    if through > REVISION_MAX {
      return InvalidArgument, 0;
    }
    var doomed := set r | r in d.db.content.changes && r <= through;
    var ok := d.Exec(d.db.Write(PruneChanges(d.db.content, through)));
    if !ok {
      return Status.Sqlite, 0;
    }
    deleted := |doomed|;
    return Ok, deleted;
  }
}
