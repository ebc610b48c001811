/**
 The process-memory Store: an ordered record map, a bounded change journal, a revision counter and a retained floor,
 updated in place. `log` is the full history of successful mutations; `Valid` says that every field is determined by
 it. A failed allocation is a nondeterministic branch, which a `reliable` Store does not take.
 */
module MemoryStores {
  import opened Common
  import opened Journal
  import Utf8
  import Paging

  const KEY_MAX_BYTES: nat := 4096
  const CHANGE_LIMIT_MAX: nat := 10000
  const SCAN_LIMIT_MAX: nat := 10000
  const CHANGE_CAPACITY: nat := 4096
  const PATCH_MAX_ENTRIES: nat := 1024

  type Key = seq<byte>
  type Log = seq<Mutation<Key>>

  datatype Entry = Entry(key: Key, value: Value)

  /** The fields of a Store. */
  datatype State = State(records: map<Key, Record>, changes: seq<Change<Key>>, revision: nat, floor: nat)

  predicate ValidKey(key: Key) {
    1 <= |key| <= KEY_MAX_BYTES && Utf8.WellFormed(key)
  }

  /** The oldest revision a cursor may hold and still be served: only the newest 4096 changes are kept. */
  function FloorOf(revision: nat): nat {
    if revision <= CHANGE_CAPACITY then 0 else revision - CHANGE_CAPACITY
  }

  function Retained(log: Log): (changes: seq<Change<Key>>)
  {
    ChangesOf(log)[FloorOf(|log|)..]
  }

  /** The journal holds exactly the revisions floor + 1 .. revision, in order, as they were written. */
  lemma RetainedExactly(log: Log)
    ensures |Retained(log)| == |log| - FloorOf(|log|) <= CHANGE_CAPACITY
    ensures forall i :: 0 <= i < |Retained(log)| ==>
              var r := FloorOf(|log|) + i + 1;
              Retained(log)[i] == ChangeOf(log[r - 1], r)
    ensures |Retained(log)| < CHANGE_CAPACITY ==> FloorOf(|log|) == 0
  {
  }

  /** Appending to a bounded journal: the result of the push-then-pop loop on any journal. */
  function Bounded(changes: seq<Change<Key>>, floor: nat, change: Change<Key>): (seq<Change<Key>>, nat) {
    var all := changes + [change];
    if |all| <= CHANGE_CAPACITY then (all, floor)
    else (all[|all| - CHANGE_CAPACITY..], all[|all| - CHANGE_CAPACITY - 1].revision)
  }

  lemma BoundedRetains(log: Log, m: Mutation<Key>)
    ensures Bounded(Retained(log), FloorOf(|log|), ChangeOf(m, |log| + 1))
            == (Retained(log + [m]), FloorOf(|log| + 1))
  {
    ChangesAppend(log, m);
    var floor, whole := FloorOf(|log|), ChangesOf(log + [m]);
    assert Retained(log) + [ChangeOf(m, |log| + 1)] == whole[floor..];
    if |log| - floor == CHANGE_CAPACITY {
      assert whole[floor..][1..] == whole[floor + 1..];
    }
  }

  /** emplace_back, then pop_front while over capacity. */
  method PushBounded(changes: seq<Change<Key>>, floor: nat, change: Change<Key>)
    returns (changes': seq<Change<Key>>, floor': nat)
    ensures (changes', floor') == Bounded(changes, floor, change)
  {
    changes', floor' := changes + [change], floor;
    ghost var all := changes';
    ghost var dropped := 0;
    while |changes'| > CHANGE_CAPACITY
      invariant dropped <= |all| && changes' == all[dropped..]
      invariant dropped == 0 || |changes'| >= CHANGE_CAPACITY
      invariant floor' == if dropped == 0 then floor else all[dropped - 1].revision
    {
      floor' := changes'[0].revision;
      changes' := changes'[1..];
      dropped := dropped + 1;
    }
  }

  function StateOf(log: Log): State {
    State(RecordsOf(log), Retained(log), |log|, FloorOf(|log|))
  }

  function Puts(entries: seq<Entry>): Log {
    seq(|entries|, i requires 0 <= i < |entries| => PutValue(entries[i].key, entries[i].value))
  }

  /** One put, field by field; None when the revision domain is exhausted. */
  function PutState(s: State, key: Key, value: Value): Option<State> {
    if s.revision >= REVISION_MAX then None
    else
      var (changes, floor) := Bounded(s.changes, s.floor, Journal.Put(s.revision + 1, key, value.valueType));
      Some(State(s.records[key := Record(value, s.revision + 1)], changes, s.revision + 1, floor))
  }

  /** The entries put one at a time, giving up at the first put that fails. */
  function PutAll(s: State, entries: seq<Entry>): Option<State>
    decreases |entries|
  {
    if entries == [] then Some(s)
    else
      match PutState(s, entries[0].key, entries[0].value)
      case None => None
      case Some(s') => PutAll(s', entries[1..])
  }

  lemma PutAppends(log: Log, key: Key, value: Value)
    ensures var s, m := StateOf(log), PutValue(key, value);
            StateOf(log + [m])
            == State(s.records[key := Record(value, |log| + 1)], Bounded(s.changes, s.floor, ChangeOf(m, |log| + 1)).0,
                     |log| + 1, Bounded(s.changes, s.floor, ChangeOf(m, |log| + 1)).1)
  {
    BoundedRetains(log, PutValue(key, value));
    RecordsAppend(log, PutValue(key, value));
  }

  lemma PutStateAppends(log: Log, key: Key, value: Value)
    ensures PutState(StateOf(log), key, value)
            == if |log| < REVISION_MAX then Some(StateOf(log + [PutValue(key, value)])) else None
  {
    PutAppends(log, key, value);
  }

  /**
   patch refines its entries put one by one: all those puts succeed exactly when the revision domain has
   room for the whole patch, and they end in the state the patch swaps in, repeated keys and
   evictions in the middle included.
   */
  lemma {:induction false} PatchRefinesPuts(log: Log, entries: seq<Entry>)
    requires |log| <= REVISION_MAX
    ensures PutAll(StateOf(log), entries)
            == if |log| + |entries| <= REVISION_MAX then Some(StateOf(log + Puts(entries))) else None
    decreases |entries|
  {
    if entries == [] {
      assert log + Puts(entries) == log;
    } else {
      var first := PutValue(entries[0].key, entries[0].value);
      PutStateAppends(log, entries[0].key, entries[0].value);
      if |log| < REVISION_MAX {
        PatchRefinesPuts(log + [first], entries[1..]);
        assert log + [first] + Puts(entries[1..]) == log + Puts(entries);
      }
    }
  }

  predicate BadQuery(log: Log, after: nat, limit: nat) {
    limit > CHANGE_LIMIT_MAX || after > |log|
  }

  /** The changes a query for `limit` changes after `after` is owed. */
  function Window(log: Log, after: nat, limit: nat): (window: seq<Change<Key>>)
    requires after <= |log|
  {
    var n := if limit == 0 then CHANGE_LIMIT_MAX else limit;
    ChangesOf(log)[after..if after + n <= |log| then after + n else |log|]
  }

  /** The window is contiguous: it starts right after the cursor and skips nothing. */
  lemma WindowIsContiguous(log: Log, after: nat, limit: nat)
    requires after <= |log|
    ensures var w := Window(log, after, limit);
            && (forall i :: 0 <= i < |w| ==> w[i] == ChangeOf(log[after + i], after + i + 1))
            && (|w| == 0 <==> after == |log|)
            && |w| <= (if limit == 0 then CHANGE_LIMIT_MAX else limit)
            && (|w| < (if limit == 0 then CHANGE_LIMIT_MAX else limit) ==> after + |w| == |log|)
  {
  }

  lemma RevisionInWindow(log: Log, after: nat, limit: nat, n: nat)
    requires after <= |log| && n <= |Window(log, after, limit)|
    ensures n > 0 ==> Window(log, after, limit)[n - 1].revision == after + n
  {
  }

  /** The check every patch entry passes before anything is locked. */
  method ValidEntries(entries: seq<Entry>) returns (valid: bool)
    ensures valid <==> forall i :: 0 <= i < |entries| ==> ValidKey(entries[i].key)
  {
    for i := 0 to |entries|
      invariant forall j :: 0 <= j < i ==> ValidKey(entries[j].key)
    {
      var wellFormed := Utf8.ValidUtf8(entries[i].key);
      if !(1 <= |entries[i].key| <= KEY_MAX_BYTES) || !wellFormed {
        return false;
      }
    }
    return true;
  }

  /** The copy-on-write loop of patch: any entry may run out of memory, and then there is no candidate. */
  method StagePatch(entries: seq<Entry>, live: State, reliable: bool, ghost log: Log)
      returns (ok: bool, candidate: State)
    requires live == StateOf(log)
    ensures ok ==> candidate == StateOf(log + Puts(entries))
    ensures reliable ==> ok
  {
    var records, changes, next, floor := live.records, live.changes, live.revision, live.floor;
    ghost var staged := log;
    assert log + Puts(entries[..0]) == log;
    for i := 0 to |entries|
      invariant staged == log + Puts(entries[..i])
      invariant State(records, changes, next, floor) == StateOf(staged)
    {
      var failed := Fails(reliable);
      if failed {
        return false, live;
      }
      var Entry(key, value) := entries[i];
      next := next + 1;
      records := records[key := Record(value, next)];
      changes, floor := PushBounded(changes, floor, Journal.Put(next, key, value.valueType));
      PutAppends(staged, key, value);
      staged := staged + [PutValue(key, value)];
      assert Puts(entries[..i + 1]) == Puts(entries[..i]) + [PutValue(key, value)];
    }
    assert entries[..|entries|] == entries;
    return true, State(records, changes, next, floor);
  }

  lemma RevisionAt(log: Log, i: nat)
    requires i < |Retained(log)|
    ensures Retained(log)[i].revision == FloorOf(|log|) + i + 1
  {
    RetainedExactly(log);
  }

  /** What the first `i` retained changes leave in a snapshot that skips the first `start`. */
  ghost function Copied(changes: seq<Change<Key>>, start: nat, i: nat): seq<Change<Key>>
    requires i <= |changes|
  {
    if i <= start then [] else changes[start..i]
  }

  lemma CopiedNext(changes: seq<Change<Key>>, start: nat, i: nat)
    requires i < |changes|
    ensures Copied(changes, start, i + 1)
            == if i < start then Copied(changes, start, i) else Copied(changes, start, i) + [changes[i]]
  {
  }

  /** A snapshot that is full, or has reached the end of the journal, is the window. */
  lemma CopiedIsWindow(log: Log, after: nat, limit: nat, i: nat)
    requires FloorOf(|log|) <= after <= |log| && 1 <= limit && i <= |Retained(log)|
    requires var n := |Copied(Retained(log), after - FloorOf(|log|), i)|;
             n == limit || (n < limit && i == |Retained(log)|)
    ensures Copied(Retained(log), after - FloorOf(|log|), i) == Window(log, after, limit)
  {
  }

  class MemoryStore {
    var records: map<Key, Record>
    var changes: seq<Change<Key>>
    var revision: nat
    var retainedFloor: nat
    const reliable: bool
    ghost var log: Log

    function Fields(): State
      reads this
    {
      State(records, changes, revision, retainedFloor)
    }

    ghost predicate Valid()
      reads this
    {
      |log| <= REVISION_MAX && Fields() == StateOf(log)
    }

    constructor (reliable: bool)
      ensures Valid() && log == [] && this.reliable == reliable
    {
      this.reliable := reliable;
      records, changes, revision, retainedFloor, log := map[], [], 0, 0, [];
    }

    /** retain_change: allocation of the journal slot may fail, and then nothing has changed. */
    method RetainChange(change: Change<Key>, ghost m: Mutation<Key>) returns (ok: bool)
      requires changes == Retained(log) && retainedFloor == FloorOf(|log|) && change == ChangeOf(m, |log| + 1)
      modifies this`changes, this`retainedFloor
      ensures ok ==> changes == Retained(log + [m]) && retainedFloor == FloorOf(|log| + 1)
      ensures !ok ==> changes == old(changes) && retainedFloor == old(retainedFloor)
      ensures reliable ==> ok
    {
      var failed := Fails(reliable);
      if failed {
        return false;
      }
      changes, retainedFloor := PushBounded(changes, retainedFloor, change);
      BoundedRetains(log, m);
      ok := true;
    }

    method Put(key: Key, value: Value) returns (status: Status, outRevision: nat)
      requires Valid()
      modifies this
      ensures Valid()
      ensures status in {Ok, InvalidArgument, InvalidState, OutOfMemory} && (reliable ==> !status.OutOfMemory?)
      ensures status.Ok? ==> log == old(log) + [PutValue(key, value)] && outRevision == revision
      ensures status.Ok? ==> PutState(old(Fields()), key, value) == Some(Fields())
      ensures !status.Ok? ==> unchanged(this) && outRevision == 0
      ensures status.InvalidArgument? <==> !ValidKey(key)
      ensures status.InvalidState? ==> old(revision) == REVISION_MAX
      ensures ValidKey(key) && old(revision) == REVISION_MAX ==> status.InvalidState? || status.OutOfMemory?
    {
      outRevision := 0;
      var valid := Utf8.ValidUtf8(key);
      if !(1 <= |key| <= KEY_MAX_BYTES) || !valid {
        return InvalidArgument, 0;
      }
      var failed := Fails(reliable);
      if failed {
        return OutOfMemory, 0;
      }
      if revision >= REVISION_MAX {
        return InvalidState, 0;
      }
      var placed := PlaceRecord(key, value);
      if !placed {
        return OutOfMemory, 0;
      }
      revision := revision + 1;
      RecordsAppend(log, PutValue(key, value));
      PutStateAppends(log, key, value);
      log := log + [PutValue(key, value)];
      return Ok, revision;
    }

    /** The record goes in before the journal is extended, and comes out again when that fails. */
    method PlaceRecord(key: Key, value: Value) returns (ok: bool)
      requires Valid()
      modifies this`records, this`changes, this`retainedFloor
      ensures ok ==> records == old(records)[key := Record(value, revision + 1)]
      ensures ok ==> changes == Retained(log + [PutValue(key, value)]) && retainedFloor == FloorOf(revision + 1)
      ensures !ok ==> Fields() == old(Fields())
      ensures reliable ==> ok
    {
      var candidate := Record(value, revision + 1);
      var previous := None;
      if key in records {
        previous := Some(records[key]);
      } else {
        var failed := Fails(reliable);
        if failed {
          return false;
        }
      }
      records := records[key := candidate];
      ok := RetainChange(Journal.Put(revision + 1, key, value.valueType), PutValue(key, value));
      if !ok {
        match previous {
          case None => records := records - {key};
          case Some(record) => records := records[key := record];
        }
        assert records == old(records);
      }
    }

    /** Copy-on-write: a candidate is built entry by entry beside the live fields and swapped in only when complete. */
    method Patch(entries: seq<Entry>) returns (status: Status, outRevision: nat)
      requires Valid()
      modifies this
      ensures Valid()
      ensures status in {Ok, InvalidArgument, InvalidState, OutOfMemory} && (reliable ==> !status.OutOfMemory?)
      ensures status.Ok? ==> log == old(log) + Puts(entries) && outRevision == revision
      ensures status.Ok? ==> PutAll(old(Fields()), entries) == Some(Fields())
      ensures status.InvalidState? ==> PutAll(old(Fields()), entries) == None
      ensures !status.Ok? ==> unchanged(this) && outRevision == 0
      ensures status.InvalidArgument? <==>
                |entries| > PATCH_MAX_ENTRIES || exists i :: 0 <= i < |entries| && !ValidKey(entries[i].key)
      ensures status.InvalidState? ==> old(revision) + |entries| > REVISION_MAX
      ensures old(revision) + |entries| > REVISION_MAX ==> status.InvalidState? || status.InvalidArgument?
    {
      if |entries| > PATCH_MAX_ENTRIES {
        return InvalidArgument, 0;
      }
      var valid := ValidEntries(entries);
      if !valid {
        return InvalidArgument, 0;
      }
      if |entries| == 0 {
        assert log + Puts(entries) == log;
        return Ok, revision;
      }
      if revision > REVISION_MAX - |entries| {
        PatchRefinesPuts(log, entries);
        return InvalidState, 0;
      }
      var staged, candidate := StagePatch(entries, Fields(), reliable, log);
      if !staged {
        return OutOfMemory, 0;
      }
      PatchRefinesPuts(log, entries);
      records, changes, retainedFloor, revision := candidate.records, candidate.changes, candidate.floor,
          candidate.revision;
      log := log + Puts(entries);
      return Ok, revision;
    }

    method Remove(key: Key) returns (status: Status, deleted: bool, outRevision: nat)
      requires Valid()
      modifies this
      ensures Valid()
      ensures status in {Ok, InvalidArgument, InvalidState, OutOfMemory} && (reliable ==> !status.OutOfMemory?)
      ensures deleted ==> status.Ok? && key in old(records) && log == old(log) + [DeleteKey(key)]
      ensures status.Ok? ==> deleted == (key in old(records)) && outRevision == revision
      ensures !deleted ==> unchanged(this)
      ensures !status.Ok? ==> outRevision == 0
      ensures status.InvalidArgument? <==> !ValidKey(key)
      ensures status.InvalidState? ==> old(revision) == REVISION_MAX && key in old(records)
    {
      var valid := Utf8.ValidUtf8(key);
      if !(1 <= |key| <= KEY_MAX_BYTES) || !valid {
        return InvalidArgument, false, 0;
      }
      var failed := Fails(reliable);
      if failed {
        return OutOfMemory, false, 0;
      }
      if key !in records {
        return Ok, false, revision;
      }
      if revision >= REVISION_MAX {
        return InvalidState, false, 0;
      }
      var next := revision + 1;
      var retained := RetainChange(Journal.Delete(next, key), DeleteKey(key));
      if !retained {
        return OutOfMemory, false, 0;
      }
      records := records - {key};
      revision := next;
      RecordsAppend(log, DeleteKey(key));
      log := log + [DeleteKey(key)];
      return Ok, true, next;
    }

    method ClearRecords() returns (status: Status, cleared: bool, outRevision: nat)
      requires Valid()
      modifies this
      ensures Valid()
      ensures status in {Ok, InvalidState, OutOfMemory} && (reliable ==> !status.OutOfMemory?)
      ensures cleared ==> status.Ok? && old(records) != map[] && log == old(log) + [ClearAll]
      ensures status.Ok? ==> cleared == (old(records) != map[]) && outRevision == revision
      ensures !cleared ==> unchanged(this)
      ensures !status.Ok? ==> outRevision == 0
      ensures status.InvalidState? ==> old(revision) == REVISION_MAX && old(records) != map[]
    {
      var failed := Fails(reliable);
      if failed {
        return OutOfMemory, false, 0;
      }
      if records == map[] {
        return Ok, false, revision;
      }
      if revision >= REVISION_MAX {
        return InvalidState, false, 0;
      }
      var next := revision + 1;
      var retained := RetainChange(Journal.Clear(next), ClearAll);
      if !retained {
        return OutOfMemory, false, 0;
      }
      records := map[];
      revision := next;
      RecordsAppend(log, ClearAll);
      log := log + [ClearAll];
      return Ok, true, next;
    }

    /** A host callback runs with the Store unlocked: it may call any mutation any number of times. */
    method InvokeCallback() returns (verdict: Verdict)
      requires Valid()
      modifies this
      ensures Valid() && old(log) <= log
    {
      var calls: nat := *;
      while calls > 0
        invariant Valid() && old(log) <= log
      {
        calls := calls - 1;
        var key: Key := *;
        if
        case true =>
          var value: Value := *;
          var _, _ := Put(key, value);
        case true =>
          var entries: seq<Entry> := *;
          var _, _ := Patch(entries);
        case true =>
          var _, _, _ := Remove(key);
        case true =>
          var _, _, _ := ClearRecords();
      }
      verdict := *;
    }

    /**
     scan: one page of records above the cursor, snapshotted under the lock and delivered outside it. The
     keys shown are a prefix of the page that ends where the callback says; it is the whole page otherwise.
     */
    method Scan(after: Paging.Cursor, limit: nat)
      returns (status: Status, count: nat, delivered: seq<Key>, values: seq<Record>, ghost page: seq<Key>,
               stopped: bool, ghost verdicts: seq<Verdict>)
      requires Valid()
      modifies this
      ensures Valid() && old(log) <= log
      ensures status in {Ok, InvalidArgument, OutOfMemory, Internal} && (reliable ==> !status.OutOfMemory?)
      ensures status.InvalidArgument? <==> limit > SCAN_LIMIT_MAX || (after.Some? && !ValidKey(after.value))
      ensures status.Ok? || status.Internal? ==>
                && Paging.IsPage(old(records).Keys, after, if limit == 0 then SCAN_LIMIT_MAX else limit, page)
                && delivered <= page
                && Obeyed(verdicts, |delivered|, |page|, stopped, status.Internal?)
      ensures status.Ok? && !stopped ==> delivered == page
      ensures |values| == |delivered|
      ensures forall i :: 0 <= i < |delivered| ==>
                delivered[i] in old(records) && values[i] == old(records)[delivered[i]]
      ensures count == if status.Ok? then |delivered| else 0
      ensures !status.Ok? && !status.Internal? ==> delivered == [] && unchanged(this)
    {
      delivered, values, page, stopped, verdicts := [], [], [], false, [];
      var cursorValid := true;
      if after.Some? {
        cursorValid := Utf8.ValidUtf8(after.value);
        cursorValid := cursorValid && 1 <= |after.value| <= KEY_MAX_BYTES;
      }
      if !cursorValid || limit > SCAN_LIMIT_MAX {
        return InvalidArgument, 0, [], [], [], false, [];
      }
      var bound := if limit == 0 then SCAN_LIMIT_MAX else limit;
      var failed := Fails(reliable);
      if failed {
        return OutOfMemory, 0, [], [], [], false, [];
      }
      var keys := Paging.FirstKeys(records.Keys, after, bound);
      assert forall i :: 0 <= i < |keys| ==> keys[i] in keys;
      var snapshot := seq(|keys|, i requires 0 <= i < |keys| && keys[i] in records reads this => records[keys[i]]);
      page := keys;
      var thrown;
      delivered, values, stopped, thrown, verdicts := DeliverRecords(keys, snapshot);
      if thrown {
        return Internal, 0, delivered, values, keys, false, verdicts;
      }
      return Ok, |delivered|, delivered, values, keys, stopped, verdicts;
    }

    /** The callbacks of a scan, outside the lock, until one stops or throws. */
    method DeliverRecords(keys: seq<Key>, snapshot: seq<Record>)
      returns (delivered: seq<Key>, values: seq<Record>, stopped: bool, thrown: bool, ghost verdicts: seq<Verdict>)
      requires Valid() && |snapshot| == |keys|
      modifies this
      ensures Valid() && old(log) <= log
      ensures delivered <= keys && values == snapshot[..|delivered|]
      ensures Obeyed(verdicts, |delivered|, |keys|, stopped, thrown)
    {
      delivered, values, stopped, thrown, verdicts := [], [], false, false, [];
      for i := 0 to |keys|
        invariant Valid() && old(log) <= log
        invariant delivered == keys[..i] && values == snapshot[..i]
        invariant |verdicts| == i && AllContinue(verdicts)
      {
        delivered, values := delivered + [keys[i]], values + [snapshot[i]];
        var verdict := InvokeCallback();
        OneVerdict(verdicts, verdict, |keys|);
        verdicts := verdicts + [verdict];
        match verdict {
          case Continue =>
          case Stop =>
            return delivered, values, true, false, verdicts;
          case Throw =>
            return delivered, values, false, true, verdicts;
        }
      }
    }

    /** The locked part of a change query: skip what the cursor has, copy at most `limit` entries. */
    method SnapshotChanges(after: nat, limit: nat) returns (snapshot: seq<Change<Key>>)
      requires Valid() && retainedFloor <= after <= revision && 1 <= limit <= CHANGE_LIMIT_MAX
      ensures snapshot == Window(log, after, limit)
    {
      snapshot := [];
      ghost var start := after - retainedFloor;
      var i := 0;
      while i < |changes|
        invariant i <= |changes| && snapshot == Copied(changes, start, i) && |snapshot| <= limit
      {
        RevisionAt(log, i);
        var change := changes[i];
        CopiedNext(changes, start, i);
        if change.revision > after {
          if |snapshot| >= limit {
            break;
          }
          snapshot := snapshot + [change];
        }
        i := i + 1;
      }
      CopiedIsWindow(log, after, limit, i);
    }

    /** The part of a change query before any callback: the checks, and the snapshot under the lock. */
    method QueryChanges(after: nat, limit: nat) returns (status: Status, snapshot: seq<Change<Key>>)
      requires Valid()
      ensures status in {Ok, InvalidArgument, Gap, OutOfMemory} && (reliable ==> !status.OutOfMemory?)
      ensures BadQuery(log, after, limit) ==> status.InvalidArgument? || status.OutOfMemory?
      ensures status.InvalidArgument? ==> BadQuery(log, after, limit)
      ensures !BadQuery(log, after, limit) && after < FloorOf(|log|) ==> status.Gap? || status.OutOfMemory?
      ensures status.Gap? ==> !BadQuery(log, after, limit) && after < FloorOf(|log|)
      ensures status.Ok? ==> FloorOf(|log|) <= after <= |log| && snapshot == Window(log, after, limit)
    {
      if limit > CHANGE_LIMIT_MAX || after > REVISION_MAX {
        return InvalidArgument, [];
      }
      var bound := if limit == 0 then CHANGE_LIMIT_MAX else limit;
      var failed := Fails(reliable);
      if failed {
        return OutOfMemory, [];
      }
      if after > revision {
        return InvalidArgument, [];
      }
      if after < retainedFloor {
        return Gap, [];
      }
      snapshot := SnapshotChanges(after, bound);
      status := Ok;
    }

    /**
     changes_since: `delivered` is what the callback was shown. Re-entrant mutations made by the callback
     extend the log but never touch the snapshot being delivered.
     */
    method ChangesSince(after: nat, limit: nat)
      returns (status: Status, last: nat, count: nat, delivered: seq<Change<Key>>, stopped: bool,
               ghost verdicts: seq<Verdict>)
      requires Valid()
      modifies this
      ensures Valid() && old(log) <= log
      ensures status in {Ok, InvalidArgument, Gap, OutOfMemory, Internal} && (reliable ==> !status.OutOfMemory?)
      ensures BadQuery(old(log), after, limit) ==> status.InvalidArgument? || status.OutOfMemory?
      ensures status.InvalidArgument? ==> BadQuery(old(log), after, limit)
      ensures !BadQuery(old(log), after, limit) && after < FloorOf(|old(log)|) ==> status.Gap? || status.OutOfMemory?
      ensures status.Gap? ==> !BadQuery(old(log), after, limit) && after < FloorOf(|old(log)|)
      ensures status.Ok? || status.Internal? ==> after <= |old(log)| && delivered <= Window(old(log), after, limit)
      ensures status.Ok? || status.Internal? ==>
                Obeyed(verdicts, |delivered|, |Window(old(log), after, limit)|, stopped, status.Internal?)
      ensures status.Ok? && !stopped ==> delivered == Window(old(log), after, limit)
      ensures status.Ok? ==> last == after + |delivered| && count == |delivered|
      ensures !status.Ok? ==> last == after && count == 0
      ensures !status.Ok? && !status.Internal? ==> delivered == [] && unchanged(this)
    {
      delivered, stopped := [], false;
      var snapshot;
      status, snapshot := QueryChanges(after, limit);
      if !status.Ok? {
        return status, after, 0, [], false, [];
      }
      var thrown;
      delivered, stopped, thrown, verdicts := DeliverChanges(snapshot);
      if thrown {
        return Internal, after, 0, delivered, false, verdicts;
      }
      RevisionInWindow(old(log), after, limit, |delivered|);
      last := if delivered == [] then after else delivered[|delivered| - 1].revision;
      return Ok, last, |delivered|, delivered, stopped, verdicts;
    }

    /** The callbacks, outside the lock, until one stops or throws. */
    method DeliverChanges(snapshot: seq<Change<Key>>)
      returns (delivered: seq<Change<Key>>, stopped: bool, thrown: bool, ghost verdicts: seq<Verdict>)
      requires Valid()
      modifies this
      ensures Valid() && old(log) <= log
      ensures delivered <= snapshot && Obeyed(verdicts, |delivered|, |snapshot|, stopped, thrown)
    {
      delivered, stopped, thrown, verdicts := [], false, false, [];
      for i := 0 to |snapshot|
        invariant Valid() && old(log) <= log
        invariant delivered == snapshot[..i]
        invariant |verdicts| == i && AllContinue(verdicts)
      {
        PrefixNext(snapshot, i);
        delivered := delivered + [snapshot[i]];
        var verdict := InvokeCallback();
        OneVerdict(verdicts, verdict, |snapshot|);
        verdicts := verdicts + [verdict];
        match verdict {
          case Continue =>
          case Stop =>
            return delivered, true, false, verdicts;
          case Throw =>
            return delivered, false, true, verdicts;
        }
      }
    }
  }

  /** A pull subscription: a cursor into one Store's journal. */
  class Subscription {
    const store: MemoryStore
    var revision: nat
    var polling: bool

    ghost predicate Valid()
      reads this, store
    {
      store.Valid() && revision <= |store.log|
    }

    constructor (store: MemoryStore, after: nat)
      requires store.Valid() && store.retainedFloor <= after <= store.revision
      ensures Valid() && this.store == store && revision == after && !polling
    {
      this.store, revision, polling := store, after, false;
    }

    /**
     A poll that returns Ok has delivered the changes right after the cursor, once each and in order, and
     moved the cursor past exactly those; any other poll leaves the cursor where it was. It ends where the callback
     says, and otherwise has delivered its whole window.
     */
    method Poll(limit: nat)
      returns (status: Status, count: nat, delivered: seq<Change<Key>>, stopped: bool, ghost verdicts: seq<Verdict>)
      requires Valid()
      modifies this, store
      ensures Valid() && old(store.log) <= store.log && polling == old(polling)
      ensures status.Busy? <==> old(polling)
      ensures store.reliable ==> !status.OutOfMemory?
      ensures status.Ok? ==> revision == old(revision) + |delivered| && count == |delivered|
      ensures status.Ok? ==> FloorOf(|old(store.log)|) <= old(revision)
      ensures status.Ok? ==>
                && revision <= |old(store.log)|
                && delivered == ChangesOf(old(store.log))[old(revision)..revision]
      ensures status.Ok? && !stopped ==> delivered == Window(old(store.log), old(revision), limit)
      ensures status.Ok? || status.Internal? ==>
                && delivered <= Window(old(store.log), old(revision), limit)
                && Obeyed(verdicts, |delivered|, |Window(old(store.log), old(revision), limit)|, stopped,
                          status.Internal?)
      ensures !status.Ok? ==> revision == old(revision) && count == 0
      ensures status.Gap? ==> old(revision) < FloorOf(|old(store.log)|)
      ensures old(revision) < FloorOf(|old(store.log)|) && !old(polling) && limit <= CHANGE_LIMIT_MAX
              ==> status.Gap? || status.OutOfMemory?
    {
      if polling {
        return Busy, 0, [], false, [];
      }
      polling := true;
      var start := revision;
      var last;
      status, last, count, delivered, stopped, verdicts := store.ChangesSince(start, limit);
      if status.Ok? {
        revision := last;
      }
      polling := false;
    }
  }

  /** subscribe: the cursor must lie between the retained floor and the revision. */
  method Subscribe(store: MemoryStore, after: nat) returns (status: Status, sub: Subscription?)
    requires store.Valid()
    ensures status in {Ok, InvalidArgument, Gap, OutOfMemory} && (store.reliable ==> !status.OutOfMemory?)
    ensures status.Ok? <==> sub != null
    ensures sub != null ==> fresh(sub) && sub.Valid() && sub.store == store && sub.revision == after
    ensures status.InvalidArgument? <==> after > store.revision
    ensures status.Gap? <==> after < FloorOf(store.revision)
  {
    if after > REVISION_MAX {
      return InvalidArgument, null;
    }
    if after > store.revision {
      return InvalidArgument, null;
    }
    if after < store.retainedFloor {
      return Gap, null;
    }
    var failed := Fails(store.reliable);
    if failed {
      return OutOfMemory, null;
    }
    sub := new Subscription(store, after);
    status := Ok;
  }
}
