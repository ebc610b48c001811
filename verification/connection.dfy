/**
 Everything a caller can do on one connection, and what it does to the committed history. A call here is any method of
 the connection or of the ObjectStore; raw statements and migration callbacks may write what they like as long as they
 leave the ObjectStore's history alone. Then come the change query, whose callbacks may call back, and the
 subscription.
 */
module Connection {
  import opened Common
  import opened Journal
  import opened Sqlite
  import opened Runtime
  import opened ObjectTables
  import opened ObjectStore
  import opened Migrations
  import opened Durable

  datatype Operation =
    | BeginTransaction
    | EndTransaction(transaction: nat, commit: bool)
    | RunSql(text: seq<Sql<Tables>>)
    | OpenSavepoint(savepoint: string)
    | ReleaseSavepoint(savepoint: string)
    | RollbackSavepoint(savepoint: string)
    | PutObject(name: Name, key: Key, value: Value)
    | DeleteObject(name: Name, key: Key)
    | EnsureObjectStore(name: Name)
    | PruneObjects(through: nat)
    | MigrateTo(target: nat, migrations: seq<Migration>)

  /**
   What the host is asked of its own statements and callbacks: they keep the invariant and the ObjectStore's history.
   */
  ghost predicate Allowed(m: Machine<Tables>, inv: Tables -> bool, op: Operation) {
    match op
    case RunSql(text) =>
      && (m.inTransaction ==> !Rebegins(text))
      && (forall i :: 0 <= i < |text| && text[i].Statement? ==> inv(text[i].after))
      && LaterText(m, text)
    case MigrateTo(_, migrations) => KeptByMigrations(inv, migrations) && LaterCallbacks(migrations)
    case _ => true
  }

  ghost predicate LaterCallbacks(migrations: seq<Migration>) {
    forall i, t :: 0 <= i < |migrations| && migrations[i].apply.Some? ==> Later(t, migrations[i].apply.value(t).after)
  }

  lemma StatementFollows(m: Machine<Tables>, sql: Sql<Tables>)
    requires !Refused(m, sql) && (sql.Statement? ==> Later(m.content, sql.after))
    ensures Follows(m, AfterStatement(m, sql))
  {
    match sql
    case Statement(after) => WriteFollows(m, after);
    case BeginText => StepFollows(m, Begin);
    case CommitText => StepFollows(m, Commit);
    case RollbackText => RollbackFollows(m);
  }

  /** Each statement of a text leaves a later content than it found. */
  ghost predicate LaterText(m: Machine<Tables>, text: seq<Sql<Tables>>) {
    forall i :: 0 <= i < |text| && text[i].Statement? ==> Later(AfterText(m, text, i).content, text[i].after)
  }

  lemma NextFollows(m: Machine<Tables>, text: seq<Sql<Tables>>, i: nat)
    requires i < |text| && !Refused(AfterText(m, text, i), text[i]) && LaterText(m, text)
    ensures Follows(AfterText(m, text, i), AfterText(m, text, i + 1))
  {
    StatementFollows(AfterText(m, text, i), text[i]);
  }

  lemma {:induction false} TextFollows(m: Machine<Tables>, text: seq<Sql<Tables>>, n: nat)
    requires n <= |text| && Runs(m, text, n) && LaterText(m, text)
    ensures Follows(m, AfterText(m, text, n))
  {
    if n > 0 {
      var i := n - 1;
      var before, after := AfterText(m, text, i), AfterText(m, text, n);
      assert !Refused(before, text[i]);
      TextFollows(m, text, i);
      NextFollows(m, text, i);
      FollowsTransitive(m, before, after);
    }
  }

  lemma {:induction false} PlanIsLater(migrations: seq<Migration>, t: Tables, current: nat, target: nat)
    requires current <= target && LaterCallbacks(migrations)
    ensures var plan := Planned(migrations, t, current, target); plan.Reaches? ==> Later(t, plan.t)
    decreases target - current
  {
    var step := StepFor(migrations, current);
    if current < target && step.Some? {
      var outcome := migrations[step.value].apply.value(t);
      if outcome.Returned? && outcome.status.Ok? {
        var next := outcome.after.(userVersion := current + 1);
        PlanIsLater(migrations, next, current + 1, target);
        var plan := Planned(migrations, t, current, target);
        if plan.Reaches? {
          LaterTransitive(t, next, plan.t);
        }
      }
    }
  }

  /** The operations of the ObjectStore. */
  method OperateOnObjects(d: Database<Tables>, op: Operation)
    requires Ready(d) && (op.PutObject? || op.DeleteObject? || op.EnsureObjectStore? || op.PruneObjects?)
    modifies d, d.savepoints
    ensures Ready(d) && Follows(old(d.db), d.db)
  {
    ghost var before := d.db;
    match op
    case PutObject(name, key, value) =>
      OperationsAreLater(before.content, name, key, value, 0);
      WriteFollows(before, PutTables(before.content, name, key, value));
      var status, _ := ObjectPut(d, name, key, value);
      if !status.Ok? {
        RestoredFollows(before, d.db);
      }
    case DeleteObject(name, key) =>
      var status, deleted, _ := ObjectDelete(d, name, key);
      if deleted {
        OperationsAreLater(before.content, name, key, Value(NullType, []), 0);
        WriteFollows(before, DeleteTables(before.content, name, key));
      } else if !status.Ok? {
        RestoredFollows(before, d.db);
      }
    case EnsureObjectStore(name) =>
      OperationsAreLater(before.content, name, [], Value(NullType, []), 0);
      WriteFollows(before, InsertStore(before.content, name));
      var _ := EnsureStore(d, name);
    case PruneObjects(through) =>
      OperationsAreLater(before.content, [], [], Value(NullType, []), through);
      WriteFollows(before, PruneChanges(before.content, through));
      var _, _ := PruneObjectChanges(d, through);
    case _ =>
  }

  /** Transactions, SQL text and migrations. */
  method OperateOnTransaction(d: Database<Tables>, op: Operation)
    requires Ready(d) && Allowed(d.db, d.inv, op)
    requires op.BeginTransaction? || op.EndTransaction? || op.RunSql? || op.MigrateTo?
    modifies d, d.savepoints
    ensures Ready(d) && Follows(old(d.db), d.db)
  {
    ghost var before := d.db;
    match op
    case BeginTransaction =>
      var status, _ := d.Begin();
      if status.Ok? {
        StepFollows(before, Begin);
      }
    case EndTransaction(transaction, commit) =>
      RollbackFollows(before);
      if before.inTransaction {
        StepFollows(before, Commit);
      }
      var _ := d.FinishTransaction(transaction, commit);
    case RunSql(text) =>
      ghost var done;
      var ok;
      ok, done := d.Execute(text);
      TextFollows(before, text, done);
      RollbackFollows(AfterText(before, text, done));
      FollowsTransitive(before, AfterText(before, text, done), AfterText(before, text, done).Rollback());
    case MigrateTo(target, migrations) =>
      var status := Migrate(d, target, migrations);
      if status.Ok? && d.db != before {
        PlanIsLater(migrations, before.content, before.content.userVersion, target);
        WriteFollows(before, Planned(migrations, before.content, before.content.userVersion, target).t);
      }
    case _ =>
  }

  method OperateOnSavepoint(d: Database<Tables>, op: Operation)
    requires Ready(d) && (op.OpenSavepoint? || op.ReleaseSavepoint? || op.RollbackSavepoint?)
    modifies d, d.savepoints
    ensures Ready(d) && Follows(old(d.db), d.db)
  {
    ghost var before := d.db;
    match op
    case OpenSavepoint(name) =>
      var status := d.SavepointBegin(name);
      if status.Ok? {
        StepFollows(before, Savepoint(name));
      }
    case ReleaseSavepoint(name) =>
      var status := d.SavepointRelease(name);
      if status.Ok? {
        StepFollows(before, Release(name));
      }
    case RollbackSavepoint(name) =>
      var status := d.SavepointRollback(name);
      if d.db != before {
        ghost var middle := before.RollbackTo(name);
        StepFollows(before, RollbackTo(name));
        if status.Ok? {
          StepFollows(middle, Release(name));
          FollowsTransitive(before, middle, middle.Release(name));
        }
      }
    case _ =>
  }

  /**
   Whatever is called on a connection, and however it fails, the committed history only grows, and everything that could
   still be rolled back to lies on the way from it to the present.
   */
  method Operate(d: Database<Tables>, op: Operation)
    requires Ready(d) && Allowed(d.db, d.inv, op)
    modifies d, d.savepoints
    ensures Ready(d) && Follows(old(d.db), d.db)
  {
    if op.PutObject? || op.DeleteObject? || op.EnsureObjectStore? || op.PruneObjects? {
      OperateOnObjects(d, op);
    } else if op.OpenSavepoint? || op.ReleaseSavepoint? || op.RollbackSavepoint? {
      OperateOnSavepoint(d, op);
    } else {
      OperateOnTransaction(d, op);
    }
  }

  // ---- the query itself ----

  /** A callback may do anything with the same connection; the snapshot it is shown does not change. */
  method Callback(d: Database<Tables>) returns (verdict: Verdict)
    requires Ready(d)
    modifies d, d.savepoints
    ensures Ready(d) && Follows(old(d.db), d.db)
  {
    var calls: nat :| true;
    ghost var before := d.db;
    for i := 0 to calls
      invariant Ready(d) && Follows(before, d.db)
    {
      assert !BeginTransaction.RunSql? && !BeginTransaction.MigrateTo?;
      var op: Operation :| !op.RunSql? && !op.MigrateTo?;
      ghost var middle := d.db;
      Operate(d, op);
      FollowsTransitive(before, middle, d.db);
    }
    verdict := *;
  }

  /**
   One change query. Delivered is always a prefix of what the tables held when the query ran, whatever the callbacks do
   to the connection: every row of the store asked for, or of all stores, up to the last one delivered, and no other. It
   ends where the callback says, and a query that ended for no other reason than that there was no more is complete.
   */
  method ObjectChangesSince(d: Database<Tables>, name: Option<Name>, after: nat, limit: nat)
    returns (status: Status, last: nat, delivered: seq<Change<Row>>, stopped: bool, ghost verdicts: seq<Verdict>)
    requires Ready(d)
    modifies d, d.savepoints
    ensures Ready(d) && Follows(old(d.db), d.db)
    ensures status in {Ok, InvalidArgument, Sqlite, OutOfMemory, Internal}
    ensures d.reliable ==> !status.Sqlite? && !status.OutOfMemory?
    ensures status.InvalidArgument? <==> BadQuery(name, after, limit)
    ensures Told(old(d.db.content), name, after, limit, delivered)
    ensures last == if status.Ok? then Advance(delivered, after) else after
    ensures status.Ok? || status.Internal? ==>
              Obeyed(verdicts, |delivered|, Most(old(d.db.content), name, after, limit), stopped, status.Internal?)
  {
    ghost var t := d.db.content;
    last, stopped, verdicts := after, false, [];
    var snapshot;
    status, snapshot := SelectRows(d, name, after, limit);
    PartIsTold(t, name, after, limit, []);
    if !status.Ok? {
      return status, after, [], false, [];
    }
    var thrown;
    delivered, stopped, thrown, verdicts := Deliver(d, snapshot);
    PartIsTold(t, name, after, limit, delivered);
    if thrown {
      return Internal, after, delivered, stopped, verdicts;
    }
    if delivered != [] {
      last := delivered[|delivered| - 1].revision;
    }
  }

  predicate BadQuery(name: Option<Name>, after: nat, limit: nat) {
    || limit > CHANGE_LIMIT_MAX || after > REVISION_MAX
    || (name.Some? && !ValidText(name.value, STORE_NAME_MAX_BYTES))
  }

  /** How many rows a query delivers if no callback ends it. */
  function Most(t: Tables, name: Option<Name>, after: nat, limit: nat): nat {
    var rows := |Wanted(t.changes, FilterOf(t, name), after, t.sequence)|;
    var bound := if limit == 0 then CHANGE_LIMIT_MAX else limit;
    if rows <= bound then rows else bound
  }

  /**
   What was delivered are rows of the moment of the query: every row asked for up to the last of them and no other, and
   every row there is after the cursor when there are fewer than the limit, unless a callback ended the delivery.
   */
  ghost predicate Told(t: Tables, name: Option<Name>, after: nat, limit: nat, delivered: seq<Change<Row>>) {
    && RowsNumbered(t)
    && delivered <= Wanted(t.changes, FilterOf(t, name), after, t.sequence)
    && |delivered| <= Most(t, name, after, limit)
    && Answers(t, name, after, Advance(delivered, after), delivered)
    && (|delivered| == Most(t, name, after, limit) < (if limit == 0 then CHANGE_LIMIT_MAX else limit) ==>
          && delivered == Wanted(t.changes, FilterOf(t, name), after, t.sequence)
          && Answers(t, name, after, t.sequence, delivered))
  }

  lemma PartIsTold(t: Tables, name: Option<Name>, after: nat, limit: nat, delivered: seq<Change<Row>>)
    requires RowsNumbered(t) && IdsOk(t.stores) && |delivered| <= Most(t, name, after, limit)
    requires delivered <= Wanted(t.changes, FilterOf(t, name), after, t.sequence)
    ensures Told(t, name, after, limit, delivered)
  {
    var rows := Wanted(t.changes, FilterOf(t, name), after, t.sequence);
    WantedAnswers(t, name, after, t.sequence);
    assert delivered == rows[..|delivered|];
    PrefixAnswers(t, name, after, t.sequence, rows, delivered);
  }

  /** The checks, and the SELECT into a snapshot. */
  method SelectRows(d: Database<Tables>, name: Option<Name>, after: nat, limit: nat)
    returns (status: Status, snapshot: seq<Change<Row>>)
    ensures status in {Ok, InvalidArgument, Sqlite, OutOfMemory}
    ensures d.reliable ==> !status.Sqlite? && !status.OutOfMemory?
    ensures status.InvalidArgument? <==> BadQuery(name, after, limit)
    ensures status.Ok? ==>
              var t := d.db.content;
              && |snapshot| == Most(t, name, after, limit)
              && snapshot <= Wanted(t.changes, FilterOf(t, name), after, t.sequence)
  {
    var validName := true;
    if name.Some? {
      validName := IsValidText(name.value, STORE_NAME_MAX_BYTES);
    }
    if limit > CHANGE_LIMIT_MAX || after > REVISION_MAX || !validName {
      return InvalidArgument, [];
    }
    var t, bound := d.db.content, if limit == 0 then CHANGE_LIMIT_MAX else limit;
    var failed;
    failed, snapshot := Snapshot(t.changes, FilterOf(t, name), after, t.sequence, bound, d.reliable);
    if failed {
      var noMemory: bool := *;
      return if noMemory then OutOfMemory else Status.Sqlite, [];
    }
    status := Ok;
  }

  /** The callbacks, until one stops or throws. */
  method Deliver(d: Database<Tables>, snapshot: seq<Change<Row>>)
    returns (delivered: seq<Change<Row>>, stopped: bool, thrown: bool, ghost verdicts: seq<Verdict>)
    requires Ready(d)
    modifies d, d.savepoints
    ensures Ready(d) && Follows(old(d.db), d.db)
    ensures delivered <= snapshot && Obeyed(verdicts, |delivered|, |snapshot|, stopped, thrown)
  {
    delivered, stopped, thrown, verdicts := [], false, false, [];
    ghost var before := d.db;
    for i := 0 to |snapshot|
      invariant delivered == snapshot[..i]
      invariant |verdicts| == i && AllContinue(verdicts)
      invariant Ready(d) && Follows(before, d.db)
    {
      PrefixNext(snapshot, i);
      delivered := delivered + [snapshot[i]];
      ghost var middle := d.db;
      var verdict := Callback(d);
      OneVerdict(verdicts, verdict, |snapshot|);
      verdicts := verdicts + [verdict];
      FollowsTransitive(before, middle, d.db);
      match verdict {
        case Continue =>
        case Stop =>
          return delivered, true, false, verdicts;
        case Throw =>
          return delivered, false, true, verdicts;
      }
    }
  }

  /** Stepping the SELECT until it is done or has given `bound` rows. */
  method Snapshot(changes: map<nat, Change<Row>>, filter: Filter, after: nat, sequence: nat, bound: nat, reliable: bool)
    returns (failed: bool, rows: seq<Change<Row>>)
    ensures reliable ==> !failed
    ensures !failed ==> rows <= Wanted(changes, filter, after, sequence) && |rows| <= bound
    ensures !failed && |rows| < bound ==> rows == Wanted(changes, filter, after, sequence)
  {
    rows := [];
    failed := Fails(reliable);
    if failed || sequence <= after {
      return;
    }
    var revision := after;
    while revision < sequence && |rows| < bound
      invariant after <= revision <= sequence && |rows| <= bound
      invariant rows == Wanted(changes, filter, after, revision)
    {
      revision := revision + 1;
      if revision in changes && !changes[revision].Clear? && Matches(filter, changes[revision].key) {
        rows := rows + [changes[revision]];
      }
    }
    WantedGrows(changes, filter, after, revision, sequence);
  }

  // ---- the durable subscription ----

  /** A cursor into the journal of one connection, for one store or all. */
  class ObjectSubscription {
    const d: Database<Tables>
    const name: Option<Name>
    var revision: nat
    var polling: bool

    constructor (d: Database<Tables>, name: Option<Name>, after: nat)
      requires after <= REVISION_MAX && (name.Some? ==> ValidText(name.value, STORE_NAME_MAX_BYTES))
      ensures this.d == d && this.name == name && revision == after && !polling
    {
      this.d, this.name, revision, polling := d, name, after, false;
    }

    /**
     A poll is a Durable.Poll of the tables as they were when it began: OK moves the cursor past exactly what was
     delivered, anything else leaves it, and a poll made during a poll is refused.
     */
    method Poll(limit: nat)
      returns (status: Status, delivered: seq<Change<Row>>, stopped: bool, ghost verdicts: seq<Verdict>)
      requires Ready(d)
      modifies this, d, d.savepoints
      ensures Ready(d) && Follows(old(d.db), d.db) && polling == old(polling)
      ensures status.Busy? <==> old(polling)
      ensures d.reliable ==> !status.Sqlite? && !status.OutOfMemory?
      ensures status.Ok? || status.Internal? ==>
                && Told(old(d.db.content), name, old(revision), limit, delivered)
                && Obeyed(verdicts, |delivered|, Most(old(d.db.content), name, old(revision), limit), stopped,
                          status.Internal?)
      ensures status.Ok? ==>
                var t := old(d.db.content);
                && delivered == Delivered(Durable.Poll(t, |delivered|), FilterOf(t, name), old(revision))
                && revision == Advance(delivered, old(revision))
      ensures !status.Ok? ==> revision == old(revision)
    {
      if polling {
        return Busy, [], false, [];
      }
      polling := true;
      var last;
      status, last, delivered, stopped, verdicts := ObjectChangesSince(d, name, revision, limit);
      if status.Ok? {
        revision := last;
      }
      polling := false;
    }
  }

  /** The filter means the subscription's store: its id, or an id not given out yet if the store does not exist yet. */
  ghost predicate Means(t: Tables, name: Option<Name>, filter: Filter) {
    match name
    case None => filter.None?
    case Some(n) => filter.Some? && if n in t.stores then filter.value == t.stores[n] else filter.value > |t.stores|
  }

  lemma {:induction false} NobodyThere(t: Tables, id: nat, after: nat, through: nat)
    requires Consistent(t) && through <= t.sequence && (id == 0 || id > |t.stores|)
    ensures Wanted(t.changes, Some(id), after, through) == []
  {
    if after < through {
      NobodyThere(t, id, after, through - 1);
    }
  }

  lemma SameDelivery(t: Tables, name: Option<Name>, filter: Filter, n: nat, after: nat)
    requires Consistent(t) && Means(t, name, filter)
    ensures Delivered(Durable.Poll(t, n), FilterOf(t, name), after) == Delivered(Durable.Poll(t, n), filter, after)
  {
    if name.Some? && name.value !in t.stores {
      NobodyThere(t, 0, after, t.sequence);
      NobodyThere(t, filter.value, after, t.sequence);
    }
  }

  /** What a consumer needs of a poll. */
  method PollForFold(sub: ObjectSubscription, limit: nat) returns (status: Status, delivered: seq<Change<Row>>)
    requires Ready(sub.d)
    modifies sub, sub.d, sub.d.savepoints
    ensures Ready(sub.d) && Follows(old(sub.d.db), sub.d.db)
    ensures status.Ok? ==>
              var t := old(sub.d.db.content);
              && delivered == Delivered(Durable.Poll(t, |delivered|), FilterOf(t, sub.name), old(sub.revision))
              && sub.revision == Advance(delivered, old(sub.revision))
    ensures !status.Ok? ==> sub.revision == old(sub.revision)
  {
    var result, changes, _, _ := sub.Poll(limit);
    status, delivered := result, changes;
  }

  /** A consumer polls a real subscription and folds what it gets: that is one more poll of its run. */
  method PollAndFold(sub: ObjectSubscription, limit: nat, view: View<Row>,
                     ghost polls: seq<Durable.Poll>, ghost filter: Filter, ghost start: nat, ghost first: View<Row>)
    returns (status: Status, view': View<Row>, ghost polls': seq<Durable.Poll>)
    requires Ready(sub.d) && Consistent(sub.d.db.content) && Means(sub.d.db.content, sub.name, filter)
    requires Acknowledged(polls, filter, start) && start <= |sub.d.db.content.history|
    requires polls != [] ==> Later(polls[|polls| - 1].t, sub.d.db.content)
    requires sub.revision == CursorAfter(polls, filter, start) && NothingMissed(sub.d.db.content, sub.revision)
    requires view == ViewAfter(polls, filter, start, first)
    modifies sub, sub.d, sub.d.savepoints
    ensures Ready(sub.d) && Follows(old(sub.d.db), sub.d.db)
    ensures polls' == polls || exists n :: polls' == polls + [Durable.Poll(old(sub.d.db.content), n)]
    ensures !status.Ok? ==> polls' == polls
    ensures Acknowledged(polls', filter, start)
    ensures sub.revision == CursorAfter(polls', filter, start) && view' == ViewAfter(polls', filter, start, first)
  {
    ghost var t, after := sub.d.db.content, sub.revision;
    MissedIsPruned(t, after);
    var polled, delivered := PollForFold(sub, limit);
    status := polled;
    if !status.Ok? {
      return status, view, polls;
    }
    view' := FoldAll(view, delivered);
    SameDelivery(t, sub.name, filter, |delivered|, after);
    polls' := polls + [Durable.Poll(t, |delivered|)];
    OneMore(polls, Durable.Poll(t, |delivered|), filter, start, first);
  }

  method FoldAll(view: View<Row>, changes: seq<Change<Row>>) returns (view': View<Row>)
    ensures view' == Fold(view, changes)
  {
    view' := view;
    for i := 0 to |changes|
      invariant view' == Fold(view, changes[..i])
    {
      assert changes[..i + 1][..i] == changes[..i];
      view' := Observe(view', changes[i]);
    }
    assert changes[..|changes|] == changes;
  }

  lemma OneMore(polls: seq<Durable.Poll>, p: Durable.Poll, filter: Filter, start: nat, first: View<Row>)
    requires Acknowledged(polls, filter, start) && Consistent(p.t) && start <= |p.t.history|
    requires polls != [] ==> Later(polls[|polls| - 1].t, p.t)
    requires p.t.prunedThrough <= CursorAfter(polls, filter, start)
    ensures var d, polls' := Delivered(p, filter, CursorAfter(polls, filter, start)), polls + [p];
            && Acknowledged(polls', filter, start)
            && CursorAfter(polls', filter, start) == Advance(d, CursorAfter(polls, filter, start))
            && ViewAfter(polls', filter, start, first) == Fold(ViewAfter(polls, filter, start, first), d)
  {
    var polls' := polls + [p];
    assert polls'[..|polls|] == polls && polls'[|polls|] == p;
    assert Delivered(polls'[|polls'| - 1], filter, CursorAfter(polls'[..|polls'| - 1], filter, start))
           == Delivered(p, filter, CursorAfter(polls, filter, start));
  }
}
