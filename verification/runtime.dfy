/**
 One database connection: explicit transactions, the savepoint array and the internal mutation scope of the
 ObjectStore, each as the SQL statements the code issues. Any statement may fail and then changes nothing;
 COMMIT may also fail by rolling the transaction back; ROLLBACK and ROLLBACK TO succeed when there is
 something to roll back. `T` is the content of the database and `inv` what every visible content satisfies.
 */
module Runtime {
  import opened Common
  import opened Sqlite

  const SAVEPOINT_SLOTS: nat := 64

  /**
   A mutation that failed left no trace in any table: everything is as it was, except that a RELEASE which
   failed may have left its internal savepoint, saving that same content, on top of the stack.
   */
  ghost predicate Restored<T(!new)>(before: Machine<T>, after: Machine<T>) {
    after == before || after == before.Savepoint(INTERNAL)
  }

  /** A statement of SQL text: an ordinary one, with the content it leaves, or transaction control. */
  datatype Sql<T> = Statement(after: T) | BeginText | CommitText | RollbackText

  predicate Ends<T>(sql: Sql<T>) { sql.CommitText? || sql.RollbackText? }

  /** SQLite refuses a BEGIN inside a transaction, and a COMMIT or ROLLBACK outside one. */
  predicate Refused<T>(m: Machine<T>, sql: Sql<T>) {
    if m.inTransaction then sql.BeginText? else Ends(sql)
  }

  function AfterStatement<T>(m: Machine<T>, sql: Sql<T>): Machine<T> {
    match sql
    case Statement(after) => m.Write(after)
    case BeginText => m.Begin()
    case CommitText => m.Commit()
    case RollbackText => m.Rollback()
  }

  /** The first n statements of a text, one after the other. */
  function AfterText<T>(m: Machine<T>, text: seq<Sql<T>>, n: nat): Machine<T>
    requires n <= |text|
  {
    if n == 0 then m else AfterStatement(AfterText(m, text, n - 1), text[n - 1])
  }

  ghost predicate Runs<T>(m: Machine<T>, text: seq<Sql<T>>, n: nat)
    requires n <= |text|
  {
    forall i :: 0 <= i < n ==> !Refused(AfterText(m, text, i), text[i])
  }

  ghost predicate EndedWithin<T>(text: seq<Sql<T>>, n: nat)
    requires n <= |text|
  {
    exists k :: 0 <= k < n && Ends(text[k])
  }

  lemma EndedNext<T>(text: seq<Sql<T>>, i: nat)
    requires i < |text|
    ensures EndedWithin(text, i + 1) <==> EndedWithin(text, i) || Ends(text[i])
    ensures !Rebegins(text) && EndedWithin(text, i) ==> !text[i].BeginText?
  {
  }

  /** The text ends a transaction and begins another: the flags only notice what autocommit says afterwards. */
  predicate Rebegins<T>(text: seq<Sql<T>>) {
    exists i, j :: 0 <= i < j < |text| && Ends(text[i]) && text[j].BeginText?
  }

  /** Savepoints come and go, the tables stay. */
  ghost predicate SameContent<T(!new)>(before: Machine<T>, after: Machine<T>) {
    && after.content == before.content && after.committed == before.committed
    && after.inTransaction == before.inTransaction
  }

  /** How a mutation scope opens: a transaction of its own, or an internal savepoint inside the caller's. */
  function Opened<T>(before: Machine<T>): Machine<T> {
    if before.inTransaction then before.Savepoint(INTERNAL) else before.Begin()
  }

  function Names<T>(frames: seq<Frame<T>>): (names: seq<string>)
    ensures |names| == |frames|
    ensures forall i :: 0 <= i < |frames| ==> names[i] == frames[i].name
  {
    seq(|frames|, i requires 0 <= i < |frames| => frames[i].name)
  }

  class Database<T(!new)> {
    var db: Machine<T>
    var transactionActive: bool
    var activeTransaction: nat            // 0, or the transaction object that is active
    var nextTransaction: nat
    const savepoints: array<string>
    var savepointDepth: nat
    const reliable: bool
    ghost const inv: T -> bool

    /** The caller's savepoints on SQLite's own stack. */
    ghost function Users(): seq<Frame<T>>
      reads this
    {
      UserFrames(db.stack)
    }

    /** The savepoint array holds the names of the caller's savepoints on SQLite's stack, in order. */
    ghost predicate Mirrors(m: Machine<T>)
      reads this, savepoints
    {
      && savepoints.Length == SAVEPOINT_SLOTS
      && activeTransaction < nextTransaction
      && (!m.inTransaction ==> m.stack == [] && activeTransaction == 0 && m.content == m.committed)
      && FramesNamed(m.stack)
      && savepointDepth <= SAVEPOINT_SLOTS
      && Names(UserFrames(m.stack)) == savepoints[..savepointDepth]
    }

    /** The content, and whatever SQLite could bring back, satisfies the invariant. */
    ghost predicate Sound(m: Machine<T>)
      reads this
    {
      inv(m.content) && inv(m.committed) && forall i :: 0 <= i < |m.stack| ==> inv(m.stack[i].saved)
    }

    ghost predicate Valid()
      reads this, savepoints
    {
      transactionActive == db.inTransaction && Mirrors(db) && Sound(db)
    }

    /** A mutation scope that opened on `before` is active: its statements have changed the content, nothing else. */
    ghost predicate InMutation(before: Machine<T>)
      reads this, savepoints
    {
      transactionActive && db == Opened(before).(content := db.content) && Mirrors(before) && Sound(before)
    }

    constructor (content: T, reliable: bool, ghost inv: T -> bool)
      requires inv(content)
      ensures Valid() && this.inv == inv && this.reliable == reliable && db == Machine(content, content, false, [])
              && fresh(savepoints)
    {
      db := Machine(content, content, false, []);
      transactionActive, activeTransaction, nextTransaction, savepointDepth := false, 0, 1, 0;
      savepoints := new string[SAVEPOINT_SLOTS](_ => "");
      this.inv, this.reliable := inv, reliable;
    }

    method Exec(after: Machine<T>) returns (ok: bool)
      modifies this`db
      ensures db == if ok then after else old(db)
      ensures reliable ==> ok
    {
      var failed := Fails(reliable);
      if failed {
        return false;
      }
      db := after;
      ok := true;
    }

    /** COMMIT: on failure the transaction may still be open, or SQLite may have rolled it back. */
    method ExecCommit() returns (ok: bool)
      requires db.inTransaction
      modifies this`db
      ensures ok ==> db == old(db).Commit()
      ensures !ok ==> db == old(db) || db == old(db).Rollback()
      ensures reliable ==> ok
    {
      var failed := Fails(reliable);
      if !failed {
        db := db.Commit();
        return true;
      }
      var rolledBack := Fails(reliable);
      if rolledBack {
        db := db.Rollback();
      }
      ok := false;
    }

    // ---- transactions ----

    method Begin() returns (status: Status, transaction: nat)
      requires Valid()
      modifies this`db, this`transactionActive, this`activeTransaction, this`nextTransaction
      ensures Valid()
      ensures status in {Ok, InvalidState, Sqlite, OutOfMemory} && (reliable ==> status.Ok? || status.InvalidState?)
      ensures old(db.inTransaction) <==> status.InvalidState?
      ensures status.Ok? ==> db == old(db).Begin() && transaction == activeTransaction == old(nextTransaction)
      ensures status.Ok? ==> transaction != 0 && nextTransaction == transaction + 1
      ensures status.Ok? ==> db.inTransaction && db.stack == [] && db.content == db.committed == old(db.content)
      ensures !status.Ok? ==>
                && db == old(db)
                && activeTransaction == old(activeTransaction) && nextTransaction == old(nextTransaction)
    {
      if transactionActive {
        return InvalidState, 0;
      }
      var ok := Exec(db.Begin());
      if !ok {
        return Status.Sqlite, 0;
      }
      transactionActive := true;
      var failed := Fails(reliable);
      if failed {
        db := db.Rollback();
        transactionActive := false;
        return OutOfMemory, 0;
      }
      transaction := nextTransaction;
      nextTransaction := transaction + 1;
      activeTransaction := transaction;
      return Ok, transaction;
    }

    /** esdb_commit and esdb_rollback. Afterwards the flags ask SQLite, whatever happened. */
    method FinishTransaction(transaction: nat, commit: bool) returns (status: Status)
      requires Valid()
      modifies this`db, this`transactionActive, this`activeTransaction, this`savepointDepth
      ensures Valid()
      ensures status in {Ok, InvalidState, Sqlite} && (reliable ==> !status.Sqlite?)
      ensures status.InvalidState? <==> transaction == 0 || transaction != old(activeTransaction)
      ensures status.Ok? ==> db == if commit then old(db).Commit() else old(db).Rollback()
      ensures status.Ok? ==> db.content == db.committed == if commit then old(db.content) else old(db.committed)
      ensures status.Ok? ==> !db.inTransaction && db.stack == []
      ensures status.Sqlite? ==> db.content == old(db.content) || db.content == db.committed == old(db.committed)
      ensures !status.Ok? ==> db == old(db) || (commit && db == old(db).Rollback())
      ensures !commit ==> !status.Sqlite?
      ensures activeTransaction == if db.inTransaction then old(activeTransaction) else 0
    {
      if transaction == 0 || transaction != activeTransaction {
        return InvalidState;
      }
      var ok := true;
      if commit {
        ok := ExecCommit();
      } else {
        db := db.Rollback();
      }
      if ok {
        transactionActive, savepointDepth, activeTransaction := false, 0, 0;
        return Ok;
      }
      transactionActive := db.inTransaction;
      if !transactionActive {
        savepointDepth, activeTransaction := 0, 0;
      }
      return Status.Sqlite;
    }

    /** One statement; a COMMIT that fails may have rolled the transaction back. */
    method ExecStatement(sql: Sql<T>) returns (ok: bool)
      modifies this`db
      ensures ok ==> !Refused(old(db), sql) && db == AfterStatement(old(db), sql)
      ensures !ok ==> db == old(db) || (sql.CommitText? && old(db.inTransaction) && db == old(db).Rollback())
      ensures reliable && !ok ==> Refused(old(db), sql)
    {
      match sql
      case Statement(after) =>
        ok := Exec(db.Write(after));
      case BeginText =>
        ok := false;
        if !db.inTransaction {
          ok := Exec(db.Begin());
        }
      case CommitText =>
        ok := false;
        if db.inTransaction {
          ok := ExecCommit();
        }
      case RollbackText =>
        ok := db.inTransaction;
        if ok {
          db := db.Rollback();
        }
    }

    /** What a text may leave of a transaction and its stack, having begun on `before`. */
    ghost predicate Midway(before: Machine<T>, m: Machine<T>, ended: bool)
      reads this
    {
      && Sound(m)
      && (!m.inTransaction ==> m.stack == [] && m.content == m.committed)
      && (m.inTransaction ==> m.stack == before.stack)
      && (before.inTransaction ==> (m.inTransaction <==> !ended))
    }

    lemma MidwayStep(before: Machine<T>, m: Machine<T>, ended: bool, sql: Sql<T>)
      requires Midway(before, m, ended) && !Refused(m, sql) && (sql.Statement? ==> inv(sql.after))
      requires before.inTransaction && ended ==> !sql.BeginText?
      requires before.inTransaction || before.stack == []
      ensures Midway(before, AfterStatement(m, sql), ended || Ends(sql))
    {
    }

    lemma MidwayRolledBack(before: Machine<T>, m: Machine<T>, ended: bool)
      requires Midway(before, m, ended)
      ensures Midway(before, m.Rollback(), true)
    {
    }

    lemma {:induction false} TextKeeps(before: Machine<T>, text: seq<Sql<T>>, n: nat)
      requires n <= |text| && Runs(before, text, n)
      requires Midway(before, before, false) && (before.inTransaction ==> !Rebegins(text))
      requires !before.inTransaction ==> before.stack == []
      requires forall i :: 0 <= i < |text| && text[i].Statement? ==> inv(text[i].after)
      ensures Midway(before, AfterText(before, text, n), EndedWithin(text, n))
    {
      if n > 0 {
        TextKeeps(before, text, n - 1);
        EndedNext(text, n - 1);
        MidwayStep(before, AfterText(before, text, n - 1), EndedWithin(text, n - 1), text[n - 1]);
      }
    }

    /** sqlite3_exec: the statements in order, up to the first that fails; what the others did stays done. */
    method RunText(text: seq<Sql<T>>) returns (ok: bool, ghost done: nat)
      modifies this`db
      ensures done <= |text| && Runs(old(db), text, done) && (ok <==> done == |text|)
      ensures ok ==> db == AfterText(old(db), text, done)
      ensures !ok ==>
                || db == AfterText(old(db), text, done)
                || (text[done].CommitText? && db == AfterText(old(db), text, done).Rollback())
      ensures reliable && !ok ==> Refused(AfterText(old(db), text, done), text[done])
    {
      done := 0;
      var i := 0;
      while i < |text|
        invariant done == i <= |text| && Runs(old(db), text, i) && db == AfterText(old(db), text, i)
      {
        ok := ExecStatement(text[i]);
        if !ok {
          return;
        }
        i, done := i + 1, i + 1;
      }
      ok := true;
    }

    /**
     esdb_exec: the flags ask SQLite afterwards, so transaction control in the text cannot make them lie, as long as
     the text does not end the caller's transaction and begin another.
     */
    method Execute(text: seq<Sql<T>>) returns (ok: bool, ghost done: nat)
      requires Valid() && forall i :: 0 <= i < |text| && text[i].Statement? ==> inv(text[i].after)
      requires db.inTransaction ==> !Rebegins(text)
      modifies this`db, this`transactionActive, this`activeTransaction, this`savepointDepth
      ensures Valid()
      ensures done <= |text| && Runs(old(db), text, done) && (ok <==> done == |text|)
      ensures ok ==> db == AfterText(old(db), text, done)
      ensures !ok ==>
                || db == AfterText(old(db), text, done)
                || (text[done].CommitText? && db == AfterText(old(db), text, done).Rollback())
      ensures reliable && !ok ==> Refused(AfterText(old(db), text, done), text[done])
      ensures activeTransaction == if db.inTransaction then old(activeTransaction) else 0
    {
      ghost var before := db;
      ok, done := RunText(text);
      TextKeeps(before, text, done);
      MidwayRolledBack(before, AfterText(before, text, done), EndedWithin(text, done));
      transactionActive := db.inTransaction;
      if !transactionActive {
        savepointDepth, activeTransaction := 0, 0;
      }
    }

    // ---- the internal mutation scope of the ObjectStore ----

    /** sync_internal_transaction_state */
    method SyncTransactionState()
      modifies this`transactionActive, this`savepointDepth
      ensures transactionActive == db.inTransaction
      ensures savepointDepth == if db.inTransaction then old(savepointDepth) else 0
    {
      transactionActive := db.inTransaction;
      if !transactionActive {
        savepointDepth := 0;
      }
    }

    method BeginStoreMutation() returns (status: Status, ownsTransaction: bool)
      requires Valid()
      modifies this`db, this`transactionActive, this`savepointDepth
      ensures status in {Ok, Sqlite} && (reliable ==> status.Ok?)
      ensures savepointDepth == old(savepointDepth)
      ensures status.Ok? ==> InMutation(old(db)) && db == Opened(old(db)) && ownsTransaction == !old(db.inTransaction)
      ensures !status.Ok? ==> Valid() && db == old(db)
    {
      ownsTransaction := !db.inTransaction;
      var ok := Exec(if ownsTransaction then db.Begin() else db.Savepoint(INTERNAL));
      if !ok {
        return Status.Sqlite, ownsTransaction;
      }
      if ownsTransaction {
        SyncTransactionState();
      }
      return Ok, ownsTransaction;
    }

    /**
     Whatever the scope's statements did is undone, and the caller's transaction and savepoints are as before.
     `before` is where the scope opened; a failed COMMIT may already have brought SQLite back there.
     */
    method RollbackStoreMutation(ownsTransaction: bool, ghost before: Machine<T>) returns (ghost released: bool)
      requires ownsTransaction == !before.inTransaction
      requires InMutation(before) || (ownsTransaction && transactionActive && db == before && Mirrors(before)
               && Sound(before))
      modifies this`db, this`transactionActive, this`savepointDepth
      ensures Valid() && Restored(before, db) && (reliable ==> released)
      ensures db == before <==> ownsTransaction || released
      ensures savepointDepth == old(savepointDepth)
    {
      if ownsTransaction {
        if db.inTransaction {
          db := db.Rollback();
        }
        SyncTransactionState();
        released := true;
      } else {
        InternalOnTop(before.stack, before.content);
        db := db.RollbackTo(INTERNAL);
        released := Exec(db.Release(INTERNAL));
      }
      RestoredShowsNothing(before, db);
    }

    /** Either everything the scope's statements wrote becomes part of the caller's content, or nothing does. */
    method CommitStoreMutation(ownsTransaction: bool, ghost before: Machine<T>)
        returns (status: Status, ghost released: bool)
      requires ownsTransaction == !before.inTransaction && InMutation(before) && inv(db.content)
      modifies this`db, this`transactionActive, this`savepointDepth
      ensures status in {Ok, Sqlite} && (reliable ==> status.Ok?)
      ensures Valid()
      ensures status.Ok? ==> db == before.Write(old(db.content))
      ensures !status.Ok? ==> Restored(before, db) && (db == before <==> ownsTransaction || released)
      ensures savepointDepth == old(savepointDepth)
    {
      InternalOnTop(before.stack, before.content);
      var ok;
      if ownsTransaction {
        ok := ExecCommit();
      } else {
        ok := Exec(db.Release(INTERNAL));
      }
      if !ok {
        released := RollbackStoreMutation(ownsTransaction, before);
        return Status.Sqlite, released;
      }
      if ownsTransaction {
        SyncTransactionState();
      }
      return Ok, true;
    }

    // ---- savepoints ----

    ghost predicate IsTop(name: string)
      reads this
    {
      Users() != [] && Users()[|Users()| - 1].name == name
    }

    method SavepointBegin(name: string) returns (status: Status)
      requires Valid()
      modifies this`db, this`savepointDepth, savepoints
      ensures Valid()
      ensures status in {Ok, InvalidArgument, InvalidState, Sqlite} && (reliable ==> !status.Sqlite?)
      ensures status.InvalidArgument? <==> !ValidName(name)
      ensures status.InvalidState? <==>
                && ValidName(name)
                && (!old(db.inTransaction) || old(savepointDepth) == SAVEPOINT_SLOTS)
      ensures status.Ok? ==> db == old(db).Savepoint(name) && Users() == old(Users()) + [Frame(name, old(db.content))]
      ensures SameContent(old(db), db)
      ensures !status.Ok? ==> db == old(db)
    {
      var valid := ValidSavepointName(name);
      if !valid {
        return InvalidArgument;
      }
      if !transactionActive {
        return InvalidState;
      }
      if savepointDepth >= savepoints.Length {
        return InvalidState;
      }
      var ok := PushSavepoint(name);
      return if ok then Ok else Status.Sqlite;
    }

    /** SAVEPOINT, and the array entry with it. */
    method PushSavepoint(name: string) returns (ok: bool)
      requires Valid() && ValidName(name) && db.inTransaction && savepointDepth < SAVEPOINT_SLOTS
      modifies this`db, this`savepointDepth, savepoints
      ensures reliable ==> ok
      ensures Valid()
      ensures ok ==> db == old(db).Savepoint(name) && Users() == old(Users()) + [Frame(name, old(db.content))]
      ensures !ok ==> db == old(db)
    {
      ok := Exec(db.Savepoint(name));
      if ok {
        UserPushed(old(db.stack), name, old(db.content));
        savepoints[savepointDepth] := name;
        savepointDepth := savepointDepth + 1;
        assert savepoints[..savepointDepth] == old(savepoints[..savepointDepth]) + [name];
      }
    }

    /** RELEASE of the caller's top savepoint, and the array entry with it. */
    method ReleaseTop(name: string) returns (ok: bool)
      requires Valid() && ValidName(name) && IsTop(name)
      modifies this`db, this`savepointDepth
      ensures reliable ==> ok
      ensures Valid()
      ensures ok ==> Find(old(db.stack), name) >= 0 && db == old(db).Release(name)
      ensures ok ==> Users() == old(Users())[..|old(Users())| - 1]
      ensures !ok ==> db == old(db)
    {
      TopIsReleased(db, name);
      assert |Names(Users())| == |savepoints[..savepointDepth]| == savepointDepth;
      SoundBelow(db, db.Release(name));
      ok := Exec(db.Release(name));
      if ok && savepointDepth > 0 {
        savepointDepth := savepointDepth - 1;
        assert savepoints[..savepointDepth] == old(savepoints[..savepointDepth])[..savepointDepth];
      }
    }

    lemma SoundBelow(m: Machine<T>, m': Machine<T>)
      requires Sound(m) && m'.stack <= m.stack && m' == m.(stack := m'.stack)
      ensures Sound(m')
    {
    }

    /** ROLLBACK TO the caller's top savepoint, which stays. */
    method RollbackToTop(name: string) returns (ok: bool)
      requires Valid() && ValidName(name) && IsTop(name)
      modifies this`db
      ensures reliable ==> ok
      ensures Valid() && Users() == old(Users())
      ensures ok ==> Find(old(db.stack), name) >= 0 && db == old(db).RollbackTo(name)
      ensures ok ==> db.content == old(Users())[|old(Users())| - 1].saved
      ensures !ok ==> db == old(db)
    {
      TopIsFound(db, name);
      ok := Exec(db.RollbackTo(name));
    }

    /** Release acts on the caller's true top savepoint: the content stays and SQLite forgets exactly that one. */
    method SavepointRelease(name: string) returns (status: Status)
      requires Valid()
      modifies this`db, this`savepointDepth
      ensures Valid()
      ensures status in {Ok, InvalidArgument, InvalidState, Sqlite} && (reliable ==> !status.Sqlite?)
      ensures status.InvalidArgument? <==> !ValidName(name)
      ensures status.InvalidState? <==> ValidName(name) && !old(IsTop(name))
      ensures status.Ok? ==> old(Users()) != [] && Users() == old(Users())[..|old(Users())| - 1]
      ensures status.Ok? ==> Find(old(db.stack), name) >= 0 && db == old(db).Release(name)
      ensures SameContent(old(db), db)
      ensures !status.Ok? ==> db == old(db)
    {
      var valid := ValidSavepointName(name);
      if !valid {
        return InvalidArgument;
      }
      if savepointDepth == 0 || savepoints[savepointDepth - 1] != name {
        return InvalidState;
      }
      var ok := ReleaseTop(name);
      return if ok then Ok else Status.Sqlite;
    }

    /**
     Rollback to the caller's top savepoint restores the content at the matching begin. It is two statements, either
     of which may fail.
     */
    method SavepointRollback(name: string) returns (status: Status)
      requires Valid()
      modifies this`db, this`savepointDepth
      ensures Valid()
      ensures status in {Ok, InvalidArgument, InvalidState, Sqlite} && (reliable ==> !status.Sqlite?)
      ensures status.InvalidArgument? <==> !ValidName(name)
      ensures status.InvalidState? <==> ValidName(name) && !old(IsTop(name))
      ensures status.InvalidArgument? || status.InvalidState? ==> db == old(db)
      ensures status.Ok? || status.Sqlite? ==> old(Users()) != []
      ensures status.Ok? ==>
                && Users() == old(Users())[..|old(Users())| - 1]
                && db.content == old(Users())[|old(Users())| - 1].saved
      ensures status.Ok? ==>
                && Find(old(db.stack), name) >= 0 && Find(old(db).RollbackTo(name).stack, name) >= 0
                && db == old(db).RollbackTo(name).Release(name)
      ensures !status.Ok? ==> Users() == old(Users())
      ensures db.committed == old(db.committed) && db.inTransaction == old(db.inTransaction)
      ensures status.Sqlite? ==> db.content in {old(db.content), old(Users())[|old(Users())| - 1].saved}
      ensures status.Sqlite? ==> db == old(db) || (Find(old(db.stack), name) >= 0 && db == old(db).RollbackTo(name))
    {
      var valid := ValidSavepointName(name);
      if !valid {
        return InvalidArgument;
      }
      if savepointDepth == 0 || savepoints[savepointDepth - 1] != name {
        return InvalidState;
      }
      var ok := RollbackToTop(name);
      if !ok {
        return Status.Sqlite;
      }
      ok := ReleaseTop(name);
      return if ok then Ok else Status.Sqlite;
    }
  }

  /** ROLLBACK TO and RELEASE find the caller's top savepoint; only internal frames above it are gone as well. */
  lemma TopIsFound<T>(m: Machine<T>, name: string)
    requires FramesNamed(m.stack) && ValidName(name)
    requires var users := UserFrames(m.stack); users != [] && users[|users| - 1].name == name
    ensures Find(m.stack, name) >= 0
    ensures var m', users := m.RollbackTo(name), UserFrames(m.stack);
            && m'.stack <= m.stack && UserFrames(m'.stack) == users && FramesNamed(m'.stack)
            && m'.content == users[|users| - 1].saved
  {
    TopUserFrame(m.stack, name);
  }

  lemma TopIsReleased<T>(m: Machine<T>, name: string)
    requires FramesNamed(m.stack) && ValidName(name)
    requires var users := UserFrames(m.stack); users != [] && users[|users| - 1].name == name
    ensures Find(m.stack, name) >= 0
    ensures var m', users := m.Release(name), UserFrames(m.stack);
            && m'.stack <= m.stack && UserFrames(m'.stack) == users[..|users| - 1] && FramesNamed(m'.stack)
            && Names(UserFrames(m'.stack)) == Names(users)[..|users| - 1]
  {
    TopUserFrame(m.stack, name);
  }

  /** The scope's own savepoint is the one SQLite finds, even over one that an earlier failed RELEASE left behind. */
  lemma InternalOnTop<T>(stack: seq<Frame<T>>, content: T)
    ensures var stack' := stack + [Frame(INTERNAL, content)];
            && Find(stack', INTERNAL) == |stack|
            && stack'[..|stack|] == stack
            && stack'[..|stack| + 1] == stack'
  {
    SameNameReflexive(INTERNAL);
  }

  /**
   The statements of a nested rollback whose RELEASE fails leave the machine with one frame more than before: the
   scope's own savepoint, on top.
   */
  lemma LeftoverOccurs<T>(before: Machine<T>, content: T)
    requires before.inTransaction
    ensures var m := Opened(before).(content := content);
            && Find(m.stack, INTERNAL) >= 0
            && m.RollbackTo(INTERNAL) == before.Savepoint(INTERNAL) != before
  {
    InternalOnTop(before.stack, before.content);
    assert |before.Savepoint(INTERNAL).stack| == |before.stack| + 1;
  }

  /** A leftover internal savepoint does not show: the caller's savepoints are the same, and it saves nothing new. */
  lemma RestoredShowsNothing<T(!new)>(before: Machine<T>, after: Machine<T>)
    requires Restored(before, after) && FramesNamed(before.stack)
    ensures after.content == before.content && after.committed == before.committed
    ensures after.inTransaction == before.inTransaction
    ensures UserFrames(after.stack) == UserFrames(before.stack) && FramesNamed(after.stack)
    ensures forall i :: 0 <= i < |after.stack| ==>
              (i < |before.stack| && after.stack[i] == before.stack[i]) || after.stack[i].saved == before.content
  {
    UserFramesPush(before.stack, Frame(INTERNAL, before.content));
  }

  lemma UserPushed<T>(stack: seq<Frame<T>>, name: string, content: T)
    requires FramesNamed(stack) && ValidName(name)
    ensures var stack' := stack + [Frame(name, content)];
            && FramesNamed(stack')
            && UserFrames(stack') == UserFrames(stack) + [Frame(name, content)]
            && Names(UserFrames(stack')) == Names(UserFrames(stack)) + [name]
  {
    InternalIsNotValid();
    UserFramesPush(stack, Frame(name, content));
  }

  lemma InternalIsNotValid()
    ensures !ValidName(INTERNAL)
  {
    assert INTERNAL[..|RESERVED|] == RESERVED;
    SameNameReflexive(RESERVED);
  }
}
