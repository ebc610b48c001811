/**
 Delivery of the durable journal. Revisions handed out inside a transaction are provisional, so delivery is stated about
 committed contents: their history only ever grows, and a consumer that folds what it is sent follows the records,
 provided it is never behind the pruning mark (there is no gap event).
 */
module Durable {
  import opened Common
  import opened Journal
  import opened Sqlite
  import opened Runtime
  import opened ObjectTables
  import opened ObjectStore

  /** Which rows a query asks for: those of one store id, or all. */
  type Filter = Option<nat>

  function FilterOf(t: Tables, name: Option<Name>): Filter {
    match name
    case None => None
    case Some(n) => Some(if n in t.stores then t.stores[n] else 0)
  }

  predicate Matches(filter: Filter, row: Row) {
    filter.None? || row.store == filter.value
  }

  /** SELECT ... WHERE revision > after ORDER BY revision, as far as revision `through`. */
  function Wanted(changes: map<nat, Change<Row>>, filter: Filter, after: nat, through: nat): seq<Change<Row>> {
    if through <= after then []
    else
      var c := if through in changes then Some(changes[through]) else None;
      Wanted(changes, filter, after, through - 1)
      + if c.Some? && !c.value.Clear? && Matches(filter, c.value.key) then [c.value] else []
  }

  /** A change that a query by that name, or of every store, asks for. */
  ghost predicate Asked(t: Tables, name: Option<Name>, c: Change<Row>)
    requires !c.Clear?
  {
    name.None? || (name.value in t.stores && c.key.store == t.stores[name.value])
  }

  /** The changes are rows that were asked for, in ascending order, and none up to revision `reached` is left out. */
  ghost predicate Answers(t: Tables, name: Option<Name>, after: nat, reached: nat, changes: seq<Change<Row>>)
    requires RowsNumbered(t)
  {
    && (forall i :: 0 <= i < |changes| ==>
          && after < changes[i].revision <= reached
          && changes[i].revision in t.changes && changes[i] == t.changes[changes[i].revision]
          && Asked(t, name, changes[i]))
    && (forall i, j :: 0 <= i < j < |changes| ==> changes[i].revision < changes[j].revision)
    && (forall r :: after < r <= reached && r in t.changes && Asked(t, name, t.changes[r]) ==> t.changes[r] in changes)
  }

  lemma {:induction false} WantedAnswers(t: Tables, name: Option<Name>, after: nat, through: nat)
    requires RowsNumbered(t) && IdsOk(t.stores)
    ensures Answers(t, name, after, through, Wanted(t.changes, FilterOf(t, name), after, through))
  {
    if after < through {
      WantedAnswers(t, name, after, through - 1);
      if through in t.changes {
        assert Matches(FilterOf(t, name), t.changes[through].key) <==> Asked(t, name, t.changes[through]);
      }
    }
  }

  /** A delivery cut short is the whole answer up to its last change. */
  lemma PrefixAnswers(t: Tables, name: Option<Name>, after: nat, through: nat, rows: seq<Change<Row>>,
                      part: seq<Change<Row>>)
    requires RowsNumbered(t) && Answers(t, name, after, through, rows) && part <= rows
    ensures Answers(t, name, after, if part == [] then after else part[|part| - 1].revision, part)
  {
    var reached := if part == [] then after else part[|part| - 1].revision;
    forall r | after < r <= reached && r in t.changes && Asked(t, name, t.changes[r]) ensures t.changes[r] in part {
      var i :| 0 <= i < |rows| && rows[i] == t.changes[r];
      assert i < |part| && part[i] == rows[i];
    }
  }

  function Seen(view: View<Row>, filter: Filter): View<Row> {
    map row | row in view && (filter.None? || row.store == filter.value) :: view[row]
  }

  /** What a consumer at a revision of the history should hold. */
  function ViewAt(history: seq<Mutation<Row>>, filter: Filter, revision: nat): View<Row>
    requires revision <= |history|
  {
    Seen(ViewOf(RecordsOf(history[..revision])), filter)
  }

  lemma ViewStep(history: seq<Mutation<Row>>, filter: Filter, revision: nat)
    requires revision < |history| && !history[revision].ClearAll?
    ensures var m := history[revision];
            ViewAt(history, filter, revision + 1)
            == if Matches(filter, m.key) then Observe(ViewAt(history, filter, revision), ChangeOf(m, revision + 1))
               else ViewAt(history, filter, revision)
  {
    assert history[..revision + 1][..revision] == history[..revision];
  }

  /** The part of consistency that delivery rests on. */
  ghost predicate JournalOf(t: Tables) {
    JournalOk(t.changes, t.history, t.prunedThrough) && forall i :: 0 <= i < |t.history| ==> !t.history[i].ClearAll?
  }

  lemma WantedStep(t: Tables, filter: Filter, after: nat, through: nat)
    requires JournalOf(t) && after < through <= |t.history| && t.prunedThrough < through
    ensures var m := t.history[through - 1];
            && !m.ClearAll?
            && Wanted(t.changes, filter, after, through)
               == Wanted(t.changes, filter, after, through - 1) + if Matches(filter, m.key) then [ChangeOf(m, through)]
                   else []
  {
  }

  lemma BothStep(t: Tables, filter: Filter, after: nat, through: nat) returns (c: Change<Row>, matches: bool)
    requires JournalOf(t) && t.prunedThrough <= after < through <= |t.history|
    ensures Wanted(t.changes, filter, after, through)
            == Wanted(t.changes, filter, after, through - 1) + if matches then [c] else []
    ensures var before := ViewAt(t.history, filter, through - 1);
            ViewAt(t.history, filter, through) == if matches then Observe(before, c) else before
  {
    WantedStep(t, filter, after, through);
    ViewStep(t.history, filter, through - 1);
    c, matches := ChangeOf(t.history[through - 1], through), Matches(filter, t.history[through - 1].key);
  }

  /** One revision further: nothing new, or one more change, folded in. */
  ghost predicate IsFoldStep(view: View<Row>, view': View<Row>, changes: seq<Change<Row>>, changes': seq<Change<Row>>) {
    || (changes' == changes && view' == view)
    || exists c :: changes' == changes + [c] && view' == Observe(view, c)
  }

  lemma {:induction false} FoldAlong(views: seq<View<Row>>, parts: seq<seq<Change<Row>>>, n: nat)
    requires |views| == |parts| > n && parts[0] == []
    requires forall k :: 0 <= k < |parts| - 1 ==> IsFoldStep(views[k], views[k + 1], parts[k], parts[k + 1])
    ensures Fold(views[0], parts[n]) == views[n]
  {
    if n > 0 {
      FoldAlong(views, parts, n - 1);
      assert IsFoldStep(views[n - 1], views[n - 1 + 1], parts[n - 1], parts[n - 1 + 1]);
      if parts[n] != parts[n - 1] {
        var c :| parts[n] == parts[n - 1] + [c] && views[n] == Observe(views[n - 1], c);
        FoldAppend(views[0], parts[n - 1], [c]);
        FoldSingle(views[n - 1], c);
      }
    }
  }

  /**
   Folding what a query delivers brings a consumer that is not behind the pruning mark from its cursor to any later
   revision.
   */
  lemma FoldWanted(t: Tables, filter: Filter, after: nat, through: nat)
    requires JournalOf(t) && t.prunedThrough <= after <= through <= |t.history|
    ensures Fold(ViewAt(t.history, filter, after), Wanted(t.changes, filter, after, through))
            == ViewAt(t.history, filter, through)
  {
    var n := through - after;
    var views, parts := ViewsFrom(t, filter, after, n), PartsFrom(t, filter, after, n);
    assert parts[0] == Wanted(t.changes, filter, after, after + 0) == [];
    forall k | 0 <= k < n ensures IsFoldStep(views[k], views[k + 1], parts[k], parts[k + 1]) {
      StepFrom(t, filter, after, n, k);
    }
    FoldAlong(views, parts, n);
    assert views[0] == ViewAt(t.history, filter, after + 0);
  }

  function ViewsFrom(t: Tables, filter: Filter, after: nat, n: nat): (views: seq<View<Row>>)
    requires after + n <= |t.history|
    ensures |views| == n + 1 && forall k :: 0 <= k <= n ==> views[k] == ViewAt(t.history, filter, after + k)
  {
    seq(n + 1, k requires 0 <= k <= n => ViewAt(t.history, filter, after + k))
  }

  function PartsFrom(t: Tables, filter: Filter, after: nat, n: nat): (parts: seq<seq<Change<Row>>>)
    ensures |parts| == n + 1 && forall k :: 0 <= k <= n ==> parts[k] == Wanted(t.changes, filter, after, after + k)
  {
    seq(n + 1, k requires 0 <= k <= n => Wanted(t.changes, filter, after, after + k))
  }

  lemma StepFrom(t: Tables, filter: Filter, after: nat, n: nat, k: nat)
    requires JournalOf(t) && t.prunedThrough <= after && after + n <= |t.history| && k < n
    ensures var views, parts := ViewsFrom(t, filter, after, n), PartsFrom(t, filter, after, n);
            IsFoldStep(views[k], views[k + 1], parts[k], parts[k + 1])
  {
    var views, parts := ViewsFrom(t, filter, after, n), PartsFrom(t, filter, after, n);
    var c, matches := BothStep(t, filter, after, after + k + 1);
    assert views[k + 1] == ViewAt(t.history, filter, after + k + 1);
    assert parts[k + 1] == Wanted(t.changes, filter, after, after + k + 1);
    OneStep(views[k], views[k + 1], parts[k], parts[k + 1], c, matches);
  }

  lemma OneStep(view: View<Row>, view': View<Row>, changes: seq<Change<Row>>, changes': seq<Change<Row>>,
                c: Change<Row>, matches: bool)
    requires changes' == changes + if matches then [c] else []
    requires view' == if matches then Observe(view, c) else view
    ensures IsFoldStep(view, view', changes, changes')
  {
    if !matches {
      assert changes + [] == changes;
    }
  }

  lemma {:induction false} WantedRevisions(t: Tables, filter: Filter, after: nat, through: nat)
    requires JournalOf(t) && through <= |t.history|
    ensures forall i :: 0 <= i < |Wanted(t.changes, filter, after, through)| ==>
              after < Wanted(t.changes, filter, after, through)[i].revision <= through
  {
    if after < through {
      WantedRevisions(t, filter, after, through - 1);
    }
  }

  /** A delivery cut short is the whole delivery up to the revision of its last change. */
  lemma {:induction false} WantedPrefix(t: Tables, filter: Filter, after: nat, through: nat, n: nat)
    requires JournalOf(t) && through <= |t.history|
    requires 0 < n <= |Wanted(t.changes, filter, after, through)|
    ensures var w := Wanted(t.changes, filter, after, through);
            after < w[n - 1].revision <= through && w[..n] == Wanted(t.changes, filter, after, w[n - 1].revision)
  {
    var w, front := Wanted(t.changes, filter, after, through), Wanted(t.changes, filter, after, through - 1);
    WantedRevisions(t, filter, after, through);
    if n <= |front| {
      WantedPrefix(t, filter, after, through - 1, n);
      assert w[..n] == front[..n];
    } else {
      assert w[..n] == w;
    }
  }

  /**
   A query of everything is complete, giving exactly the changes after the cursor, if and only if the cursor is at the
   durable revision or the change right after it is still a row of the journal. Otherwise changes are silently missing.
   */
  lemma QueryIsCompleteIff(t: Tables, after: nat)
    requires Consistent(t) && after <= t.metaRevision
    ensures Wanted(t.changes, None, after, t.sequence) == ChangesOf(t.history)[after..]
            <==> NothingMissed(t, after)
  {
    WantedIsRetained(t, after, t.sequence);
    assert |ChangesOf(t.history)[after..]| == t.sequence - after;
  }

  /** The cursor is at the durable revision, or the change right after it is still a row. */
  predicate NothingMissed(t: Tables, after: nat) {
    after == t.metaRevision || after + 1 in t.changes
  }

  lemma MissedIsPruned(t: Tables, after: nat)
    requires Consistent(t) && after <= t.metaRevision
    ensures NothingMissed(t, after) <==> t.prunedThrough <= after
  {
  }

  /** The changes of one store, or of all. */
  function Passing(changes: seq<Change<Row>>, filter: Filter): seq<Change<Row>> {
    if changes == [] then []
    else
      var last := changes[|changes| - 1];
      Passing(changes[..|changes| - 1], filter)
      + if !last.Clear? && (filter.None? || last.key.store == filter.value) then [last] else []
  }

  /** A query of one store is complete if and only if every change of that store after the cursor is still a row. */
  lemma FilteredQueryIsCompleteIff(t: Tables, filter: Filter, after: nat)
    requires Consistent(t) && after <= t.metaRevision
    ensures Wanted(t.changes, filter, after, t.sequence) == Passing(ChangesOf(t.history)[after..], filter)
            <==> forall r ::
                   after < r <= t.metaRevision && (filter.None? || t.history[r - 1].key.store == filter.value)
                   ==> r in t.changes
  {
    assert ChangesOf(t.history)[after..] == ChangesOf(t.history)[after..t.sequence];
    WantedAgainstOwed(t, filter, after, t.sequence);
  }

  /** No row that matches is missing up to a revision. */
  ghost predicate NoneMissing(t: Tables, filter: Filter, after: nat, through: nat)
    requires JournalOf(t) && through <= |t.history|
  {
    forall r :: after < r <= through && Matches(filter, t.history[r - 1].key) ==> r in t.changes
  }

  lemma {:induction false} WantedAgainstOwed(t: Tables, filter: Filter, after: nat, through: nat)
    requires JournalOf(t) && after <= through <= |t.history|
    ensures var wanted, owed := Wanted(t.changes, filter, after, through),
            Passing(ChangesOf(t.history)[after..through], filter);
            if NoneMissing(t, filter, after, through) then wanted == owed else |wanted| < |owed|
  {
    if after < through {
      WantedAgainstOwed(t, filter, after, through - 1);
      PassingStep(t, filter, after, through);
      RowStep(t, filter, after, through);
    }
  }

  lemma PassingStep(t: Tables, filter: Filter, after: nat, through: nat)
    requires JournalOf(t) && after < through <= |t.history|
    ensures var m := t.history[through - 1];
            Passing(ChangesOf(t.history)[after..through], filter)
            == Passing(ChangesOf(t.history)[after..through - 1], filter)
               + if Matches(filter, m.key) then [ChangeOf(m, through)] else []
  {
    SliceStep(ChangesOf(t.history), after, through);
    var slice := ChangesOf(t.history)[after..through];
    assert slice[..|slice| - 1] == ChangesOf(t.history)[after..through - 1];
  }

  lemma RowStep(t: Tables, filter: Filter, after: nat, through: nat)
    requires JournalOf(t) && after < through <= |t.history|
    ensures var m := t.history[through - 1];
            Wanted(t.changes, filter, after, through)
            == Wanted(t.changes, filter, after, through - 1)
               + if through in t.changes && Matches(filter, m.key) then [ChangeOf(m, through)] else []
    ensures NoneMissing(t, filter, after, through)
            <==>
            && NoneMissing(t, filter, after, through - 1)
            && (Matches(filter, t.history[through - 1].key) ==> through in t.changes)
  {
  }

  /** One put, pruned: a consumer at the beginning is told nothing, and nothing tells it that there was anything. */
  lemma PrunedChangeIsMissed(name: Name, key: Key, value: Value)
    ensures var t := PruneChanges(PutTables(Empty, name, key, value), 1);
            && Consistent(t) && t.metaRevision == 1 && 1 !in t.changes
            && Wanted(t.changes, None, 0, t.sequence) == [] && |ChangesOf(t.history)[0..]| == 1
  {
    assert Consistent(Empty);
    PutMeans(Empty, name, key, value);
    PruneMeans(PutTables(Empty, name, key, value), 1);
  }

  lemma RetainedStep(t: Tables, after: nat, through: nat)
    requires JournalOf(t) && after < through <= |t.history|
    ensures Wanted(t.changes, None, after, through)
            == Wanted(t.changes, None, after, through - 1)
               + if t.prunedThrough < through then [ChangesOf(t.history)[through - 1]] else []
  {
    if t.prunedThrough < through {
      WantedStep(t, None, after, through);
    }
  }

  function Start(t: Tables, after: nat): nat {
    if after < t.prunedThrough then t.prunedThrough else after
  }

  lemma {:induction false} WantedIsRetained(t: Tables, after: nat, through: nat)
    requires JournalOf(t) && t.prunedThrough <= |t.history| && after <= |t.history| && through <= |t.history|
    ensures var from := Start(t, after);
            Wanted(t.changes, None, after, through) == if from <= through then ChangesOf(t.history)[from..through]
                else []
  {
    if after < through {
      WantedIsRetained(t, after, through - 1);
      RetainedStep(t, after, through);
      if t.prunedThrough < through {
        SliceStep(ChangesOf(t.history), Start(t, after), through);
      }
    }
  }

  lemma SliceStep(changes: seq<Change<Row>>, from: nat, through: nat)
    requires from < through <= |changes|
    ensures changes[from..through] == changes[from..through - 1] + [changes[through - 1]]
  {
  }

  lemma {:induction false} WantedGrows(changes: map<nat, Change<Row>>, filter: Filter, after: nat, through: nat,
                                       later: nat)
    requires through <= later
    ensures Wanted(changes, filter, after, through) <= Wanted(changes, filter, after, later)
  {
    if through < later {
      WantedGrows(changes, filter, after, through, later - 1);
    }
  }

  // ---- committed contents over a run ----

  /** Later contents extend the history, never un-prune, and keep store ids. */
  ghost predicate Later(t: Tables, t': Tables) {
    && t.history <= t'.history
    && t.prunedThrough <= t'.prunedThrough
    && forall n :: n in t.stores ==> n in t'.stores && t'.stores[n] == t.stores[n]
  }

  lemma OperationsAreLater(t: Tables, name: Name, key: Key, value: Value, through: nat)
    requires t.prunedThrough <= t.sequence
    ensures Later(t, InsertStore(t, name))
    ensures Later(t, PutTables(t, name, key, value))
    ensures name in t.stores ==> Later(t, DeleteTables(t, name, key))
    ensures Later(t, PruneChanges(t, through))
  {
  }

  /** What SQLite executes on the connection. */
  datatype Step =
    | Begin
    | Commit
    | Rollback
    | Write(after: Tables)
    | Savepoint(name: string)
    | Release(name: string)
    | RollbackTo(name: string)

  ghost predicate Possible(m: Machine<Tables>, step: Step) {
    match step
    case Begin => !m.inTransaction
    case Commit => m.inTransaction
    case Rollback => m.inTransaction
    case Write(after) => Later(m.content, after)
    case Savepoint(_) => m.inTransaction
    case Release(name) => Find(m.stack, name) >= 0
    case RollbackTo(name) => Find(m.stack, name) >= 0
  }

  function Do(m: Machine<Tables>, step: Step): Machine<Tables>
    requires Possible(m, step)
  {
    match step
    case Begin => m.Begin()
    case Commit => m.Commit()
    case Rollback => m.Rollback()
    case Write(after) => m.Write(after)
    case Savepoint(name) => m.Savepoint(name)
    case Release(name) => m.Release(name)
    case RollbackTo(name) => m.RollbackTo(name)
  }

  /** Committed content, savepoints from the bottom up, and the current content: each is later than the one before. */
  ghost predicate Chained(m: Machine<Tables>) {
    && Later(m.committed, m.content)
    && (!m.inTransaction ==> m.content == m.committed && m.stack == [])
    && (forall i :: 0 <= i < |m.stack| ==> Later(m.committed, m.stack[i].saved) && Later(m.stack[i].saved, m.content))
    && (forall i, j :: 0 <= i < j < |m.stack| ==> Later(m.stack[i].saved, m.stack[j].saved))
  }

  lemma LaterTransitive(a: Tables, b: Tables, c: Tables)
    requires Later(a, b) && Later(b, c)
    ensures Later(a, c)
  {
  }

  lemma StepKeepsChained(m: Machine<Tables>, step: Step)
    requires Chained(m) && Possible(m, step)
    ensures Chained(Do(m, step)) && Later(m.committed, Do(m, step).committed)
  {
    if step.Write? {
      LaterTransitive(m.committed, m.content, step.after);
      forall i | 0 <= i < |m.stack| ensures Later(m.stack[i].saved, step.after) {
        LaterTransitive(m.stack[i].saved, m.content, step.after);
      }
    }
  }

  ghost predicate IsRun(run: seq<Machine<Tables>>, steps: seq<Step>) {
    && |run| == |steps| + 1
    && forall i :: 0 <= i < |steps| ==> Possible(run[i], steps[i]) && run[i + 1] == Do(run[i], steps[i])
  }

  /** What any call on a connection does to what is committed, if the chain holds before it. */
  ghost predicate Follows(m: Machine<Tables>, m': Machine<Tables>) {
    Chained(m) ==> Chained(m') && Later(m.committed, m'.committed)
  }

  lemma FollowsTransitive(a: Machine<Tables>, b: Machine<Tables>, c: Machine<Tables>)
    requires Follows(a, b) && Follows(b, c)
    ensures Follows(a, c)
  {
    if Chained(a) {
      LaterTransitive(a.committed, b.committed, c.committed);
    }
  }

  lemma StepFollows(m: Machine<Tables>, step: Step)
    requires Possible(m, step)
    ensures Follows(m, Do(m, step))
  {
    if Chained(m) {
      StepKeepsChained(m, step);
    }
  }

  lemma WriteFollows(m: Machine<Tables>, t: Tables)
    requires Later(m.content, t)
    ensures Follows(m, m.Write(t))
  {
    StepFollows(m, Write(t));
  }

  /** Rolling back is harmless even where there is nothing to roll back. */
  lemma RollbackFollows(m: Machine<Tables>)
    ensures Follows(m, m.Rollback())
  {
  }

  /** A mutation that failed, whether or not it left its savepoint. */
  lemma RestoredFollows(m: Machine<Tables>, m': Machine<Tables>)
    requires Restored(m, m') && (!m'.inTransaction ==> m'.stack == [])
    ensures Follows(m, m')
  {
    if m' != m {
      assert |m'.stack| == |m.stack| + 1;
      StepFollows(m, Savepoint(INTERNAL));
    }
  }

  /** Over any calls, each of which follows the one before, the committed history is append-only. */
  lemma {:induction false} CallsOnlyGrow(machines: seq<Machine<Tables>>)
    requires machines != [] && Chained(machines[0])
    requires forall i :: 0 <= i < |machines| - 1 ==> Follows(machines[i], machines[i + 1])
    ensures Chained(machines[|machines| - 1]) && Later(machines[0].committed, machines[|machines| - 1].committed)
  {
    var last := |machines| - 1;
    if last > 0 {
      CallsOnlyGrow(machines[..last]);
      assert Follows(machines[last - 1], machines[last - 1 + 1]);
      LaterTransitive(machines[0].committed, machines[last - 1].committed, machines[last].committed);
    }
  }

  /**
   Over every run, with rollbacks at any depth, the committed history is append-only: the durable revision never goes
   back.
   */
  lemma {:induction false} CommittedHistoryGrows(run: seq<Machine<Tables>>, steps: seq<Step>)
    requires IsRun(run, steps) && Chained(run[0])
    ensures Chained(run[|steps|]) && Later(run[0].committed, run[|steps|].committed)
  {
    if steps != [] {
      var last := |steps| - 1;
      CommittedHistoryGrows(run[..|steps|], steps[..last]);
      StepKeepsChained(run[last], steps[last]);
      LaterTransitive(run[0].committed, run[last].committed, run[last + 1].committed);
    }
  }

  /**
   A savepoint remembers the content at its begin for as long as it is on the stack, whatever happens above it:
   rolling back to it restores exactly that content.
   */
  lemma {:induction false} SavepointRemembers(run: seq<Machine<Tables>>, steps: seq<Step>, depth: nat)
    requires IsRun(run, steps) && forall i :: 0 <= i < |run| ==> depth < |run[i].stack|
    ensures run[|steps|].stack[depth] == run[0].stack[depth]
    ensures var m, name := run[|steps|], run[0].stack[depth].name;
            Find(m.stack, name) == depth ==> m.RollbackTo(name).content == run[0].stack[depth].saved
  {
    if steps != [] {
      var last := |steps| - 1;
      SavepointRemembers(run[..|steps|], steps[..last], depth);
      assert run[last + 1] == Do(run[last], steps[last]);
    }
  }

  // ---- a durable consumer ----

  /** One OK poll of committed content: the first n of the wanted rows were delivered. */
  datatype Poll = Poll(t: Tables, n: nat)

  function Delivered(p: Poll, filter: Filter, after: nat): seq<Change<Row>> {
    var w := Wanted(p.t.changes, filter, after, p.t.sequence);
    if p.n <= |w| then w[..p.n] else w
  }

  function Advance(delivered: seq<Change<Row>>, after: nat): nat {
    if delivered == [] then after else delivered[|delivered| - 1].revision
  }

  /** The consumer's cursor after its polls, each starting where the one before ended. */
  function CursorAfter(polls: seq<Poll>, filter: Filter, start: nat): nat {
    if polls == [] then start
    else
      var after := CursorAfter(polls[..|polls| - 1], filter, start);
      Advance(Delivered(polls[|polls| - 1], filter, after), after)
  }

  function ViewAfter(polls: seq<Poll>, filter: Filter, start: nat, view: View<Row>): View<Row> {
    if polls == [] then view
    else
      var front := polls[..|polls| - 1];
      Fold(ViewAfter(front, filter, start, view),
          Delivered(polls[|polls| - 1], filter, CursorAfter(front, filter, start)))
  }

  /** Polls of ever later contents, none of which had pruned past the cursor that asked. */
  ghost predicate Acknowledged(polls: seq<Poll>, filter: Filter, start: nat) {
    polls != [] ==>
      var front, p := polls[..|polls| - 1], polls[|polls| - 1];
      && Acknowledged(front, filter, start)
      && (front != [] ==> Later(front[|front| - 1].t, p.t))
      && Consistent(p.t)
      && start <= |p.t.history|
      && p.t.prunedThrough <= CursorAfter(front, filter, start)
  }

  lemma OnePoll(p: Poll, filter: Filter, after: nat)
    requires Consistent(p.t) && p.t.prunedThrough <= after <= |p.t.history|
    ensures var d := Delivered(p, filter, after);
            && after <= Advance(d, after) <= |p.t.history|
            && Fold(ViewAt(p.t.history, filter, after), d) == ViewAt(p.t.history, filter, Advance(d, after))
  {
    var d, w := Delivered(p, filter, after), Wanted(p.t.changes, filter, after, p.t.sequence);
    if d != [] {
      WantedPrefix(p.t, filter, after, p.t.sequence, |d|);
      assert d == w[..|d|];
      FoldWanted(p.t, filter, after, Advance(d, after));
    }
  }

  /**
   Durable replica convergence: over any number of polls, with or without a store filter, cut at any point, the
   consumer's view is that of the records at its cursor, and that history is final.
   */
  lemma {:induction false} ConsumerFollows(polls: seq<Poll>, filter: Filter, start: nat, history: seq<Mutation<Row>>)
    requires polls != [] && Acknowledged(polls, filter, start)
    requires polls[|polls| - 1].t.history <= history
    ensures start <= CursorAfter(polls, filter, start) <= |polls[|polls| - 1].t.history|
    ensures ViewAfter(polls, filter, start, ViewAt(history, filter, start))
            == ViewAt(history, filter, CursorAfter(polls, filter, start))
  {
    var front, p := polls[..|polls| - 1], polls[|polls| - 1];
    if front != [] {
      ConsumerFollows(front, filter, start, history);
    }
    var after := CursorAfter(front, filter, start);
    OnePoll(p, filter, after);
    var to := Advance(Delivered(p, filter, after), after);
    ViewAtPrefix(p.t.history, history, filter, after);
    ViewAtPrefix(p.t.history, history, filter, to);
  }

  lemma ViewAtPrefix(history: seq<Mutation<Row>>, longer: seq<Mutation<Row>>, filter: Filter, revision: nat)
    requires revision <= |history| && history <= longer
    ensures ViewAt(history, filter, revision) == ViewAt(longer, filter, revision)
  {
    assert history[..revision] == longer[..revision];
  }
}
