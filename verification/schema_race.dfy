/**
 First use of the ObjectStore, raced by any number of processes on one database file: inspect, BEGIN IMMEDIATE,
 inspect again, create, commit. Any step may fail and roll back (a crash is such a step), and processes that are
 past it write meanwhile.
 */
module SchemaRace {
  import opened Common

  const STORE_TABLES: nat := 4

  /**
   What the file holds of the schema: how many of the tables, the durable revision, and (auxiliary) how often it was
   created.
   */
  datatype File = File(tables: nat, revision: Option<nat>, creations: nat)

  datatype Pc =
    | Idle
    | SawNone                  // the optimistic inspection found no tables
    | Locked                   // BEGIN IMMEDIATE succeeded
    | Creating                 // the second inspection found none either
    | Created                  // nothing left to do but commit
    | Ready
    | Writing                  // a Store mutation in a transaction of its own
    | Corrupt                  // reported a partial schema

  datatype World = World(committed: File, pending: File, lock: Option<nat>, pcs: seq<Pc>)

  datatype Step =
    | Inspect
    | BeginImmediate
    | InspectAgain
    | CreateTable
    | InsertMetadata
    | Commit
    | BeginWrite
    | Fail

  /** The tables a process that inspects finds: none, all, or a part. */
  function Found(tables: nat, none: Pc, all: Pc): Pc {
    if tables == 0 then none else if tables == STORE_TABLES then all else Corrupt
  }

  predicate Enabled(w: World, p: nat, step: Step) {
    p < |w.pcs| &&
    match step
    case Inspect => w.pcs[p].Idle?
    case BeginImmediate => w.pcs[p].SawNone? && w.lock.None?
    case InspectAgain => w.pcs[p].Locked?
    case CreateTable => w.pcs[p].Creating? && w.pending.tables < STORE_TABLES
    case InsertMetadata => w.pcs[p].Creating? && w.pending.tables == STORE_TABLES
    case Commit => w.pcs[p].Created? || w.pcs[p].Writing?
    case BeginWrite => w.pcs[p].Ready? && w.lock.None? && w.committed.revision.Some?
    case Fail => !w.pcs[p].Corrupt?
  }

  function Goto(w: World, p: nat, pc: Pc): World
    requires p < |w.pcs|
  {
    w.(pcs := w.pcs[p := pc])
  }

  function Do(w: World, p: nat, step: Step): World
    requires Enabled(w, p, step)
  {
    match step
    case Inspect => Goto(w, p, Found(w.committed.tables, SawNone, Ready))
    case BeginImmediate => Goto(w, p, Locked).(lock := Some(p), pending := w.committed)
    case InspectAgain => Goto(w, p, Found(w.pending.tables, Creating, Created))
    case CreateTable => w.(pending := w.pending.(tables := w.pending.tables + 1))
    case InsertMetadata =>
      Goto(w, p, Created).(pending := w.pending.(revision := Some(0), creations := w.pending.creations + 1))
    case Commit => Goto(w, p, Ready).(lock := None, committed := w.pending)
    case BeginWrite =>
      Goto(w, p, Writing).(lock := Some(p), pending := w.committed.(revision := Some(w.committed.revision.value + 1)))
    case Fail => Goto(w, p, Idle).(lock := if w.lock == Some(p) then None else w.lock)
  }

  predicate Holds(pc: Pc) {
    pc.Locked? || pc.Creating? || pc.Created? || pc.Writing?
  }

  /** None of the schema, or all of it, created once. */
  predicate Whole(f: File) {
    if f.tables == 0 then f == File(0, None, 0) else f.tables == STORE_TABLES && f.revision.Some? && f.creations == 1
  }

  /** What the holder of the write lock has pending, against what is committed. */
  predicate PendingOk(committed: File, pending: File, pc: Pc) {
    match pc
    case Locked => pending == committed
    case Creating => committed.tables == 0 && pending.tables <= STORE_TABLES
        && pending == committed.(tables := pending.tables)
    case Created => pending == if committed.tables == 0 then File(STORE_TABLES, Some(0), 1) else committed
    case Writing => committed.revision.Some? && pending == committed.(revision := Some(committed.revision.value + 1))
    case _ => false
  }

  ghost predicate Inv(w: World)
  {
    && Whole(w.committed)
    && (w.lock.Some? ==> w.lock.value < |w.pcs| && PendingOk(w.committed, w.pending, w.pcs[w.lock.value]))
    && forall p :: 0 <= p < |w.pcs| ==>
         && (Holds(w.pcs[p]) ==> w.lock == Some(p))
         && !w.pcs[p].Corrupt?
         && (w.pcs[p].Ready? ==> w.committed.tables == STORE_TABLES)
  }

  /** What a committed file may become: the schema appears once, and from then on the revision only grows. */
  predicate Onward(f: File, f': File) {
    f == f' || (f.tables == 0 && f' == File(STORE_TABLES, Some(0), 1)) ||
    (f.revision.Some? && f'.revision.Some? && f' == f.(revision := f'.revision)
        && f.revision.value <= f'.revision.value)
  }

  lemma InvAfter(w: World, p: nat, step: Step)
    requires Inv(w) && Enabled(w, p, step)
    ensures Inv(Do(w, p, step)) && Onward(w.committed, Do(w, p, step).committed)
  {
  }

  ghost predicate IsRun(worlds: seq<World>, schedule: seq<(nat, Step)>) {
    && |worlds| == |schedule| + 1
    && forall i :: 0 <= i < |schedule| ==>
         Enabled(worlds[i], schedule[i].0, schedule[i].1)
             && worlds[i + 1] == Do(worlds[i], schedule[i].0, schedule[i].1)
  }

  /** No process has started, on a file without the schema. */
  ghost predicate Initial(w: World) {
    w.committed == File(0, None, 0) && w.lock.None? && forall p :: 0 <= p < |w.pcs| ==> w.pcs[p].Idle?
  }

  lemma {:induction false} RunInv(worlds: seq<World>, schedule: seq<(nat, Step)>)
    requires IsRun(worlds, schedule) && Initial(worlds[0])
    ensures Inv(worlds[|schedule|])
  {
    if schedule != [] {
      var n := |schedule| - 1;
      RunInv(worlds[..n + 1], schedule[..n]);
      InvAfter(worlds[n], schedule[n].0, schedule[n].1);
    }
  }

  /** Every state over every schedule: zero or four tables, created at most once, and nobody ever sees a part. */
  lemma SchemaIsWhole(worlds: seq<World>, schedule: seq<(nat, Step)>)
    requires IsRun(worlds, schedule) && Initial(worlds[0])
    ensures var w := worlds[|schedule|];
            && w.committed.tables in {0, STORE_TABLES}
            && w.committed.creations == (if w.committed.tables == 0 then 0 else 1)
            && (w.committed.revision.Some? <==> w.committed.tables == STORE_TABLES)
            && (forall p :: 0 <= p < |w.pcs| ==>
                 !w.pcs[p].Corrupt? && (w.pcs[p].Ready? ==> w.committed.tables == STORE_TABLES))
  {
    RunInv(worlds, schedule);
  }

  /** Once there is a revision it is never lost and never goes back, whoever initialises afterwards. */
  lemma {:induction false} RevisionIsNeverReset(worlds: seq<World>, schedule: seq<(nat, Step)>, from: nat)
    requires IsRun(worlds, schedule) && Initial(worlds[0]) && from <= |schedule|
    requires worlds[from].committed.revision.Some?
    ensures var f, f' := worlds[from].committed, worlds[|schedule|].committed;
            f'.revision.Some? && f.revision.value <= f'.revision.value && f'.creations == 1
    decreases |schedule|
  {
    RunInv(worlds, schedule);
    if from < |schedule| {
      var n := |schedule| - 1;
      RevisionIsNeverReset(worlds[..n + 1], schedule[..n], from);
      RunInv(worlds[..n + 1], schedule[..n]);
      InvAfter(worlds[n], schedule[n].0, schedule[n].1);
    }
  }

  // ---- nothing that was committed is lost ----

  /** How many Store mutations have been committed, by whichever processes. */
  ghost function Writes(worlds: seq<World>, schedule: seq<(nat, Step)>): nat
    requires IsRun(worlds, schedule)
  {
    if schedule == [] then 0
    else
      var n := |schedule| - 1;
      Writes(worlds[..n + 1], schedule[..n]) + if IsWrite(worlds[n], schedule[n].0, schedule[n].1) then 1 else 0
  }

  predicate IsWrite(w: World, p: nat, step: Step)
    requires Enabled(w, p, step)
  {
    step.Commit? && w.pcs[p].Writing?
  }

  /** A commit publishes what it was made for: one more revision, or the whole schema if nobody else has made it. */
  lemma CommitCounts(w: World, p: nat, step: Step)
    requires Inv(w) && Enabled(w, p, step)
    ensures var f, f' := w.committed, Do(w, p, step).committed;
            && (IsWrite(w, p, step) ==> f.revision.Some? && f' == f.(revision := Some(f.revision.value + 1)))
            && (step.Commit? && !w.pcs[p].Writing? ==>
                  f' == if f.tables == 0 then File(STORE_TABLES, Some(0), 1) else f)
            && (!step.Commit? ==> f' == f)
  {
  }

  ghost predicate Counted(f: File, writes: nat) {
    f.revision == (if f.tables == 0 then None else Some(writes)) && (f.tables == 0 ==> writes == 0)
  }

  lemma StepCounted(w: World, p: nat, step: Step, writes: nat)
    requires Inv(w) && Enabled(w, p, step) && Counted(w.committed, writes)
    ensures Counted(Do(w, p, step).committed, writes + if IsWrite(w, p, step) then 1 else 0)
  {
    CommitCounts(w, p, step);
  }

  lemma LastStep(worlds: seq<World>, schedule: seq<(nat, Step)>)
    requires IsRun(worlds, schedule) && schedule != []
    ensures var n := |schedule| - 1;
            && IsRun(worlds[..n + 1], schedule[..n])
            && Enabled(worlds[n], schedule[n].0, schedule[n].1)
            && worlds[|schedule|] == Do(worlds[n], schedule[n].0, schedule[n].1)
  {
    var n := |schedule| - 1;
    assert worlds[n + 1] == Do(worlds[n], schedule[n].0, schedule[n].1);
  }

  /** Over every schedule the durable revision is the number of mutations committed: none is lost or counted twice. */
  lemma {:induction false} RevisionCountsWrites(worlds: seq<World>, schedule: seq<(nat, Step)>)
    requires IsRun(worlds, schedule) && Initial(worlds[0])
    ensures Counted(worlds[|schedule|].committed, Writes(worlds, schedule))
  {
    if schedule != [] {
      var n := |schedule| - 1;
      LastStep(worlds, schedule);
      RevisionCountsWrites(worlds[..n + 1], schedule[..n]);
      RunInv(worlds[..n + 1], schedule[..n]);
      StepCounted(worlds[n], schedule[n].0, schedule[n].1, Writes(worlds[..n + 1], schedule[..n]));
    }
  }

  /** The states a process goes through by itself. */
  ghost predicate Alone(worlds: seq<World>, p: nat, steps: seq<Step>) {
    && |worlds| == |steps| + 1
    && forall i :: 0 <= i < |steps| ==> Enabled(worlds[i], p, steps[i]) && worlds[i + 1] == Do(worlds[i], p, steps[i])
  }

  /** A process that nobody interrupts gets the schema made, and ends ready to write, wherever the others are. */
  lemma InitialisesAlone(w: World, p: nat) returns (worlds: seq<World>, steps: seq<Step>)
    requires Inv(w) && p < |w.pcs| && w.pcs[p].Idle? && w.lock.None?
    ensures Alone(worlds, p, steps) && worlds[0] == w
    ensures var w' := worlds[|steps|];
            && w'.pcs == w.pcs[p := Ready] && w'.lock.None?
            && w'.committed == if w.committed.tables == 0 then File(STORE_TABLES, Some(0), 1) else w.committed
  {
    var w1 := Do(w, p, Inspect);
    if w.committed.tables != 0 {
      return [w, w1], [Inspect];
    }
    var w2 := Do(w1, p, BeginImmediate);
    var w3 := Do(w2, p, InspectAgain);
    var w4 := Do(w3, p, CreateTable);
    var w5 := Do(w4, p, CreateTable);
    var w6 := Do(w5, p, CreateTable);
    var w7 := Do(w6, p, CreateTable);
    var w8 := Do(w7, p, InsertMetadata);
    var w9 := Do(w8, p, Commit);
    worlds := [w, w1, w2, w3, w4, w5, w6, w7, w8, w9];
    steps := [Inspect, BeginImmediate, InspectAgain, CreateTable, CreateTable, CreateTable, CreateTable, InsertMetadata,
              Commit];
  }
}
