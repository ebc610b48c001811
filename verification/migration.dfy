/** Schema migrations: a run of versioned steps inside one transaction, all of them or none. */
module Migrations {
  import opened Common
  import opened Sqlite
  import opened Runtime
  import opened ObjectTables

  /** How a host callback came back, and the content it left behind inside the transaction. */
  datatype Outcome =
    | Returned(status: Status, after: Tables)
    | Threw(after: Tables)

  /** One entry of the host's table; `apply` may be missing. Callbacks do not end the transaction themselves. */
  datatype Migration = Migration(fromVersion: nat, toVersion: nat, apply: Option<Tables -> Outcome>)

  predicate Applies(m: Migration, current: nat) {
    m.fromVersion == current && m.toVersion == current + 1 && m.apply.Some?
  }

  /** Where a run of steps ends, if every statement of its own succeeds. */
  datatype Plan = Reaches(t: Tables) | Stops(status: Status)

  /** The step for a version is the first entry that applies. */
  ghost predicate IsFirst(migrations: seq<Migration>, current: nat, i: nat) {
    && i < |migrations|
    && Applies(migrations[i], current)
    && forall k :: 0 <= k < i ==> !Applies(migrations[k], current)
  }

  function StepFor(migrations: seq<Migration>, current: nat): (step: Option<nat>)
    ensures step.Some? ==> IsFirst(migrations, current, step.value)
    ensures step.None? ==> forall i :: 0 <= i < |migrations| ==> !Applies(migrations[i], current)
  {
    StepFrom(migrations, current, 0)
  }

  function StepFrom(migrations: seq<Migration>, current: nat, from: nat): (step: Option<nat>)
    requires from <= |migrations| && forall k :: 0 <= k < from ==> !Applies(migrations[k], current)
    ensures step.Some? ==> IsFirst(migrations, current, step.value)
    ensures step.None? ==> forall i :: 0 <= i < |migrations| ==> !Applies(migrations[i], current)
    decreases |migrations| - from
  {
    if from == |migrations| then None
    else if Applies(migrations[from], current) then Some(from)
    else StepFrom(migrations, current, from + 1)
  }

  function Planned(migrations: seq<Migration>, t: Tables, current: nat, target: nat): Plan
    requires current <= target
    decreases target - current
  {
    if current == target then Reaches(t)
    else
      match StepFor(migrations, current)
      case None => Stops(Status.Migration)
      case Some(i) =>
        match migrations[i].apply.value(t)
        case Threw(_) => Stops(Internal)
        case Returned(status, after) =>
          if status.Ok? then Planned(migrations, after.(userVersion := current + 1), current + 1, target)
              else Stops(status)
  }

  /**
   contents[i] is the content at version from + i: each is made from the one before by the first entry for its
   version.
   */
  ghost predicate IsPath(migrations: seq<Migration>, from: nat, contents: seq<Tables>) {
    && contents != []
    && forall i :: 0 <= i < |contents| - 1 ==> IsStep(migrations, from + i, contents[i], contents[i + 1])
  }

  ghost predicate IsStep(migrations: seq<Migration>, version: nat, t: Tables, t': Tables) {
    exists i: nat, after ::
      && IsFirst(migrations, version, i)
      && migrations[i].apply.value(t) == Returned(Ok, after)
      && t' == after.(userVersion := version + 1)
  }

  /** A plan reaches its target only by one step for each version from `current` up to it, in order. */
  lemma {:induction false} PlanIsPath(migrations: seq<Migration>, t: Tables, current: nat, target: nat)
      returns (contents: seq<Tables>)
    requires current <= target && Planned(migrations, t, current, target).Reaches?
    ensures IsPath(migrations, current, contents) && |contents| == target - current + 1
    ensures contents[0] == t && contents[|contents| - 1] == Planned(migrations, t, current, target).t
    ensures t.userVersion == current ==> Planned(migrations, t, current, target).t.userVersion == target
    decreases target - current
  {
    if current == target {
      return [t];
    }
    var i := StepFor(migrations, current).value;
    var t' := migrations[i].apply.value(t).after.(userVersion := current + 1);
    assert IsStep(migrations, current, t, t');
    var rest := PlanIsPath(migrations, t', current + 1, target);
    PathCons(migrations, current, t, rest);
    contents := [t] + rest;
  }

  /** And wherever such steps lead, the plan reaches: there is one such path at most. */
  lemma {:induction false} PathIsPlan(migrations: seq<Migration>, current: nat, target: nat, contents: seq<Tables>)
    requires current <= target && IsPath(migrations, current, contents) && |contents| == target - current + 1
    ensures Planned(migrations, contents[0], current, target) == Reaches(contents[|contents| - 1])
    decreases target - current
  {
    if current < target {
      assert IsStep(migrations, current + 0, contents[0], contents[1]);
      var i: nat, after :| IsFirst(migrations, current, i)
          && migrations[i].apply.value(contents[0]) == Returned(Ok, after)
                           && contents[1] == after.(userVersion := current + 1);
      OneFirst(migrations, current, i);
      PathTail(migrations, current, contents);
      PathIsPlan(migrations, current + 1, target, contents[1..]);
    }
  }

  lemma OneFirst(migrations: seq<Migration>, current: nat, i: nat)
    requires IsFirst(migrations, current, i)
    ensures StepFor(migrations, current) == Some(i)
  {
  }

  lemma PathCons(migrations: seq<Migration>, current: nat, t: Tables, rest: seq<Tables>)
    requires IsPath(migrations, current + 1, rest) && IsStep(migrations, current, t, rest[0])
    ensures IsPath(migrations, current, [t] + rest)
  {
    var contents := [t] + rest;
    forall i | 0 <= i < |contents| - 1 ensures IsStep(migrations, current + i, contents[i], contents[i + 1]) {
      if i > 0 {
        assert IsStep(migrations, current + 1 + (i - 1), rest[i - 1], rest[i - 1 + 1]);
      }
    }
  }

  lemma PathTail(migrations: seq<Migration>, current: nat, contents: seq<Tables>)
    requires IsPath(migrations, current, contents) && |contents| >= 2
    ensures IsPath(migrations, current + 1, contents[1..])
  {
    forall i | 0 <= i < |contents[1..]| - 1
        ensures IsStep(migrations, current + 1 + i, contents[1..][i], contents[1..][i + 1]) {
      assert IsStep(migrations, current + (i + 1), contents[i + 1], contents[i + 1 + 1]);
    }
  }

  /** Callbacks and version updates keep what every visible content satisfies. */
  ghost predicate KeptByMigrations(inv: Tables -> bool, migrations: seq<Migration>) {
    && (forall t, version: nat :: inv(t) ==> inv(t.(userVersion := version)))
    && forall i, t :: 0 <= i < |migrations| && migrations[i].apply.Some? && inv(t)
        ==> inv(migrations[i].apply.value(t).after)
  }

  /** The loop over the host's table. */
  method FindStep(migrations: seq<Migration>, current: nat) returns (step: Option<nat>)
    ensures step == StepFor(migrations, current)
  {
    for i := 0 to |migrations|
      invariant forall k :: 0 <= k < i ==> !Applies(migrations[k], current)
    {
      if migrations[i].fromVersion == current && migrations[i].toVersion == current + 1 && migrations[i].apply.Some? {
        OneFirst(migrations, current, i);
        return Some(i);
      }
    }
    step := None;
  }

  /** The steps inside the transaction. On failure whatever they did is still pending and the caller rolls back. */
  method RunSteps(d: Database<Tables>, migrations: seq<Migration>, from: nat, target: nat) returns (status: Status)
    requires d.Valid() && d.db.inTransaction && d.db.stack == [] && from < target
    requires KeptByMigrations(d.inv, migrations)
    modifies d`db
    ensures d.Valid() && d.db == old(d.db).(content := d.db.content)
    ensures var plan := Planned(migrations, old(d.db.content), from, target);
            && (status.Ok? ==> plan == Reaches(d.db.content))
            && (!status.Ok? ==> plan == Stops(status) || (status.Sqlite? && !d.reliable))
  {
    var current := from;
    ghost var plan := Planned(migrations, d.db.content, from, target);
    while current < target
      invariant from <= current <= target
      invariant d.Valid() && d.db == old(d.db).(content := d.db.content)
      invariant plan == Planned(migrations, d.db.content, current, target)
    {
      var step := FindStep(migrations, current);
      if step.None? {
        return Status.Migration;
      }
      var i := step.value;
      var outcome := migrations[i].apply.value(d.db.content);
      d.db := d.db.Write(outcome.after);
      if outcome.Threw? {
        return Internal;
      }
      if !outcome.status.Ok? {
        return outcome.status;
      }
      var ok := d.Exec(d.db.Write(d.db.content.(userVersion := migrations[i].toVersion)));
      if !ok {
        return Status.Sqlite;
      }
      current := migrations[i].toVersion;
    }
    status := Ok;
  }

  /**
   esdb_migrate. OK means the target was reached by its plan, and committed; anything else, a missing step, a failing or
   throwing callback, a failed COMMIT, leaves content and version exactly as they were.
   */
  method Migrate(d: Database<Tables>, target: nat, migrations: seq<Migration>) returns (status: Status)
    requires d.Valid() && KeptByMigrations(d.inv, migrations)
    modifies d, d.savepoints
    ensures d.Valid()
    ensures var t := old(d.db.content); status.Ok? ==>
              && t.userVersion <= target
              && Planned(migrations, t, t.userVersion, target).Reaches?
              && d.db == if t.userVersion == target then old(d.db)
                         else old(d.db).Write(Planned(migrations, t, t.userVersion, target).t)
    ensures !status.Ok? ==> d.db == old(d.db)
    ensures d.reliable && !old(d.db.inTransaction) && old(d.db.content).userVersion <= target ==>
              var plan := Planned(migrations, old(d.db.content), old(d.db.content).userVersion, target);
              if plan.Reaches? then status.Ok? else plan == Stops(status)
    ensures old(d.db.inTransaction) && old(d.db.content).userVersion < target ==> !status.Ok?
    ensures old(d.db.content).userVersion > target ==> status.Unsupported? || status.Sqlite?
  {
    var failed := Fails(d.reliable);
    if failed {
      return Status.Sqlite;
    }
    var current := d.db.content.userVersion;
    if current == target {
      return Ok;
    }
    if current > target {
      return Unsupported;
    }
    var transaction;
    status, transaction := d.Begin();
    if !status.Ok? {
      return;
    }
    status := RunSteps(d, migrations, current, target);
    if !status.Ok? {
      var _ := d.FinishTransaction(transaction, false);
      return;
    }
    status := d.FinishTransaction(transaction, true);
    if d.activeTransaction == transaction {
      var _ := d.FinishTransaction(transaction, false);
    }
  }
}
