/**
 Replica convergence. A subscriber keeps its own view, folding in the changes of every poll that returns
 Ok, while the Store is mutated freely, between polls and by callbacks in the middle of one. `Next` is what
 the contracts of MemoryStore and Subscription.Poll allow in one step, and runs are sequences of steps.
 */
module Replicas {
  import opened Common
  import opened Journal
  import opened MemoryStores

  /** The Store's history, and a subscriber: its cursor, its view, and every change it has been delivered. */
  datatype Replica = Replica(log: Log, cursor: nat, view: View<Key>, seen: seq<Change<Key>>)

  datatype Step =
    | Mutations                         // any number of mutations, none of them a poll
    | PollOk(delivered: seq<Change<Key>>)
    | PollFailed                        // Gap, Busy, OutOfMemory, a throwing callback or bad arguments

  ghost predicate Next(s: Replica, step: Step, s': Replica) {
    && s.log <= s'.log
    && match step
       case PollOk(delivered) =>
         && FloorOf(|s.log|) <= s.cursor
         && s.cursor + |delivered| <= |s.log|
         && delivered == ChangesOf(s.log)[s.cursor..s.cursor + |delivered|]
         && s' == Replica(s'.log, s.cursor + |delivered|, Fold(s.view, delivered), s.seen + delivered)
       case _ =>
         s' == s.(log := s'.log)
  }

  ghost predicate IsRun(states: seq<Replica>, steps: seq<Step>) {
    && |states| == |steps| + 1
    && forall i :: 0 <= i < |steps| ==> Next(states[i], steps[i], states[i + 1])
  }

  /** What the subscriber needs of a poll. */
  method PollForFold(sub: Subscription, limit: nat) returns (status: Status, delivered: seq<Change<Key>>)
    requires sub.Valid()
    modifies sub, sub.store
    ensures sub.Valid() && old(sub.store.log) <= sub.store.log
    ensures status.Ok? ==>
              && FloorOf(|old(sub.store.log)|) <= old(sub.revision) <= sub.revision <= |old(sub.store.log)|
              && delivered == ChangesOf(old(sub.store.log))[old(sub.revision)..sub.revision]
    ensures !status.Ok? ==> sub.revision == old(sub.revision)
  {
    var result, _, changes, _, _ := sub.Poll(limit);
    status, delivered := result, changes;
  }

  /** Polling a real subscription and folding what comes back is a step of this model. */
  method PollAndFold(sub: Subscription, limit: nat, view: View<Key>, ghost seen: seq<Change<Key>>)
    returns (status: Status, view': View<Key>, ghost seen': seq<Change<Key>>, ghost step: Step)
    requires sub.Valid()
    modifies sub, sub.store
    ensures sub.Valid()
    ensures Next(Replica(old(sub.store.log), old(sub.revision), view, seen), step,
                 Replica(sub.store.log, sub.revision, view', seen'))
    ensures status.Ok? <==> step.PollOk?
  {
    var delivered;
    status, delivered := PollForFold(sub, limit);
    if !status.Ok? {
      return status, view, seen, PollFailed;
    }
    view' := view;
    for i := 0 to |delivered|
      invariant view' == Fold(view, delivered[..i])
    {
      assert delivered[..i + 1][..i] == delivered[..i];
      view' := Observe(view', delivered[i]);
    }
    assert delivered[..|delivered|] == delivered;
    seen', step := seen + delivered, PollOk(delivered);
  }

  /** The subscriber subscribed at revision `start`, holding the Store's view as of then. */
  ghost predicate Subscribed(s: Replica, start: nat) {
    && start == s.cursor <= |s.log|
    && s.view == ViewOf(RecordsOf(s.log[..start]))
    && s.seen == []
  }

  /**
   What every step keeps: the view is the Store's view at the cursor, and what was seen is the journal from the start
   to the cursor.
   */
  ghost predicate InStep(s: Replica, start: nat) {
    && start <= s.cursor <= |s.log|
    && s.view == ViewOf(RecordsOf(s.log[..s.cursor]))
    && s.seen == ChangesOf(s.log)[start..s.cursor]
  }

  lemma JournalUpTo(log: Log, n: nat)
    requires n <= |log|
    ensures Fold(map[], ChangesOf(log)[..n]) == ViewOf(RecordsOf(log[..n]))
  {
    JournalAgreesWithRecords(log[..n]);
    ChangesPrefix(log[..n], log);
  }

  lemma FoldSplit(changes: seq<Change<Key>>, from: nat, to: nat)
    requires from <= to <= |changes|
    ensures Fold(map[], changes[..to]) == Fold(Fold(map[], changes[..from]), changes[from..to])
  {
    FoldAppend(map[], changes[..from], changes[from..to]);
    assert changes[..from] + changes[from..to] == changes[..to];
  }

  /** Folding a run of the journal takes the view at its start to the view at its end. */
  lemma FoldAdvances(log: Log, from: nat, to: nat)
    requires from <= to <= |log|
    ensures Fold(ViewOf(RecordsOf(log[..from])), ChangesOf(log)[from..to]) == ViewOf(RecordsOf(log[..to]))
  {
    JournalUpTo(log, from);
    JournalUpTo(log, to);
    FoldSplit(ChangesOf(log), from, to);
  }

  /** The log may grow without the subscriber noticing. */
  lemma GrowthKeepsInStep(s: Replica, log: Log, start: nat)
    requires InStep(s, start) && s.log <= log
    ensures InStep(s.(log := log), start)
  {
    SliceStays(s.log, log, start, s.cursor);
    assert log[..s.cursor] == s.log[..s.cursor];
  }

  lemma PollKeepsInStep(s: Replica, n: nat, start: nat)
    requires InStep(s, start) && s.cursor + n <= |s.log|
    ensures var delivered := ChangesOf(s.log)[s.cursor..s.cursor + n];
            InStep(Replica(s.log, s.cursor + n, Fold(s.view, delivered), s.seen + delivered), start)
  {
    FoldAdvances(s.log, s.cursor, s.cursor + n);
    SliceJoin(ChangesOf(s.log), start, s.cursor, s.cursor + n);
  }

  lemma SliceJoin(changes: seq<Change<Key>>, start: nat, from: nat, to: nat)
    requires start <= from <= to <= |changes|
    ensures changes[start..from] + changes[from..to] == changes[start..to]
  {
  }

  lemma StepKeepsInStep(s: Replica, step: Step, s': Replica, start: nat)
    requires InStep(s, start) && Next(s, step, s')
    ensures InStep(s', start)
  {
    match step
    case PollOk(delivered) =>
      PollKeepsInStep(s, |delivered|, start);
      GrowthKeepsInStep(s'.(log := s.log), s'.log, start);
    case _ =>
      GrowthKeepsInStep(s, s'.log, start);
  }

  lemma {:induction false} RunKeepsInStep(states: seq<Replica>, steps: seq<Step>, start: nat)
    requires IsRun(states, steps) && Subscribed(states[0], start)
    ensures InStep(states[|steps|], start)
  {
    if steps != [] {
      var n := |steps| - 1;
      RunKeepsInStep(states[..n + 1], steps[..n], start);
      StepKeepsInStep(states[n], steps[n], states[n + 1], start);
    }
  }

  /**
   Convergence, over every run: once the cursor reaches the Store's revision the subscriber holds exactly
   the Store's own view, and it has been shown every change since it subscribed, once each and in order.
   */
  lemma ReplicaConverges(states: seq<Replica>, steps: seq<Step>, start: nat)
    requires IsRun(states, steps) && Subscribed(states[0], start)
    requires var end := states[|steps|]; end.cursor == |end.log|
    ensures var end := states[|steps|];
            && end.view == ViewOf(RecordsOf(end.log))
            && start <= |end.log| && end.seen == ChangesOf(end.log)[start..]
  {
    RunKeepsInStep(states, steps, start);
    var end := states[|steps|];
    assert end.log[..end.cursor] == end.log;
  }

  /** A subscriber to one key, keeping only that key's changes and the CLEARs, converges on that key. */
  lemma FilteredReplicaConverges(states: seq<Replica>, steps: seq<Step>, start: nat, k: Key)
    requires IsRun(states, steps) && Subscribed(states[0], start)
    ensures var end := states[|steps|];
            && end.cursor <= |end.log|
            && Fold(Restrict(states[0].view, k), FilterKey(end.seen, k))
            == Restrict(ViewOf(RecordsOf(end.log[..end.cursor])), k)
  {
    RunKeepsInStep(states, steps, start);
    RunFolds(states, steps, start);
    FilteredFold(states[0].view, states[|steps|].seen, k);
  }

  lemma {:induction false} RunFolds(states: seq<Replica>, steps: seq<Step>, start: nat)
    requires IsRun(states, steps) && Subscribed(states[0], start)
    ensures states[|steps|].view == Fold(states[0].view, states[|steps|].seen)
  {
    if steps != [] {
      var n := |steps| - 1;
      RunFolds(states[..n + 1], steps[..n], start);
      if steps[n].PollOk? {
        FoldAppend(states[0].view, states[n].seen, steps[n].delivered);
      }
    }
  }

  /** Eviction is never silent loss: a cursor below the floor stays there, and no later poll of it returns Ok. */
  lemma {:induction false} GapIsForever(states: seq<Replica>, steps: seq<Step>)
    requires IsRun(states, steps)
    requires states[0].cursor < FloorOf(|states[0].log|)
    ensures states[|steps|].cursor == states[0].cursor < FloorOf(|states[|steps|].log|)
    ensures forall i :: 0 <= i < |steps| ==> !steps[i].PollOk?
  {
    if steps != [] {
      var n := |steps| - 1;
      GapIsForever(states[..n + 1], steps[..n]);
      assert Next(states[n], steps[n], states[n + 1]);
    }
  }

  /** A poll that no callback cuts short delivers its whole window, and runs no mutation in this statement. */
  ghost predicate FullPoll(s: Replica, limit: nat, s': Replica) {
    && s.cursor <= |s.log|
    && s'.log == s.log
    && Next(s, PollOk(Window(s.log, s.cursor, limit)), s')
  }

  /**
   Progress: from a cursor that is not below the floor, n full polls of a quiet Store, with any limits from
   1 up, either reach the revision or move the cursor by at least n.
   */
  lemma {:induction false} QuietPollsCatchUp(states: seq<Replica>, limits: seq<nat>)
    requires |states| == |limits| + 1
    requires forall i :: 0 <= i < |limits| ==> 1 <= limits[i] && FullPoll(states[i], limits[i], states[i + 1])
    ensures states[|limits|].log == states[0].log
    ensures states[|limits|].cursor == |states[0].log| || states[|limits|].cursor >= states[0].cursor + |limits|
  {
    if limits != [] {
      var n := |limits| - 1;
      QuietPollsCatchUp(states[..n + 1], limits[..n]);
      WindowIsContiguous(states[n].log, states[n].cursor, limits[n]);
      assert FullPoll(states[n], limits[n], states[n + 1]);
    }
  }
}
