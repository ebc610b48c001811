/**
 The JavaScript facade's own subscription. It keeps its cursor itself: each poll asks for a whole window, shows the
 handler the changes that pass the key filter, and moves the cursor past each change in turn. While it runs, a handler
 may write to the Store, poll the very subscription that is calling it, close it, and throw; the facade guards against
 none of these.
 */
module FacadeSubscription {
  import opened Common
  import opened Journal
  import opened MemoryStores

  type KeyFilter = Option<Key>

  /**
   What a handler does when it is called, in order. A poll of its own comes with what the handlers called by it do.
   */
  datatype Script =
    | Return
    | Throw
    | Write(m: Mutation<Key>, next: Script)
    | PollSelf(limit: nat, fails: bool, caught: bool, handlers: Scripts, next: Script)
    | CloseSelf(next: Script)

  /** What each handler call of one poll does; calls beyond the list just return. */
  datatype Scripts = Nil | Cons(head: Script, tail: Scripts)

  /** A subscription, the history of its Store, and three facts about its life. */
  datatype Sub = Sub(
    log: Log,
    key: KeyFilter,
    hasHandler: bool,               // it was created with a handler
    start: nat,                     // its first cursor
    revision: nat,
    closed: bool,
    running: nat,                   // how many calls of its handler are under way
    shown: seq<Change<Key>>,        // every change a handler was called with
    reentered: bool,                // a poll made by its own handler called the handler
    threw: bool,                    // a handler threw
    unhandled: bool)                // a wanted change was passed while there was no handler

  datatype Outcome = Outcome(sub: Sub, bad: bool, delivered: seq<Change<Key>>)

  predicate Wants(key: KeyFilter, change: Change<Key>) {
    change.Clear? || key.None? || change.key == key.value
  }

  function Filtered(changes: seq<Change<Key>>, key: KeyFilter): seq<Change<Key>> {
    if key.None? then changes else FilterKey(changes, key.value)
  }

  /** close() drops the handler. */
  predicate Handler(s: Sub) { s.hasHandler && !s.closed }

  /** A Store mutation in a history: what MemoryStore does when no allocation fails. */
  function Written(log: Log, m: Mutation<Key>): Log {
    if |log| >= REVISION_MAX then log
    else
      match m
      case PutValue(k, _) => if ValidKey(k) then log + [m] else log
      case DeleteKey(k) => if ValidKey(k) && k in RecordsOf(log) then log + [m] else log
      case ClearAll => if RecordsOf(log) != map[] then log + [m] else log
  }

  /** The change query of a poll is answered. */
  predicate Served(s: Sub, limit: nat) {
    !s.closed && !BadQuery(s.log, s.revision, limit) && FloorOf(|s.log|) <= s.revision
  }

  /** One poll; `fails` is a query that runs out of memory. */
  function AfterPoll(s: Sub, limit: nat, fails: bool, handlers: Scripts): (o: Outcome)
    ensures o.sub.running == s.running && o.sub.key == s.key
    decreases handlers, 1, 0
  {
    if fails || !Served(s, limit) then Outcome(s, true, [])
    else AfterLoop(s, Window(s.log, s.revision, limit), handlers)
  }

  function Past(s: Sub, c: Change<Key>): Sub {
    s.(revision := c.revision)
  }

  function Deliver(c: Change<Key>, o: Outcome): Outcome {
    if o.bad then o.(delivered := []) else o.(delivered := [c] + o.delivered)
  }

  function Rest(handlers: Scripts): Scripts {
    if handlers.Nil? then Nil else handlers.tail
  }

  /** The changes of a window from the present one on. */
  function AfterLoop(s: Sub, window: seq<Change<Key>>, handlers: Scripts): (o: Outcome)
    ensures o.sub.running == s.running && o.sub.key == s.key
    decreases handlers, 0, |window|
  {
    if window == [] then Outcome(s, false, [])
    else
      var c := window[0];
      if !Wants(s.key, c) then AfterLoop(Past(s, c), window[1..], handlers)
      else if !Handler(s) then Deliver(c, AfterLoop(Past(s, c).(unhandled := true), window[1..], handlers))
      else
        var called := AfterCall(s, c, handlers);
        if called.bad then called
        else if handlers.Nil? then Deliver(c, AfterLoop(Past(called.sub, c), window[1..], Nil))
        else Deliver(c, AfterLoop(Past(called.sub, c), window[1..], handlers.tail))
  }

  /** The handler has been called with a change and has not done anything yet. */
  function Enter(s: Sub, c: Change<Key>): Sub {
    s.(shown := s.shown + [c], running := s.running + 1, reentered := s.reentered || s.running > 0)
  }

  function Leave(s: Sub, running: nat, bad: bool): Sub {
    s.(running := running, threw := s.threw || bad)
  }

  function AfterCall(s: Sub, c: Change<Key>, handlers: Scripts): (o: Outcome)
    ensures o.sub.running == s.running && o.sub.key == s.key
    decreases handlers, 0, 0
  {
    match handlers
    case Nil => Outcome(Leave(Enter(s, c), s.running, false), false, [])
    case Cons(head, _) =>
      var o := AfterRun(Enter(s, c), head);
      Outcome(Leave(o.sub, s.running, o.bad), o.bad, [])
  }

  function AfterRun(s: Sub, script: Script): (o: Outcome)
    ensures o.sub.running == s.running && o.sub.key == s.key
    decreases script, 2, 0
  {
    match script
    case Return => Outcome(s, false, [])
    case Throw => Outcome(s, true, [])
    case Write(m, next) => AfterRun(s.(log := Written(s.log, m)), next)
    case CloseSelf(next) => AfterRun(s.(closed := true), next)
    case PollSelf(limit, fails, caught, handlers, next) =>
      var o := AfterPoll(s, limit, fails, handlers);
      if o.bad && !caught then Outcome(o.sub, true, []) else AfterRun(o.sub, next)
  }

  // ---- what a poll returns ----

  lemma {:induction false} FilterFirst(changes: seq<Change<Key>>, key: KeyFilter)
    requires changes != []
    ensures Filtered(changes, key)
            == (if Wants(key, changes[0]) then [changes[0]] else []) + Filtered(changes[1..], key)
  {
    if key.None? {
      assert changes == [changes[0]] + changes[1..];
    } else if |changes| > 1 {
      var n := |changes| - 1;
      FilterFirst(changes[..n], key);
      assert changes[..n][1..] == changes[1..][..n - 1];
    } else {
      assert changes[..0] == [] && changes[1..] == [];
    }
  }

  /** Where a window ends. */
  function EndOf(s: Sub, window: seq<Change<Key>>): nat {
    if window == [] then s.revision else window[|window| - 1].revision
  }

  /** The changes of a window that a loop returned, and where it ended. */
  predicate Returned(s: Sub, window: seq<Change<Key>>, o: Outcome) {
    !o.bad ==> o.delivered == Filtered(window, s.key) && o.sub.revision == EndOf(s, window)
  }

  lemma OneMoreReturned(s: Sub, window: seq<Change<Key>>, step: Sub, o: Outcome)
    requires window != [] && step.key == s.key && step.revision == window[0].revision
    requires Returned(step, window[1..], o)
    ensures Returned(s, window, if Wants(s.key, window[0]) then Deliver(window[0], o) else o)
  {
    FilterFirst(window, s.key);
  }

  lemma {:induction false} LoopReturns(s: Sub, window: seq<Change<Key>>, handlers: Scripts)
    ensures Returned(s, window, AfterLoop(s, window, handlers))
    decreases |window|
  {
    if window != [] {
      var c := window[0];
      var step, rest := Past(s, c), handlers;
      if Wants(s.key, c) && !Handler(s) {
        step := step.(unhandled := true);
      } else if Wants(s.key, c) {
        step, rest := Past(AfterCall(s, c, handlers).sub, c), Rest(handlers);
      }
      LoopReturns(step, window[1..], rest);
      OneMoreReturned(s, window, step, AfterLoop(step, window[1..], rest));
    }
  }

  /** The revision a poll reaches: as far as its limit goes, if the history does. */
  function Target(s: Sub, limit: nat): nat {
    var end := s.revision + if limit == 0 then CHANGE_LIMIT_MAX else limit;
    if end <= |s.log| then end else |s.log|
  }

  /**
   A poll returns, if it returns, exactly the wanted changes from its cursor as far as its limit goes, whatever its
   handlers do, and leaves the cursor there. It fails without calling anybody when it was closed or its query fails.
   */
  lemma PollReturns(s: Sub, limit: nat, fails: bool, handlers: Scripts)
    ensures var o := AfterPoll(s, limit, fails, handlers);
            && (fails || !Served(s, limit) ==> o == Outcome(s, true, []))
            && (!o.bad ==>
                  && s.revision <= Target(s, limit)
                  && o.delivered == Filtered(ChangesOf(s.log)[s.revision..Target(s, limit)], s.key)
                  && o.sub.revision == Target(s, limit))
  {
    if !fails && Served(s, limit) {
      var window := Window(s.log, s.revision, limit);
      assert window == ChangesOf(s.log)[s.revision..Target(s, limit)];
      LoopReturns(s, window, handlers);
    }
  }

  // ---- exactly once ----

  /** The wanted changes from the first cursor to the present one. */
  function Owed(s: Sub): seq<Change<Key>> {
    if s.start <= s.revision <= |s.log| then Filtered(ChangesOf(s.log)[s.start..s.revision], s.key) else []
  }

  /** Every wanted change up to the cursor has been shown to a handler exactly once, in order, and nothing else has. */
  predicate Exact(s: Sub) { s.shown == Owed(s) }

  /** No handler got changes from a poll of its own, none threw, and none was missing, or gone, for a wanted change. */
  predicate Clean(s: Sub) { !s.reentered && !s.threw && !s.unhandled }

  ghost predicate Twice(s: Sub) {
    exists i, j :: 0 <= i < j < |s.shown| && s.shown[i] == s.shown[j]
  }

  /** A wanted change was passed that will never be shown. */
  predicate Missing(s: Sub) { !Handler(s) && |s.shown| < |Owed(s)| }

  /** The change right after the cursor is wanted and has already been shown. */
  predicate Offered(s: Sub) {
    && s.hasHandler
    && s.start <= s.revision < |s.log|
    && Wants(s.key, ChangesOf(s.log)[s.revision])
    && s.shown == Owed(s) + [ChangesOf(s.log)[s.revision]]
  }

  predicate Sane(s: Sub) {
    && |s.log| <= REVISION_MAX
    && s.start <= s.revision
    && (s.revision <= |s.log| || s.revision == s.start)
    && (s.running > 0 ==> s.hasHandler)
  }

  /** Between polls, and between the changes of a poll that no handler made. */
  ghost predicate Quiet(s: Sub) {
    if Clean(s) then Exact(s) else Twice(s) || Missing(s) || (s.threw && Offered(s))
  }

  /** While a handler runs: the change it was called with lies right after the cursor, or the harm is done. */
  ghost predicate Inside(s: Sub) {
    if Clean(s) then Offered(s) else Twice(s)
  }

  ghost predicate Kept(s: Sub) {
    Sane(s) && if s.running == 0 then Quiet(s) else Inside(s)
  }

  /** At the head of the loop over a window: what is left of it lies right after the cursor. */
  ghost predicate AtHead(s: Sub, window: seq<Change<Key>>) {
    && Kept(s)
    && s.revision + |window| <= |s.log|
    && window == ChangesOf(s.log)[s.revision..s.revision + |window|]
    && (Offered(s) && !Twice(s) ==> Handler(s))
  }

  // ---- what one step does to what is owed ----

  /** The prefix of the journal up to any point stays as the history grows. */
  lemma OwedStays(s: Sub, log: Log)
    requires s.log <= log && (s.revision <= |s.log| || s.revision == s.start)
    ensures Owed(s.(log := log)) == Owed(s)
    ensures s.revision < |s.log| ==> ChangesOf(log)[s.revision] == ChangesOf(s.log)[s.revision]
  {
    if s.start <= s.revision <= |s.log| {
      SliceStays(s.log, log, s.start, s.revision);
      ChangesPrefix(s.log, log);
    } else {
      NothingOwed(s.(log := log));
    }
  }

  lemma NothingOwed(s: Sub)
    requires s.revision <= s.start
    ensures Owed(s) == []
  {
  }

  lemma FilteredStep(changes: seq<Change<Key>>, key: KeyFilter, start: nat, i: nat)
    requires start <= i < |changes|
    ensures Filtered(changes[start..i + 1], key)
            == Filtered(changes[start..i], key) + if Wants(key, changes[i]) then [changes[i]] else []
  {
    var slice := changes[start..i + 1];
    assert slice[..|slice| - 1] == changes[start..i];
    assert slice == changes[start..i] + [changes[i]];
  }

  /** Passing a change adds it to what is owed if it is wanted. */
  lemma OwedPast(s: Sub)
    requires s.start <= s.revision < |s.log|
    ensures var c := ChangesOf(s.log)[s.revision];
            && c.revision == s.revision + 1
            && Owed(Past(s, c)) == Owed(s) + if Wants(s.key, c) then [c] else []
  {
    FilteredStep(ChangesOf(s.log), s.key, s.start, s.revision);
  }

  lemma TwiceStays(s: Sub, shown: seq<Change<Key>>)
    requires Twice(s) && s.shown <= shown
    ensures Twice(s.(shown := shown))
  {
    var i, j :| 0 <= i < j < |s.shown| && s.shown[i] == s.shown[j];
    assert shown[i] == shown[j];
  }

  lemma ShownAgain(s: Sub, c: Change<Key>)
    requires s.shown != [] && s.shown[|s.shown| - 1] == c
    ensures Twice(s.(shown := s.shown + [c]))
  {
    var shown := s.shown + [c];
    assert shown[|s.shown| - 1] == shown[|s.shown|];
  }

  /** What polls and handlers never do: forget a call, rewrite history, reopen, or change what the subscription is. */
  predicate Onward(s: Sub, s': Sub) {
    && s'.key == s.key && s'.start == s.start && s'.hasHandler == s.hasHandler && s'.running == s.running
    && s.log <= s'.log && s.shown <= s'.shown
    && (s.closed ==> s'.closed)
    && (!Clean(s) ==> !Clean(s'))
  }

  predicate Still(s: Sub, s': Sub) { s'.revision == s.revision && s'.shown == s.shown }

  /** Growth of the history changes nothing about what was owed or shown. */
  lemma GrowthKeeps(s: Sub, log: Log)
    requires Kept(s) && s.log <= log && |log| <= REVISION_MAX
    ensures Kept(s.(log := log))
  {
    OwedStays(s, log);
    var s' := s.(log := log);
    if Twice(s) {
      TwiceStays(s', s.shown);
    }
  }

  lemma CloseKeeps(s: Sub)
    requires Kept(s)
    ensures Kept(s.(closed := true))
  {
    if Twice(s) {
      TwiceStays(s.(closed := true), s.shown);
    }
  }

  /** A change nobody asked for, passed by. */
  lemma UnwantedKeeps(s: Sub, window: seq<Change<Key>>)
    requires AtHead(s, window) && window != [] && !Wants(s.key, window[0])
    ensures AtHead(Past(s, window[0]), window[1..])
    ensures s.running > 0 ==> !Clean(s)
  {
    OwedPast(s);
    WindowTail(s, window);
    if Twice(s) {
      TwiceStays(Past(s, window[0]), s.shown);
    }
  }

  lemma WindowTail(s: Sub, window: seq<Change<Key>>)
    requires s.revision + |window| <= |s.log| && window != []
    requires window == ChangesOf(s.log)[s.revision..s.revision + |window|]
    ensures window[0] == ChangesOf(s.log)[s.revision] && window[0].revision == s.revision + 1
    ensures window[1..] == ChangesOf(s.log)[s.revision + 1..s.revision + 1 + |window[1..]|]
  {
  }

  /** A wanted change passed with no handler: from here on it is missing. */
  lemma UnhandledKeeps(s: Sub, window: seq<Change<Key>>)
    requires AtHead(s, window) && window != [] && Wants(s.key, window[0]) && !Handler(s)
    ensures AtHead(Past(s, window[0]).(unhandled := true), window[1..])
  {
    OwedPast(s);
    WindowTail(s, window);
    var s' := Past(s, window[0]).(unhandled := true);
    if Twice(s) {
      TwiceStays(s', s.shown);
    } else {
      assert !Offered(s) && |s.shown| <= |Owed(s)|;
      assert |Owed(s')| == |Owed(s)| + 1;
      assert Missing(s');
    }
  }

  /** A handler is called: with a change that was not shown before, or for the second time with one that was. */
  lemma EnterKeeps(s: Sub, c: Change<Key>)
    requires Kept(s) && Handler(s) && s.start <= s.revision < |s.log|
    requires c == ChangesOf(s.log)[s.revision] && Wants(s.key, c)
    ensures Sane(Enter(s, c)) && Inside(Enter(s, c))
    ensures s.running > 0 ==> !Clean(Enter(s, c))
  {
    var e := Enter(s, c);
    if Twice(s) {
      TwiceStays(s.(running := e.running, reentered := e.reentered), e.shown);
    } else if Offered(s) {
      ShownAgain(s.(running := e.running, reentered := e.reentered), c);
    }
  }

  lemma LeaveKeeps(s: Sub, running: nat, bad: bool)
    requires Sane(s) && Inside(s) && (running > 0 ==> s.running > 0 && !Clean(s))
    ensures var s' := Leave(s, running, bad);
            && (bad ==> Kept(s'))
            && (!bad ==> Sane(s') && Inside(s'))
  {
    if Twice(s) {
      TwiceStays(Leave(s, running, bad), s.shown);
    }
  }

  /** A window stays a run of the journal as the history grows. */
  lemma WindowStays(s: Sub, log: Log, window: seq<Change<Key>>)
    requires s.revision + |window| <= |s.log| && window != [] && s.log <= log
    requires window == ChangesOf(s.log)[s.revision..s.revision + |window|]
    ensures window[0] == ChangesOf(log)[s.revision] && window[0].revision == s.revision + 1
    ensures window[1..] == ChangesOf(log)[s.revision + 1..s.revision + 1 + |window[1..]|]
  {
    SliceStays(s.log, log, s.revision, s.revision + |window|);
    WindowTail(s.(log := log), window);
  }

  /** Past the change its handler was called with, it is owed and shown. */
  lemma HandledKeeps(s: Sub, called: Sub, window: seq<Change<Key>>)
    requires AtHead(s, window) && window != [] && Wants(s.key, window[0])
    requires Onward(s, called) && Sane(called) && Inside(called)
    requires Clean(called) ==> called.revision == s.revision && s.running == 0
    ensures AtHead(Past(called, window[0]), window[1..])
  {
    WindowStays(s, called.log, window);
    if Clean(called) {
      CleanPast(called, window[0]);
    } else {
      TwicePast(called, window[0]);
    }
  }

  lemma CleanPast(s: Sub, c: Change<Key>)
    requires Sane(s) && Clean(s) && Offered(s) && c == ChangesOf(s.log)[s.revision] && s.running == 0
    ensures Kept(Past(s, c)) && !Offered(Past(s, c))
  {
    OwedPast(s);
    assert Exact(Past(s, c));
  }

  lemma TwicePast(s: Sub, c: Change<Key>)
    requires Sane(s) && !Clean(s) && Twice(s) && s.start <= c.revision <= |s.log|
    ensures Kept(Past(s, c)) && Twice(Past(s, c))
  {
    TwiceStays(Past(s, c), s.shown);
  }

  /** Where a poll, or the rest of one, leads. */
  ghost predicate Led(s: Sub, s': Sub) {
    Kept(s') && Onward(s, s') && (s.running > 0 && Clean(s') ==> Still(s, s'))
  }

  lemma LedBy(s: Sub, step: Sub, s': Sub)
    requires Onward(s, step) && Led(step, s')
    requires s.running > 0 ==> !Clean(step)
    ensures Led(s, s')
  {
  }

  lemma {:induction false} PollKeeps(s: Sub, limit: nat, fails: bool, handlers: Scripts)
    requires Kept(s)
    ensures Led(s, AfterPoll(s, limit, fails, handlers).sub)
    decreases handlers, 1, 0, 0
  {
    if !fails && Served(s, limit) {
      var window := Window(s.log, s.revision, limit);
      LoopKeeps(s, window, handlers);
    }
  }

  lemma {:induction false} LoopKeeps(s: Sub, window: seq<Change<Key>>, handlers: Scripts)
    requires AtHead(s, window)
    ensures Led(s, AfterLoop(s, window, handlers).sub)
    decreases handlers, 0, |window|, 1
  {
    if window == [] {
      return;
    }
    if !Wants(s.key, window[0]) {
      UnwantedLoopKeeps(s, window, handlers);
    } else if !Handler(s) {
      UnhandledLoopKeeps(s, window, handlers);
    } else {
      HandledLoopKeeps(s, window, handlers);
    }
  }

  lemma {:induction false} UnwantedLoopKeeps(s: Sub, window: seq<Change<Key>>, handlers: Scripts)
    requires AtHead(s, window) && window != [] && !Wants(s.key, window[0])
    ensures Led(s, AfterLoop(s, window, handlers).sub)
    decreases handlers, 0, |window|, 0
  {
    var step := Past(s, window[0]);
    UnwantedKeeps(s, window);
    LoopKeeps(step, window[1..], handlers);
    LedBy(s, step, AfterLoop(step, window[1..], handlers).sub);
  }

  lemma {:induction false} UnhandledLoopKeeps(s: Sub, window: seq<Change<Key>>, handlers: Scripts)
    requires AtHead(s, window) && window != [] && Wants(s.key, window[0]) && !Handler(s)
    ensures Led(s, AfterLoop(s, window, handlers).sub)
    decreases handlers, 0, |window|, 0
  {
    var step := Past(s, window[0]).(unhandled := true);
    UnhandledKeeps(s, window);
    LoopKeeps(step, window[1..], handlers);
    LedBy(s, step, AfterLoop(step, window[1..], handlers).sub);
  }

  lemma {:induction false} HandledLoopKeeps(s: Sub, window: seq<Change<Key>>, handlers: Scripts)
    requires AtHead(s, window) && window != [] && Wants(s.key, window[0]) && Handler(s)
    ensures Led(s, AfterLoop(s, window, handlers).sub)
    decreases handlers, 0, |window|, 0
  {
    var c, rest := window[0], window[1..];
    WindowTail(s, window);
    CallKeeps(s, c, handlers);
    var called := AfterCall(s, c, handlers);
    if !called.bad {
      HandledKeeps(s, called.sub, window);
      LoopKeeps(Past(called.sub, c), rest, Rest(handlers));
      LedBy(s, Past(called.sub, c), AfterLoop(s, window, handlers).sub);
    }
  }

  lemma {:induction false} CallKeeps(s: Sub, c: Change<Key>, handlers: Scripts)
    requires Kept(s) && Handler(s) && s.start <= s.revision < |s.log|
    requires c == ChangesOf(s.log)[s.revision] && Wants(s.key, c)
    ensures var o := AfterCall(s, c, handlers);
            && Onward(s, o.sub) && Sane(o.sub)
            && (s.running > 0 ==> !Clean(o.sub))
            && if o.bad then Kept(o.sub) else Inside(o.sub) && (Clean(o.sub) ==> o.sub.revision == s.revision)
    decreases handlers, 0, 0, 0
  {
    EnterKeeps(s, c);
    if handlers.Nil? {
      LeaveKeeps(Enter(s, c), s.running, false);
    } else {
      RunKeeps(Enter(s, c), handlers.head);
      var o := AfterRun(Enter(s, c), handlers.head);
      LeaveKeeps(o.sub, s.running, o.bad);
    }
  }

  lemma {:induction false} RunKeeps(s: Sub, script: Script)
    requires s.running > 0 && Sane(s) && Inside(s)
    ensures var s' := AfterRun(s, script).sub;
            Sane(s') && Inside(s') && Onward(s, s') && (Clean(s') ==> Still(s, s'))
    decreases script, 2, 0, 0
  {
    match script
    case Return =>
    case Throw =>
    case Write(m, next) =>
      GrowthKeeps(s, Written(s.log, m));
      RunKeeps(s.(log := Written(s.log, m)), next);
    case CloseSelf(next) =>
      CloseKeeps(s);
      RunKeeps(s.(closed := true), next);
    case PollSelf(limit, fails, caught, handlers, next) =>
      var o := AfterPoll(s, limit, fails, handlers);
      PollKeeps(s, limit, fails, handlers);
      if !o.bad || caught {
        RunKeeps(o.sub, next);
      }
  }

  // ---- the life of a subscription ----

  datatype Event =
    | Polled(limit: nat, fails: bool, handlers: Scripts)
    | StoreWritten(m: Mutation<Key>)
    | Closed

  function Initial(log: Log, key: KeyFilter, hasHandler: bool, start: nat): Sub {
    Sub(log, key, hasHandler, start, start, false, 0, [], false, false, false)
  }

  function Lived(s: Sub, events: seq<Event>): Sub {
    if events == [] then s
    else
      var before := Lived(s, events[..|events| - 1]);
      match events[|events| - 1]
      case Polled(limit, fails, handlers) => AfterPoll(before, limit, fails, handlers).sub
      case StoreWritten(m) => before.(log := Written(before.log, m))
      case Closed => before.(closed := true)
  }

  lemma {:induction false} LifeKeeps(log: Log, key: KeyFilter, hasHandler: bool, start: nat, events: seq<Event>)
    requires |log| <= REVISION_MAX
    ensures var s := Lived(Initial(log, key, hasHandler, start), events);
            Kept(s) && s.running == 0 && s.start == start && s.key == key && log <= s.log
  {
    var s := Initial(log, key, hasHandler, start);
    if events == [] {
      NothingOwed(s);
    } else {
      LifeKeeps(log, key, hasHandler, start, events[..|events| - 1]);
      var before := Lived(s, events[..|events| - 1]);
      match events[|events| - 1]
      case Polled(limit, fails, handlers) => PollKeeps(before, limit, fails, handlers);
      case StoreWritten(m) => GrowthKeeps(before, Written(before.log, m));
      case Closed => CloseKeeps(before);
    }
  }

  predicate Ascending(changes: seq<Change<Key>>) {
    forall i, j :: 0 <= i < j < |changes| ==> changes[i].revision < changes[j].revision
  }

  lemma {:induction false} FilterAscends(changes: seq<Change<Key>>, key: Key)
    requires Ascending(changes)
    ensures Ascending(FilterKey(changes, key))
    ensures forall c :: c in FilterKey(changes, key) ==> c in changes
  {
    if changes != [] {
      var front, last := changes[..|changes| - 1], changes[|changes| - 1];
      FilterAscends(front, key);
      var kept := FilterKey(front, key);
      forall i | 0 <= i < |kept| ensures kept[i].revision < last.revision {
        assert kept[i] in front;
      }
    }
  }

  /** What is owed has no repetitions. */
  lemma OwedAscends(s: Sub)
    ensures Ascending(Owed(s))
  {
    if s.start <= s.revision <= |s.log| && s.key.Some? {
      FilterAscends(ChangesOf(s.log)[s.start..s.revision], s.key.value);
    }
  }

  lemma QuietDecides(s: Sub)
    requires Quiet(s)
    ensures Exact(s) <==> Clean(s)
  {
    OwedAscends(s);
    assert Twice(s) ==> !Ascending(s.shown);
  }

  /**
   Over any life of a subscription, whatever its handlers do and wherever it starts, every wanted change up to the
   cursor has been shown exactly once, in order, if and only if no handler got changes from a poll of its own, none
   threw, and none was missing, or closed away, while a wanted change was passed.
   */
  lemma ExactlyOnceIff(log: Log, key: KeyFilter, hasHandler: bool, start: nat, events: seq<Event>)
    requires |log| <= REVISION_MAX
    ensures var s := Lived(Initial(log, key, hasHandler, start), events);
            Exact(s) <==> Clean(s)
  {
    LifeKeeps(log, key, hasHandler, start, events);
    QuietDecides(Lived(Initial(log, key, hasHandler, start), events));
  }

  // ---- at least once ----

  /** No wanted change up to the cursor is skipped. */
  ghost predicate Covered(s: Sub) {
    !s.unhandled ==> forall c :: c in Owed(s) ==> c in s.shown
  }

  /** A handler leaves everything covered that was, and a missing handler is never forgotten. */
  ghost predicate Covers(s: Sub, s': Sub) {
    && Covered(s') && s.log <= s'.log && s.shown <= s'.shown && (s.unhandled ==> s'.unhandled)
    && s'.start == s.start && s'.key == s.key
  }

  lemma PastCovered(s: Sub, called: Sub)
    requires Covered(s) && s.start <= s.revision < |s.log|
    requires s.log <= called.log && s.shown <= called.shown && (s.unhandled ==> called.unhandled)
    requires called.start == s.start && called.key == s.key
    ensures var c := ChangesOf(s.log)[s.revision];
            (Wants(s.key, c) ==> c in called.shown || called.unhandled) ==> Covered(Past(called, c))
  {
    var c := ChangesOf(s.log)[s.revision];
    OwedPast(s);
    OwedStays(Past(s, c), called.log);
    assert Owed(Past(called, c)) == Owed(Past(s, c));
  }

  lemma {:induction false} PollCovers(s: Sub, limit: nat, fails: bool, handlers: Scripts)
    requires Covered(s) && Sane(s)
    ensures Covers(s, AfterPoll(s, limit, fails, handlers).sub) && Sane(AfterPoll(s, limit, fails, handlers).sub)
    decreases handlers, 1, 0, 0
  {
    if !fails && Served(s, limit) {
      LoopCovers(s, Window(s.log, s.revision, limit), handlers);
    }
  }

  lemma {:induction false} LoopCovers(s: Sub, window: seq<Change<Key>>, handlers: Scripts)
    requires Covered(s) && Sane(s) && s.revision + |window| <= |s.log|
    requires window == ChangesOf(s.log)[s.revision..s.revision + |window|]
    ensures Covers(s, AfterLoop(s, window, handlers).sub) && Sane(AfterLoop(s, window, handlers).sub)
    decreases handlers, 0, |window|, 1
  {
    if window != [] {
      var c := window[0];
      if Wants(s.key, c) && Handler(s) {
        HandledLoopCovers(s, window, handlers);
      } else {
        PassedLoopCovers(s, window, handlers);
      }
    }
  }

  lemma {:induction false} PassedLoopCovers(s: Sub, window: seq<Change<Key>>, handlers: Scripts)
    requires Covered(s) && Sane(s) && s.revision + |window| <= |s.log| && window != []
    requires window == ChangesOf(s.log)[s.revision..s.revision + |window|]
    requires !(Wants(s.key, window[0]) && Handler(s))
    ensures Covers(s, AfterLoop(s, window, handlers).sub) && Sane(AfterLoop(s, window, handlers).sub)
    decreases handlers, 0, |window|, 0
  {
    var c := window[0];
    var step := if Wants(s.key, c) then Past(s, c).(unhandled := true) else Past(s, c);
    PassedIsCovered(s, window, step);
    LoopCovers(step, window[1..], handlers);
    CoveredBy(s, step, AfterLoop(step, window[1..], handlers).sub);
  }

  lemma PassedIsCovered(s: Sub, window: seq<Change<Key>>, step: Sub)
    requires Covered(s) && Sane(s) && s.revision + |window| <= |s.log| && window != []
    requires window == ChangesOf(s.log)[s.revision..s.revision + |window|]
    requires step == if Wants(s.key, window[0]) then Past(s, window[0]).(unhandled := true) else Past(s, window[0])
    ensures Covered(step) && Sane(step)
    ensures step.revision + |window[1..]| <= |step.log|
    ensures window[1..] == ChangesOf(step.log)[step.revision..step.revision + |window[1..]|]
  {
    WindowStays(s, s.log, window);
    if !Wants(s.key, window[0]) {
      PastCovered(s, s);
    }
  }

  lemma CoveredBy(s: Sub, step: Sub, s': Sub)
    requires Covers(step, s')
    requires s.log <= step.log && s.shown <= step.shown && (s.unhandled ==> step.unhandled)
    requires step.start == s.start && step.key == s.key
    ensures Covers(s, s')
  {
  }

  lemma HandledStepCovers(s: Sub, window: seq<Change<Key>>, called: Sub)
    requires Covered(s) && Sane(s) && s.revision + |window| <= |s.log| && window != []
    requires window == ChangesOf(s.log)[s.revision..s.revision + |window|]
    requires Wants(s.key, window[0])
    requires Covers(s, called) && Sane(called) && window[0] in called.shown
    ensures var step := Past(called, window[0]);
            && Covered(step) && Sane(step)
            && step.revision + |window[1..]| <= |step.log|
            && window[1..] == ChangesOf(step.log)[step.revision..step.revision + |window[1..]|]
  {
    WindowStays(s, called.log, window);
    WindowStays(s, s.log, window);
    PastCovered(s, called);
  }

  lemma {:induction false} HandledLoopCovers(s: Sub, window: seq<Change<Key>>, handlers: Scripts)
    requires Covered(s) && Sane(s) && s.revision + |window| <= |s.log| && window != []
    requires window == ChangesOf(s.log)[s.revision..s.revision + |window|]
    requires Wants(s.key, window[0]) && Handler(s)
    ensures Covers(s, AfterLoop(s, window, handlers).sub) && Sane(AfterLoop(s, window, handlers).sub)
    decreases handlers, 0, |window|, 0
  {
    var c := window[0];
    CallCovers(s, c, handlers);
    var called := AfterCall(s, c, handlers);
    if !called.bad {
      HandledStepCovers(s, window, called.sub);
      var step := Past(called.sub, c);
      LoopCovers(step, window[1..], Rest(handlers));
      CoveredBy(s, step, AfterLoop(step, window[1..], Rest(handlers)).sub);
    }
  }

  lemma {:induction false} CallCovers(s: Sub, c: Change<Key>, handlers: Scripts)
    requires Covered(s) && Sane(s) && Handler(s)
    ensures Covers(s, AfterCall(s, c, handlers).sub) && Sane(AfterCall(s, c, handlers).sub)
    ensures c in AfterCall(s, c, handlers).sub.shown
    decreases handlers, 0, 0, 0
  {
    var e := Enter(s, c);
    assert c in e.shown && Owed(e) == Owed(s);
    if handlers.Cons? {
      RunCovers(e, handlers.head);
    }
  }

  lemma {:induction false} RunCovers(s: Sub, script: Script)
    requires Covered(s) && Sane(s)
    ensures Covers(s, AfterRun(s, script).sub) && Sane(AfterRun(s, script).sub)
    decreases script, 2, 0, 0
  {
    match script
    case Return =>
    case Throw =>
    case Write(m, next) =>
      OwedStays(s, Written(s.log, m));
      RunCovers(s.(log := Written(s.log, m)), next);
    case CloseSelf(next) =>
      RunCovers(s.(closed := true), next);
    case PollSelf(limit, fails, caught, handlers, next) =>
      PollCovers(s, limit, fails, handlers);
      var o := AfterPoll(s, limit, fails, handlers);
      if !o.bad || caught {
        RunCovers(o.sub, next);
      }
  }

  /**
   Over any life, handlers that poll, throw or write included: as long as there was a handler for it, every wanted
   change up to the cursor has been shown at least once.
   */
  lemma {:induction false} AtLeastOnce(log: Log, key: KeyFilter, hasHandler: bool, start: nat, events: seq<Event>)
    requires |log| <= REVISION_MAX
    ensures var s := Lived(Initial(log, key, hasHandler, start), events);
            Covered(s) && Sane(s)
  {
    var s := Initial(log, key, hasHandler, start);
    if events == [] {
      NothingOwed(s);
    } else {
      AtLeastOnce(log, key, hasHandler, start, events[..|events| - 1]);
      var before := Lived(s, events[..|events| - 1]);
      match events[|events| - 1]
      case Polled(limit, fails, handlers) => PollCovers(before, limit, fails, handlers);
      case StoreWritten(m) => OwedStays(before, Written(before.log, m));
      case Closed =>
    }
  }

  // ---- where it fails ----

  lemma HandlerReturns(s: Sub, window: seq<Change<Key>>)
    requires window != [] && s.key.None? && Handler(s)
    ensures var c := window[0];
            AfterLoop(s, window, Nil) == Deliver(c,
                AfterLoop(Past(Leave(Enter(s, c), s.running, false), c), window[1..], Nil))
  {
  }

  /** A poll over all of a short history whose handlers just return. */
  lemma {:induction false} PlainLoop(s: Sub, window: seq<Change<Key>>)
    requires s.key.None? && Handler(s)
    ensures var o := AfterLoop(s, window, Nil);
            && !o.bad && o.sub.shown == s.shown + window && Handler(o.sub) && o.sub.key.None? && o.sub.log == s.log
            && o.sub.revision == (if window == [] then s.revision else window[|window| - 1].revision)
    decreases |window|
  {
    if window != [] {
      HandlerReturns(s, window);
      PlainLoop(Past(Leave(Enter(s, window[0]), s.running, false), window[0]), window[1..]);
      assert s.shown + [window[0]] + window[1..] == s.shown + window;
    }
  }

  lemma WindowOf3(log: Log, after: nat, limit: nat)
    requires |log| == 3 && after <= 2 && limit <= 2
    ensures var c := ChangesOf(log);
            Window(log, after, limit) == if limit == 1 || (limit == 2 && after < 2) then c[after..after + limit]
                else c[after..]
  {
  }

  /**
   A handler polls while its caller has a window of two changes: its own poll reaches the third, then the cursor goes
   back.
   */
  lemma ReentrantPollGoesBack(log: Log)
    requires |log| == 3
    ensures var o := AfterPoll(Initial(log, None, true, 0), 2, false, Cons(PollSelf(0, false, true, Nil, Return), Nil));
            var c := ChangesOf(log);
            && !o.bad && o.sub.revision == 2 && o.sub.shown == [c[0], c[0], c[1], c[2], c[1]]
            && Handler(o.sub) && o.sub.key.None? && o.sub.log == log
  {
    var s, c := Initial(log, None, true, 0), ChangesOf(log);
    var handlers := Cons(PollSelf(0, false, true, Nil, Return), Nil);
    WindowOf3(log, 0, 0);
    WindowOf3(log, 0, 2);
    assert c[0..] == c;
    PlainLoop(Enter(s, c[0]), c);
    var inner := AfterPoll(Enter(s, c[0]), 0, false, Nil).sub;
    assert inner.revision == 3 && inner.shown == [c[0], c[0], c[1], c[2]];
    var called := AfterCall(s, c[0], handlers);
    assert called.sub == Leave(inner, 0, false) && !called.bad;
    assert c[0..2][1..] == [c[1]];
    PlainLoop(Past(called.sub, c[0]), [c[1]]);
    assert AfterPoll(s, 2, false, handlers) == AfterLoop(s, c[0..2], handlers);
  }

  /** So the next poll shows the third change again. */
  lemma ReentrantPollLosesItsPlace(log: Log)
    requires |log| == 3
    ensures var o := AfterPoll(Initial(log, None, true, 0), 2, false, Cons(PollSelf(0, false, true, Nil, Return), Nil));
            var again, c := AfterPoll(o.sub, 0, false, Nil), ChangesOf(log);
            && !again.bad && again.sub.revision == 3
            && again.sub.shown == [c[0], c[0], c[1], c[2], c[1], c[2]]
            && !Exact(again.sub)
  {
    var o := AfterPoll(Initial(log, None, true, 0), 2, false, Cons(PollSelf(0, false, true, Nil, Return), Nil));
    var c := ChangesOf(log);
    ReentrantPollGoesBack(log);
    WindowOf3(log, 2, 0);
    assert c[2..] == [c[2]];
    PlainLoop(o.sub, [c[2]]);
    var again := AfterPoll(o.sub, 0, false, Nil).sub;
    assert again.shown[0] == again.shown[1];
    ExactHasNoRepetition(again);
  }

  lemma ExactHasNoRepetition(s: Sub)
    ensures Exact(s) ==> !Twice(s)
  {
    OwedAscends(s);
  }

  /** A handler that closes: the rest of the window is returned and passed, but shown to nobody. */
  lemma CloseInAHandlerDrops(log: Log)
    requires |log| == 3
    ensures var s := Initial(log, None, true, 0);
            var o := AfterPoll(s, 0, false, Cons(CloseSelf(Return), Nil));
            var c := ChangesOf(log);
            && !o.bad && o.sub.revision == 3 && o.delivered == c && o.sub.shown == [c[0]] && !Exact(o.sub)
  {
    var s, c := Initial(log, None, true, 0), ChangesOf(log);
    WindowOf3(log, 0, 0);
    assert c[0..] == c;
    var called := AfterCall(s, c[0], Cons(CloseSelf(Return), Nil));
    var step := Past(called.sub, c[0]);
    assert step.closed && step.shown == [c[0]];
    UnheardLoop(step, c[1..], Nil);
    assert [c[0]] + c[1..] == c;
    assert Owed(AfterPoll(s, 0, false, Cons(CloseSelf(Return), Nil)).sub) == c[0..3] == c;
  }

  /** A subscription without a handler is shown nothing: its changes are only in what its polls return. */
  lemma {:induction false} UnheardLoop(s: Sub, window: seq<Change<Key>>, handlers: Scripts)
    requires s.key.None? && !Handler(s)
    ensures var o := AfterLoop(s, window, handlers);
            && !o.bad && o.delivered == window && o.sub.shown == s.shown && o.sub.log == s.log && o.sub.start == s.start
            && o.sub.key == s.key
            && o.sub.revision == (if window == [] then s.revision else window[|window| - 1].revision)
    decreases |window|
  {
    if window != [] {
      UnheardLoop(Past(s, window[0]).(unhandled := true), window[1..], handlers);
      assert [window[0]] + window[1..] == window;
    }
  }

  // ---- the code ----

  /** One query's outcome, given that some of the window was delivered before. */
  function Delivered(delivered: seq<Change<Key>>, o: Outcome): Outcome {
    if o.bad then o.(delivered := []) else o.(delivered := delivered + o.delivered)
  }

  lemma DeliverOne(delivered: seq<Change<Key>>, c: Change<Key>, o: Outcome)
    ensures Delivered(delivered, Deliver(c, o)) == Delivered(delivered + [c], o)
  {
    assert delivered + ([c] + o.delivered) == delivered + [c] + o.delivered;
  }

  lemma DeliverNone(o: Outcome)
    ensures o.bad && o.delivered == [] ==> Delivered([], o) == o
    ensures !o.bad ==> Delivered([], o) == o
  {
    assert [] + o.delivered == o.delivered;
  }

  class StoreSubscription {
    const store: MemoryStore
    const key: KeyFilter
    ghost const hasHandler: bool
    ghost const start: nat
    var handler: bool                 // this.handler is set
    var revision: nat
    var closed: bool
    ghost var running: nat
    ghost var shown: seq<Change<Key>>
    ghost var reentered: bool
    ghost var threw: bool
    ghost var unhandled: bool

    ghost function Abs(): Sub
      reads this, store
    {
      Sub(store.log, key, hasHandler, start, revision, closed, running, shown, reentered, threw, unhandled)
    }

    ghost predicate Valid()
      reads this, store
    {
      store.Valid() && store.reliable && handler == Handler(Abs())
    }

    /** Any first cursor is taken, one beyond the Store's revision included. */
    constructor (store: MemoryStore, key: KeyFilter, handler: bool, after: nat)
      requires store.Valid() && store.reliable
      ensures Valid() && this.store == store && Abs() == Initial(store.log, key, handler, after)
    {
      this.store, this.key, this.handler, revision, closed := store, key, handler, after, false;
      this.hasHandler, this.start, running, shown := handler, after, 0, [];
      reentered, threw, unhandled := false, false, false;
    }

    method Close()
      requires Valid()
      modifies this`closed, this`handler
      ensures Valid() && Abs() == old(Abs()).(closed := true)
    {
      closed, handler := true, false;
    }

    method WriteStore(m: Mutation<Key>)
      requires Valid()
      modifies store
      ensures Valid() && Abs() == old(Abs()).(log := Written(old(store.log), m))
    {
      match m
      case PutValue(k, v) => var _, _ := store.Put(k, v);
      case DeleteKey(k) => var _, _, _ := store.Remove(k);
      case ClearAll => var _, _, _ := store.ClearRecords();
    }

    /**
     poll(): whatever the handlers do, it ends where the model says, and returns the wanted changes of its window.
     */
    method Poll(limit: nat, fails: bool, handlers: Scripts) returns (bad: bool, delivered: seq<Change<Key>>)
      requires Valid()
      modifies this, store
      ensures Valid() && Outcome(Abs(), bad, delivered) == AfterPoll(old(Abs()), limit, fails, handlers)
      ensures !bad ==>
                && old(revision) <= Target(old(Abs()), limit) == revision
                && delivered == Filtered(ChangesOf(old(store.log))[old(revision)..revision], key)
      decreases handlers, 1, 0, 0
    {
      PollReturns(Abs(), limit, fails, handlers);
      if closed || fails {
        return true, [];
      }
      var status, window := store.QueryChanges(revision, limit);
      if !status.Ok? {
        return true, [];
      }
      bad, delivered := ShowWindow(window, handlers);
    }

    /** The loop over the window. */
    method ShowWindow(window: seq<Change<Key>>, handlers: Scripts) returns (bad: bool, delivered: seq<Change<Key>>)
      requires Valid()
      modifies this, store
      ensures Valid() && Outcome(Abs(), bad, delivered) == AfterLoop(old(Abs()), window, handlers)
      decreases handlers, 0, |window|, 1
    {
      delivered := [];
      var i, scripts := 0, handlers;
      DeliverNone(AfterLoop(Abs(), window, handlers));
      LoopBadIsEmpty(Abs(), window, handlers);
      while i < |window|
        invariant i <= |window| && Valid()
        invariant scripts == handlers || scripts < handlers
        invariant AfterLoop(old(Abs()), window, handlers)
                  == Delivered(delivered, AfterLoop(Abs(), window[i..], scripts))
      {
        var change := window[i];
        assert window[i..] == [change] + window[i + 1..];
        bad, scripts := ShowChange(change, window[i + 1..], scripts);
        if bad {
          return true, [];
        }
        DeliverOne(delivered, change, AfterLoop(Abs(), window[i + 1..], scripts));
        if Wants(key, change) {
          delivered := delivered + [change];
        }
        i := i + 1;
      }
      assert window[i..] == [];
      assert delivered + [] == delivered;
      bad := false;
    }

    /** One change: shown if it is wanted and there is a handler, and passed unless the handler throws. */
    method ShowChange(change: Change<Key>, ghost rest: seq<Change<Key>>, handlers: Scripts)
      returns (bad: bool, handlers': Scripts)
      requires Valid()
      modifies this, store
      ensures Valid() && (handlers' == handlers || handlers' < handlers)
      ensures bad ==> AfterLoop(old(Abs()), [change] + rest, handlers) == Outcome(Abs(), true, [])
      ensures !bad ==>
                var o := AfterLoop(Abs(), rest, handlers');
                AfterLoop(old(Abs()), [change] + rest, handlers) == if Wants(key, change) then Deliver(change, o) else o
      decreases handlers, 0, 1, 0
    {
      bad, handlers' := false, handlers;
      assert ([change] + rest)[0] == change && ([change] + rest)[1..] == rest;
      if change.Clear? || key.None? || change.key == key.value {
        if handler {
          bad := CallHandler(change, handlers);
          if bad {
            return;
          }
          handlers' := if handlers.Nil? then Nil else handlers.tail;
        } else {
          unhandled := true;
        }
      }
      revision := change.revision;
    }

    method CallHandler(change: Change<Key>, handlers: Scripts) returns (bad: bool)
      requires Valid() && handler
      modifies this, store
      ensures Valid() && Outcome(Abs(), bad, []) == AfterCall(old(Abs()), change, handlers)
      decreases handlers, 0, 0, 0
    {
      ghost var before := running;
      shown, running, reentered := shown + [change], running + 1, reentered || running > 0;
      assert Abs() == Enter(old(Abs()), change);
      if handlers.Nil? {
        bad := false;
      } else {
        bad := RunHandler(handlers.head);
      }
      running, threw := before, threw || bad;
    }

    /** A host's handler, doing what its script says. */
    method RunHandler(script: Script) returns (bad: bool)
      requires Valid()
      modifies this, store
      ensures Valid() && Outcome(Abs(), bad, []) == AfterRun(old(Abs()), script)
      decreases script, 2, 0, 0
    {
      match script
      case Return => return false;
      case Throw => return true;
      case Write(m, next) =>
        WriteStore(m);
        bad := RunHandler(next);
      case CloseSelf(next) =>
        Close();
        bad := RunHandler(next);
      case PollSelf(limit, fails, caught, handlers, next) =>
        var failed, _ := Poll(limit, fails, handlers);
        if failed && !caught {
          return true;
        }
        bad := RunHandler(next);
    }
  }

  /** An exception carries no changes. */
  lemma {:induction false} LoopBadIsEmpty(s: Sub, window: seq<Change<Key>>, handlers: Scripts)
    ensures var o := AfterLoop(s, window, handlers); o.bad ==> o.delivered == []
    decreases |window|
  {
    if window != [] && !Wants(s.key, window[0]) {
      LoopBadIsEmpty(Past(s, window[0]), window[1..], handlers);
    }
  }
}
