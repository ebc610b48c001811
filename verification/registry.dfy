/**
 The named-Store registry under interleaved threads: open, close, subscribe, unsubscribe and destroy, cut
 at the points where another thread can run. The handle and subscription counts are atomics that close and
 subscribe touch without the registry lock; destroy reads them one after the other while holding it.
 */
module Registry {
  import opened Common

  type Name = seq<byte>
  type StateId = nat
  type Thread = nat

  /**
   What a unit of a count stands for: a live object, or a call that has counted but has no object to show (yet or any
   more).
   */
  datatype Ref = Object(id: nat) | InCall(thread: Thread)
  type Refs = map<Ref, StateId>

  datatype Pc =
    | Idle
    | Opening                  // counted under the lock, handle not built yet
    | Closing                  // handle given up, count not lowered yet
    | Subscribing(handle: nat) // subscription built, count not raised yet
    | Unsubscribing            // subscription given up, count not lowered yet
    | Destroying(name: Name)   // holds the lock, has read nothing
    | SawNoHandles(name: Name) // holds the lock, has read handle_count == 0

  datatype World = World(
    names: map<Name, StateId>,   // the registry proper
    nameOf: map<StateId, Name>,  // every state ever made, and its name
    handleCount: map<StateId, int>,
    subCount: map<StateId, int>,
    handles: Refs,
    subs: Refs,
    pcs: map<Thread, Pc>,
    lock: Option<Thread>)

  datatype Step =
    | OpenLocked(name: Name, made: StateId)
    | OpenBuilt(handle: nat)
    | OpenFailed
    | CloseCalled(handle: nat)
    | CloseCounted
    | SubscribeBuilt(handle: nat)
    | SubscribeCounted(sub: nat)
    | UnsubscribeCalled(sub: nat)
    | UnsubscribeCounted
    | DestroyLocked(name: Name)
    | DestroyReadHandles
    | DestroyReadSubs

  function PcOf(w: World, t: Thread): Pc {
    if t in w.pcs then w.pcs[t] else Idle
  }

  function Goto(w: World, t: Thread, pc: Pc): World {
    w.(pcs := w.pcs[t := pc])
  }

  function Bump(count: map<StateId, int>, s: StateId, d: int): map<StateId, int> {
    if s in count then count[s := count[s] + d] else count
  }

  /** The registry after the locked lookup of an open: a missing name gets a new state. */
  function Resolved(w: World, name: Name, made: StateId): World {
    if name in w.names then w
    else w.(names := w.names[name := made], nameOf := w.nameOf[made := name],
            handleCount := w.handleCount[made := 0], subCount := w.subCount[made := 0])
  }

  /** When a thread can take a step. Callers do not close a handle during a call that uses it, nor anything twice. */
  ghost predicate Enabled(w: World, t: Thread, step: Step) {
    var pc := PcOf(w, t);
    match step
    case OpenLocked(_, made) => pc.Idle? && w.lock.None? && made !in w.nameOf
    case OpenBuilt(h) => pc.Opening? && Object(h) !in w.handles && InCall(t) in w.handles
    case OpenFailed => pc.Opening? && InCall(t) in w.handles
    case CloseCalled(h) => pc.Idle? && Object(h) in w.handles && forall u :: PcOf(w, u) != Subscribing(h)
    case CloseCounted => pc.Closing? && InCall(t) in w.handles
    case SubscribeBuilt(h) => pc.Idle? && Object(h) in w.handles
    case SubscribeCounted(i) => pc.Subscribing? && Object(i) !in w.subs && Object(pc.handle) in w.handles
    case UnsubscribeCalled(i) => pc.Idle? && Object(i) in w.subs
    case UnsubscribeCounted => pc.Unsubscribing? && InCall(t) in w.subs
    case DestroyLocked(name) => pc.Idle? && w.lock.None? && name in w.names
    case DestroyReadHandles => pc.Destroying? && pc.name in w.names && w.names[pc.name] in w.handleCount
    case DestroyReadSubs => pc.SawNoHandles? && pc.name in w.names && w.names[pc.name] in w.subCount
  }

  function Do(w: World, t: Thread, step: Step): World
    requires Enabled(w, t, step)
  {
    var pc := PcOf(w, t);
    match step
    case OpenLocked(name, made) =>
      var w' := Resolved(w, name, made);
      var s := w'.names[name];
      Goto(w'.(handleCount := Bump(w'.handleCount, s, 1), handles := w'.handles[InCall(t) := s]), t, Opening)
    case OpenBuilt(h) =>
      Goto(w.(handles := (w.handles - {InCall(t)})[Object(h) := w.handles[InCall(t)]]), t, Idle)
    case OpenFailed =>
      var count := Bump(w.handleCount, w.handles[InCall(t)], -1);
      Goto(w.(handleCount := count, handles := w.handles - {InCall(t)}), t, Idle)
    case CloseCalled(h) =>
      Goto(w.(handles := (w.handles - {Object(h)})[InCall(t) := w.handles[Object(h)]]), t, Closing)
    case CloseCounted =>
      var count := Bump(w.handleCount, w.handles[InCall(t)], -1);
      Goto(w.(handleCount := count, handles := w.handles - {InCall(t)}), t, Idle)
    case SubscribeBuilt(h) => Goto(w, t, Subscribing(h))
    case SubscribeCounted(i) =>
      var s := w.handles[Object(pc.handle)];
      Goto(w.(subCount := Bump(w.subCount, s, 1), subs := w.subs[Object(i) := s]), t, Idle)
    case UnsubscribeCalled(i) =>
      Goto(w.(subs := (w.subs - {Object(i)})[InCall(t) := w.subs[Object(i)]]), t, Unsubscribing)
    case UnsubscribeCounted =>
      Goto(w.(subCount := Bump(w.subCount, w.subs[InCall(t)], -1), subs := w.subs - {InCall(t)}), t, Idle)
    case DestroyLocked(name) => Goto(w, t, Destroying(name)).(lock := Some(t))
    case DestroyReadHandles =>
      if w.handleCount[w.names[pc.name]] != 0 then Goto(w, t, Idle).(lock := None)
      else Goto(w, t, SawNoHandles(pc.name))
    case DestroyReadSubs =>
      if w.subCount[w.names[pc.name]] != 0 then Goto(w, t, Idle).(lock := None)
      else Goto(w, t, Idle).(lock := None, names := w.names - {pc.name})
  }

  function RefsTo(refs: Refs, s: StateId): set<Ref> {
    set r | r in refs && refs[r] == s
  }

  /** A count is right when it is the number of references to each state. */
  ghost predicate Counted(count: map<StateId, int>, refs: Refs) {
    forall s :: s in count ==> count[s] == |RefsTo(refs, s)|
  }

  lemma RefsTaken(refs: Refs, r: Ref, s: StateId, x: StateId)
    requires r !in refs
    ensures |RefsTo(refs[r := s], x)| == |RefsTo(refs, x)| + if x == s then 1 else 0
  {
    if x == s {
      assert RefsTo(refs[r := s], x) == RefsTo(refs, x) + {r};
    } else {
      assert RefsTo(refs[r := s], x) == RefsTo(refs, x);
    }
  }

  lemma CountTaken(count: map<StateId, int>, refs: Refs, r: Ref, s: StateId)
    requires Counted(count, refs) && r !in refs
    ensures Counted(Bump(count, s, 1), refs[r := s])
  {
    forall x | x in count ensures Bump(count, s, 1)[x] == |RefsTo(refs[r := s], x)| {
      RefsTaken(refs, r, s, x);
    }
  }

  lemma CountDropped(count: map<StateId, int>, refs: Refs, r: Ref)
    requires Counted(count, refs) && r in refs
    ensures Counted(Bump(count, refs[r], -1), refs - {r})
  {
    forall x | x in count ensures Bump(count, refs[r], -1)[x] == |RefsTo(refs - {r}, x)| {
      assert RefsTo(refs - {r}, x) == RefsTo(refs, x) - {r};
    }
  }

  lemma CountMoved(count: map<StateId, int>, refs: Refs, r: Ref, r': Ref)
    requires Counted(count, refs) && r in refs && r' !in refs
    ensures Counted(count, (refs - {r})[r' := refs[r]])
  {
    CountDropped(count, refs, r);
    CountTaken(Bump(count, refs[r], -1), refs - {r}, r', refs[r]);
    assert Bump(Bump(count, refs[r], -1), refs[r], 1) == count;
  }

  ghost predicate CountsOk(w: World) {
    && w.handleCount.Keys == w.nameOf.Keys == w.subCount.Keys
    && Counted(w.handleCount, w.handles)
    && Counted(w.subCount, w.subs)
  }

  ghost predicate Registered(w: World, s: StateId) {
    s in w.nameOf && w.nameOf[s] in w.names && w.names[w.nameOf[s]] == s
  }

  ghost predicate RefsOk(w: World) {
    && (forall n :: n in w.names ==> w.names[n] in w.nameOf && w.nameOf[w.names[n]] == n)
    && (forall r :: r in w.handles ==> Registered(w, w.handles[r]))
    && (forall r :: r in w.subs ==> Registered(w, w.subs[r]))
  }

  ghost predicate ThreadOk(w: World, t: Thread) {
    var pc := PcOf(w, t);
    && (InCall(t) in w.handles <==> pc.Opening? || pc.Closing?)
    && (InCall(t) in w.subs <==> pc.Unsubscribing?)
    && (pc.Subscribing? ==> Object(pc.handle) in w.handles)
    && (pc.Destroying? || pc.SawNoHandles? ==> w.lock == Some(t) && pc.name in w.names)
    && (pc.SawNoHandles? ==> w.names[pc.name] in w.handleCount && w.handleCount[w.names[pc.name]] == 0)
  }

  /** Every count is exact, nothing referenced is unregistered, and every thread's program point tells the truth. */
  ghost predicate Inv(w: World) {
    CountsOk(w) && RefsOk(w) && forall t :: ThreadOk(w, t)
  }

  const Initial := World(map[], map[], map[], map[], map[], map[], map[], None)

  lemma CountNew(count: map<StateId, int>, refs: Refs, made: StateId)
    requires Counted(count, refs) && forall r :: r in refs ==> refs[r] != made
    ensures Counted(count[made := 0], refs)
  {
    assert RefsTo(refs, made) == {};
  }

  lemma NeverMade(w: World, made: StateId)
    requires RefsOk(w) && made !in w.nameOf
    ensures forall r :: r in w.handles ==> w.handles[r] != made
    ensures forall r :: r in w.subs ==> w.subs[r] != made
  {
  }

  /** A state made by an open has no references yet. */
  lemma OpenCounts(w: World, name: Name, made: StateId)
    requires CountsOk(w) && name !in w.names
    requires forall r :: r in w.handles ==> w.handles[r] != made
    requires forall r :: r in w.subs ==> w.subs[r] != made
    ensures CountsOk(Resolved(w, name, made))
  {
    CountNew(w.handleCount, w.handles, made);
    CountNew(w.subCount, w.subs, made);
    KeysAfter(w.handleCount, made, 0);
    KeysAfter(w.subCount, made, 0);
    KeysAfter(w.nameOf, made, name);
  }

  lemma KeysAfter<K, V>(m: map<K, V>, k: K, v: V)
    ensures m[k := v].Keys == m.Keys + {k}
  {
  }

  lemma CountsAfterCall(w: World, t: Thread, s: StateId)
    requires CountsOk(w) && InCall(t) !in w.handles
    ensures var counted := w.(handleCount := Bump(w.handleCount, s, 1), handles := w.handles[InCall(t) := s]);
            CountsOk(Goto(counted, t, Opening))
  {
    CountTaken(w.handleCount, w.handles, InCall(t), s);
  }

  lemma CountsAfterOpen(w: World, t: Thread, name: Name, made: StateId)
    requires CountsOk(w) && RefsOk(w) && InCall(t) !in w.handles && Enabled(w, t, OpenLocked(name, made))
    ensures CountsOk(Do(w, t, OpenLocked(name, made)))
  {
    var w' := Resolved(w, name, made);
    if name !in w.names {
      NeverMade(w, made);
      OpenCounts(w, name, made);
    }
    CountsAfterCall(w', t, w'.names[name]);
  }

  lemma CountsAfterHandles(w: World, t: Thread, step: Step)
    requires CountsOk(w) && ThreadOk(w, t) && Enabled(w, t, step)
    requires step.OpenBuilt? || step.OpenFailed? || step.CloseCalled? || step.CloseCounted?
    ensures CountsOk(Do(w, t, step))
  {
    match step
    case OpenBuilt(h) => CountMoved(w.handleCount, w.handles, InCall(t), Object(h));
    case CloseCalled(h) => CountMoved(w.handleCount, w.handles, Object(h), InCall(t));
    case _ => CountDropped(w.handleCount, w.handles, InCall(t));
  }

  lemma CountsAfterSubscriptions(w: World, t: Thread, step: Step)
    requires CountsOk(w) && ThreadOk(w, t) && Enabled(w, t, step)
    requires step.SubscribeCounted? || step.UnsubscribeCalled? || step.UnsubscribeCounted?
    ensures CountsOk(Do(w, t, step))
  {
    match step
    case SubscribeCounted(i) => CountTaken(w.subCount, w.subs, Object(i), w.handles[Object(PcOf(w, t).handle)]);
    case UnsubscribeCalled(i) => CountMoved(w.subCount, w.subs, Object(i), InCall(t));
    case UnsubscribeCounted => CountDropped(w.subCount, w.subs, InCall(t));
  }

  lemma CountsAfter(w: World, t: Thread, step: Step)
    requires CountsOk(w) && RefsOk(w) && ThreadOk(w, t) && Enabled(w, t, step)
    ensures CountsOk(Do(w, t, step))
  {
    if step.OpenLocked? {
      CountsAfterOpen(w, t, step.name, step.made);
    } else if step.OpenBuilt? || step.OpenFailed? || step.CloseCalled? || step.CloseCounted? {
      CountsAfterHandles(w, t, step);
    } else if step.SubscribeCounted? || step.UnsubscribeCalled? || step.UnsubscribeCounted? {
      CountsAfterSubscriptions(w, t, step);
    } else {
      CountsUntouched(w, t, step);
    }
  }

  lemma CountsUntouched(w: World, t: Thread, step: Step)
    requires CountsOk(w) && Enabled(w, t, step) && (OfDestroy(step) || step.SubscribeBuilt?)
    ensures CountsOk(Do(w, t, step))
  {
    NothingCounted(w, t, step);
    SameCounts(w, Do(w, t, step));
  }

  lemma NothingCounted(w: World, t: Thread, step: Step)
    requires Enabled(w, t, step) && (OfDestroy(step) || step.SubscribeBuilt?)
    ensures var w' := Do(w, t, step);
            && w'.handleCount == w.handleCount && w'.subCount == w.subCount && w'.nameOf == w.nameOf
            && w'.handles == w.handles && w'.subs == w.subs
  {
    match step
    case SubscribeBuilt(_) =>
    case DestroyLocked(_) =>
    case DestroyReadHandles =>
    case DestroyReadSubs =>
  }

  lemma SameCounts(w: World, w': World)
    requires CountsOk(w) && w'.handleCount == w.handleCount && w'.subCount == w.subCount && w'.nameOf == w.nameOf
    requires w'.handles == w.handles && w'.subs == w.subs
    ensures CountsOk(w')
  {
  }

  /** When a destroy removes a state, nothing refers to it any more: the two reads of the counts add up. */
  lemma DestroyedIsUnreferenced(w: World, t: Thread)
    requires CountsOk(w) && ThreadOk(w, t) && Enabled(w, t, DestroyReadSubs)
    ensures var s := w.names[PcOf(w, t).name];
            w.subCount[s] == 0 ==> RefsTo(w.handles, s) == {} && RefsTo(w.subs, s) == {}
  {
  }

  lemma RefsAfterDestroy(w: World, t: Thread)
    requires CountsOk(w) && RefsOk(w) && ThreadOk(w, t) && Enabled(w, t, DestroyReadSubs)
    ensures RefsOk(Do(w, t, DestroyReadSubs))
  {
    var w' := Do(w, t, DestroyReadSubs);
    DestroyedIsUnreferenced(w, t);
    if w'.names == w.names {
      RefsStay(w, w', w.handles, w'.handles);
      RefsStay(w, w', w.subs, w'.subs);
    } else {
      OthersStay(w, w', PcOf(w, t).name, w.handles);
      OthersStay(w, w', PcOf(w, t).name, w.subs);
    }
  }

  lemma OthersStay(w: World, w': World, name: Name, refs: Refs)
    requires w'.nameOf == w.nameOf && w'.names == w.names - {name}
    requires forall r :: r in refs ==> Registered(w, refs[r])
    requires name in w.names && RefsTo(refs, w.names[name]) == {}
    ensures forall r :: r in refs ==> Registered(w', refs[r])
  {
    forall r | r in refs ensures Registered(w', refs[r]) {
      assert r !in RefsTo(refs, w.names[name]);
    }
  }

  lemma ResolvedRegisters(w: World, name: Name, made: StateId)
    requires RefsOk(w) && made !in w.nameOf
    ensures var w' := Resolved(w, name, made);
            && RefsOk(w') && Registered(w', w'.names[name])
            && w'.handles == w.handles && w'.subs == w.subs
  {
    if name !in w.names {
      var w' := Resolved(w, name, made);
      assert forall s :: Registered(w, s) ==> Registered(w', s);
    }
  }

  lemma RefsAfterOpen(w: World, t: Thread, name: Name, made: StateId)
    requires RefsOk(w) && Enabled(w, t, OpenLocked(name, made))
    ensures RefsOk(Do(w, t, OpenLocked(name, made)))
  {
    ResolvedRegisters(w, name, made);
    var w', after := Resolved(w, name, made), Do(w, t, OpenLocked(name, made));
    RefsStay(w', after, w'.handles, after.handles);
    RefsStay(w', after, w'.subs, after.subs);
  }

  /** No other step but the last of a destroy touches the registry, and references only move or go. */
  lemma RefsAfter(w: World, t: Thread, step: Step)
    requires RefsOk(w) && ThreadOk(w, t) && Enabled(w, t, step) && !step.DestroyReadSubs?
    ensures RefsOk(Do(w, t, step))
  {
    if step.OpenLocked? {
      RefsAfterOpen(w, t, step.name, step.made);
    } else {
      RefsAfterOther(w, t, step);
    }
  }

  lemma NamesAfterOther(w: World, t: Thread, step: Step)
    requires Enabled(w, t, step) && !step.DestroyReadSubs? && !step.OpenLocked?
    ensures Do(w, t, step).names == w.names && Do(w, t, step).nameOf == w.nameOf
  {
  }

  lemma HandlesAfterOther(w: World, t: Thread, step: Step)
    requires Enabled(w, t, step) && !step.OpenLocked?
    ensures var w' := Do(w, t, step); forall r :: r in w'.handles ==> w'.handles[r] in w.handles.Values
  {
  }

  lemma SubsAfterOther(w: World, t: Thread, step: Step)
    requires Enabled(w, t, step)
    ensures var w' := Do(w, t, step);
            forall r :: r in w'.subs ==> w'.subs[r] in w.subs.Values || w'.subs[r] in w.handles.Values
  {
  }

  lemma RefsAfterOther(w: World, t: Thread, step: Step)
    requires RefsOk(w) && ThreadOk(w, t) && Enabled(w, t, step) && !step.DestroyReadSubs? && !step.OpenLocked?
    ensures RefsOk(Do(w, t, step))
  {
    NamesAfterOther(w, t, step);
    HandlesAfterOther(w, t, step);
    SubsAfterOther(w, t, step);
    var w' := Do(w, t, step);
    RefsStay(w, w', w.handles, w'.handles);
    RefsStay(w, w', w.subs, w'.subs);
  }

  lemma RefsStay(w: World, w': World, refs: Refs, refs': Refs)
    requires w'.names == w.names && w'.nameOf == w.nameOf
    requires forall r :: r in refs ==> Registered(w, refs[r])
    requires forall r :: r in refs' ==> Registered(w, refs'[r])
    ensures forall r :: r in refs' ==> Registered(w', refs'[r])
  {
  }

  ghost predicate OfDestroy(step: Step) {
    step.DestroyLocked? || step.DestroyReadHandles? || step.DestroyReadSubs?
  }

  lemma OwnThreadAfterCall(w: World, t: Thread, step: Step)
    requires ThreadOk(w, t) && Enabled(w, t, step) && !OfDestroy(step)
    ensures ThreadOk(Do(w, t, step), t)
  {
  }

  lemma OwnThreadAfterDestroy(w: World, t: Thread, step: Step)
    requires ThreadOk(w, t) && Enabled(w, t, step) && OfDestroy(step)
    ensures ThreadOk(Do(w, t, step), t)
  {
  }

  lemma OwnThreadAfter(w: World, t: Thread, step: Step)
    requires ThreadOk(w, t) && Enabled(w, t, step)
    ensures ThreadOk(Do(w, t, step), t)
  {
    if OfDestroy(step) {
      OwnThreadAfterDestroy(w, t, step);
    } else {
      OwnThreadAfterCall(w, t, step);
    }
  }

  /** A step leaves the program point of every other thread, what it has counted, and the handle it subscribes to. */
  lemma OthersPc(w: World, t: Thread, step: Step, u: Thread)
    requires Enabled(w, t, step) && u != t
    ensures PcOf(Do(w, t, step), u) == PcOf(w, u)
  {
  }

  lemma OthersHandleCall(w: World, t: Thread, step: Step, u: Thread)
    requires Enabled(w, t, step) && u != t
    ensures InCall(u) in Do(w, t, step).handles <==> InCall(u) in w.handles
  {
  }

  lemma OthersSubscriptionCall(w: World, t: Thread, step: Step, u: Thread)
    requires Enabled(w, t, step) && u != t
    ensures InCall(u) in Do(w, t, step).subs <==> InCall(u) in w.subs
  {
  }

  lemma OthersHandle(w: World, t: Thread, step: Step, u: Thread)
    requires Enabled(w, t, step) && PcOf(w, u).Subscribing? && Object(PcOf(w, u).handle) in w.handles
    ensures Object(PcOf(w, u).handle) in Do(w, t, step).handles
  {
  }

  /** Only the owner of the lock takes a name away or gives the lock up. */
  lemma OthersLock(w: World, t: Thread, step: Step, u: Thread, name: Name)
    requires Enabled(w, t, step) && u != t && ThreadOk(w, t) && w.lock == Some(u) && name in w.names
    ensures Do(w, t, step).lock == Some(u) && name in Do(w, t, step).names
  {
  }

  lemma OtherThreadAfter(w: World, t: Thread, step: Step, u: Thread)
    requires ThreadOk(w, t) && ThreadOk(w, u) && Enabled(w, t, step) && u != t && !PcOf(w, u).SawNoHandles?
    ensures ThreadOk(Do(w, t, step), u)
  {
    var pc := PcOf(w, u);
    OthersPc(w, t, step, u);
    OthersHandleCall(w, t, step, u);
    OthersSubscriptionCall(w, t, step, u);
    if pc.Subscribing? {
      OthersHandle(w, t, step, u);
    } else if pc.Destroying? {
      OthersLock(w, t, step, u, pc.name);
    }
  }

  /**
   A destroy that has read zero handles keeps the lock, so nobody can open the name again before it reads the other
   count.
   */
  lemma DestroyerAfter(w: World, t: Thread, step: Step, u: Thread)
    requires CountsOk(w) && ThreadOk(w, t) && ThreadOk(w, u) && Enabled(w, t, step) && u != t
             && PcOf(w, u).SawNoHandles?
    ensures ThreadOk(Do(w, t, step), u)
  {
    var s := w.names[PcOf(w, u).name];
    assert RefsTo(w.handles, s) == {};
    assert InCall(t) in w.handles ==> InCall(t) in RefsTo(w.handles, w.handles[InCall(t)]);
  }

  lemma InvAfter(w: World, t: Thread, step: Step)
    requires Inv(w) && Enabled(w, t, step)
    ensures Inv(Do(w, t, step))
  {
    assert ThreadOk(w, t);
    CountsAfter(w, t, step);
    if step.DestroyReadSubs? {
      RefsAfterDestroy(w, t);
    } else {
      RefsAfter(w, t, step);
    }
    forall u ensures ThreadOk(Do(w, t, step), u) {
      if u == t {
        OwnThreadAfter(w, t, step);
      } else if PcOf(w, u).SawNoHandles? {
        DestroyerAfter(w, t, step, u);
      } else {
        OtherThreadAfter(w, t, step, u);
      }
    }
  }

  /** The states of an interleaving: any threads, any steps, any number of them. */
  ghost predicate IsRun(worlds: seq<World>, schedule: seq<(Thread, Step)>) {
    && |worlds| == |schedule| + 1
    && worlds[0] == Initial
    && forall i :: 0 <= i < |schedule| ==>
         Enabled(worlds[i], schedule[i].0, schedule[i].1)
             && worlds[i + 1] == Do(worlds[i], schedule[i].0, schedule[i].1)
  }

  lemma {:induction false} RunInv(worlds: seq<World>, schedule: seq<(Thread, Step)>)
    requires IsRun(worlds, schedule)
    ensures Inv(worlds[|schedule|])
  {
    if schedule != [] {
      var n := |schedule| - 1;
      RunInv(worlds[..n + 1], schedule[..n]);
      InvAfter(worlds[n], schedule[n].0, schedule[n].1);
    }
  }

  function LiveObjects(refs: Refs, s: StateId): set<nat> {
    set r | r in RefsTo(refs, s) && r.Object? :: r.id
  }

  ghost predicate Quiescent(w: World) {
    forall t :: PcOf(w, t).Idle?
  }

  /** Over every run each count covers the live objects, exactly when no call is half done. */
  lemma CountsCoverLiveObjects(worlds: seq<World>, schedule: seq<(Thread, Step)>, s: StateId)
    requires IsRun(worlds, schedule) && s in worlds[|schedule|].nameOf
    ensures var w := worlds[|schedule|];
            && s in w.handleCount && s in w.subCount
            && w.handleCount[s] >= |LiveObjects(w.handles, s)| && w.subCount[s] >= |LiveObjects(w.subs, s)|
            && (Quiescent(w) ==>
                  && w.handleCount[s] == |LiveObjects(w.handles, s)|
                  && w.subCount[s] == |LiveObjects(w.subs, s)|)
  {
    RunInv(worlds, schedule);
    var w := worlds[|schedule|];
    ObjectsAmongRefs(LiveObjects(w.handles, s), RefsTo(w.handles, s));
    ObjectsAmongRefs(LiveObjects(w.subs, s), RefsTo(w.subs, s));
    if Quiescent(w) {
      forall r | r in w.handles || r in w.subs ensures r.Object? {
        assert r.InCall? ==> ThreadOk(w, r.thread);
      }
    }
  }

  lemma {:induction false} ObjectsAmongRefs(ids: set<nat>, refs: set<Ref>)
    requires forall i :: i in ids <==> Object(i) in refs
    ensures |refs| >= |ids|
    ensures (forall r :: r in refs ==> r.Object?) ==> |refs| == |ids|
  {
    if ids == {} {
      if forall r :: r in refs ==> r.Object? {
        assert refs == {};
      }
    } else {
      var x :| x in ids;
      ObjectsAmongRefs(ids - {x}, refs - {Object(x)});
    }
  }

  /** All live handles of one name share one state. */
  lemma OneStatePerName(worlds: seq<World>, schedule: seq<(Thread, Step)>, h1: nat, h2: nat)
    requires IsRun(worlds, schedule)
    requires var w := worlds[|schedule|]; Object(h1) in w.handles && Object(h2) in w.handles
    ensures var w := worlds[|schedule|];
            var s1, s2 := w.handles[Object(h1)], w.handles[Object(h2)];
            && s1 in w.nameOf && s2 in w.nameOf
            && (w.nameOf[s1] == w.nameOf[s2] ==> s1 == s2)
  {
    RunInv(worlds, schedule);
  }

  /**
   A destroy that removes a name removes a state with no live handle, no live subscription, and no call under way that
   would make one.
   */
  lemma DestroyIsSafe(worlds: seq<World>, schedule: seq<(Thread, Step)>, t: Thread, step: Step, name: Name)
    requires IsRun(worlds, schedule) && Enabled(worlds[|schedule|], t, step)
    requires var w := worlds[|schedule|]; name in w.names && name !in Do(w, t, step).names
    ensures var w := worlds[|schedule|];
            && (forall r :: r in w.handles ==> w.handles[r] != w.names[name])
            && (forall r :: r in w.subs ==> w.subs[r] != w.names[name])
            && (forall u :: PcOf(w, u).Subscribing? ==>
                  Object(PcOf(w, u).handle) in w.handles && w.handles[Object(PcOf(w, u).handle)] != w.names[name])
  {
    RunInv(worlds, schedule);
    var w := worlds[|schedule|];
    var s := w.names[name];
    assert ThreadOk(w, t);
    DestroyedIsUnreferenced(w, t);
    forall r | r in w.handles ensures w.handles[r] != s { assert r !in RefsTo(w.handles, s); }
    forall r | r in w.subs ensures w.subs[r] != s { assert r !in RefsTo(w.subs, s); }
    forall u | PcOf(w, u).Subscribing? ensures Object(PcOf(w, u).handle) in w.handles { assert ThreadOk(w, u); }
  }

  // ---- what a call achieves, whatever the others do meanwhile ----

  /** No step from i up to j is the thread's own. */
  ghost predicate Waits(schedule: seq<(Thread, Step)>, i: nat, j: nat, t: Thread) {
    j <= |schedule| && forall k :: i <= k < j ==> schedule[k].0 != t
  }

  lemma OtherStep(worlds: seq<World>, schedule: seq<(Thread, Step)>, k: nat, t: Thread)
    requires IsRun(worlds, schedule) && k < |schedule| && schedule[k].0 != t
    ensures PcOf(worlds[k + 1], t) == PcOf(worlds[k], t)
  {
    OthersPc(worlds[k], schedule[k].0, schedule[k].1, t);
  }

  lemma {:induction false} PcKept(worlds: seq<World>, schedule: seq<(Thread, Step)>, i: nat, j: nat, t: Thread)
    requires IsRun(worlds, schedule) && i <= j && Waits(schedule, i, j, t)
    ensures PcOf(worlds[j], t) == PcOf(worlds[i], t)
  {
    if i < j {
      var k := j - 1;
      PcKept(worlds, schedule, i, k, t);
      OtherStep(worlds, schedule, k, t);
    }
  }

  /** An open has counted a reference to the state of this name. */
  ghost predicate Holding(w: World, t: Thread, name: Name) {
    && InCall(t) in w.handles && w.handles[InCall(t)] in w.nameOf
    && w.nameOf[w.handles[InCall(t)]] == name
  }

  lemma OtherKeepsHolding(w: World, u: Thread, step: Step, t: Thread, name: Name)
    requires Enabled(w, u, step) && u != t && Holding(w, t, name)
    ensures Holding(Do(w, u, step), t, name)
  {
  }

  lemma {:induction false} HoldingKept(worlds: seq<World>, schedule: seq<(Thread, Step)>, i: nat, j: nat, t: Thread,
                                       name: Name)
    requires IsRun(worlds, schedule) && i <= j && Waits(schedule, i, j, t) && Holding(worlds[i], t, name)
    ensures Holding(worlds[j], t, name)
  {
    if i < j {
      HoldingKept(worlds, schedule, i, j - 1, t, name);
      OtherKeepsHolding(worlds[j - 1], schedule[j - 1].0, schedule[j - 1].1, t, name);
    }
  }

  lemma OpenHolds(w: World, t: Thread, name: Name, made: StateId)
    requires RefsOk(w) && Enabled(w, t, OpenLocked(name, made))
    ensures Holding(Do(w, t, OpenLocked(name, made)), t, name)
  {
  }

  lemma {:induction false} InvAt(worlds: seq<World>, schedule: seq<(Thread, Step)>, i: nat)
    requires IsRun(worlds, schedule) && i <= |schedule|
    ensures Inv(worlds[i])
  {
    RunInv(worlds[..i + 1], schedule[..i]);
  }

  /**
   An open hands out the state that is registered under its name when the handle is built, though others may open, close
   and try to destroy the name between its two steps.
   */
  lemma OpenHandsOut(worlds: seq<World>, schedule: seq<(Thread, Step)>, i: nat, j: nat, t: Thread, name: Name,
                     made: StateId, handle: nat)
    requires IsRun(worlds, schedule) && i < j < |schedule| && Waits(schedule, i + 1, j, t)
    requires schedule[i] == (t, OpenLocked(name, made)) && schedule[j] == (t, OpenBuilt(handle))
    ensures var w := worlds[j + 1];
            && name in w.names && Object(handle) in w.handles && w.handles[Object(handle)] == w.names[name]
  {
    InvAt(worlds, schedule, i);
    OpenHolds(worlds[i], t, name, made);
    HoldingKept(worlds, schedule, i + 1, j, t, name);
    InvAt(worlds, schedule, j);
    assert Registered(worlds[j], worlds[j].handles[InCall(t)]);
  }

  /**
   A destroy that reads no handles and then no subscriptions removes its name and no other; one that finds a handle or a
   subscription removes nothing.
   */
  lemma DestroyRemoves(worlds: seq<World>, schedule: seq<(Thread, Step)>, i: nat, j: nat, k: nat, t: Thread, name: Name)
    requires IsRun(worlds, schedule) && i < j < k < |schedule|
    requires Waits(schedule, i + 1, j, t) && Waits(schedule, j + 1, k, t)
    requires schedule[i] == (t, DestroyLocked(name)) && schedule[j] == (t, DestroyReadHandles)
    requires schedule[k] == (t, DestroyReadSubs)
    ensures var w, w' := worlds[k], worlds[k + 1];
            && name in worlds[j].names && worlds[j].names[name] in worlds[j].handleCount
            && worlds[j].handleCount[worlds[j].names[name]] == 0
            && name in w.names && w.names[name] in w.subCount
            && w'.names == (if w.subCount[w.names[name]] == 0 then w.names - {name} else w.names)
            && w'.lock.None? && PcOf(w', t).Idle?
  {
    PcKept(worlds, schedule, i + 1, j, t);
    assert PcOf(worlds[j], t) == Destroying(name);
    PcKept(worlds, schedule, j + 1, k, t);
    assert PcOf(worlds[k], t) == SawNoHandles(name);
  }

  lemma DestroyRefused(worlds: seq<World>, schedule: seq<(Thread, Step)>, i: nat, j: nat, t: Thread, name: Name)
    requires IsRun(worlds, schedule) && i < j < |schedule| && Waits(schedule, i + 1, j, t)
    requires schedule[i] == (t, DestroyLocked(name)) && schedule[j] == (t, DestroyReadHandles)
    ensures var w, w' := worlds[j], worlds[j + 1];
            && name in w.names && w.names[name] in w.handleCount && w'.names == w.names
            && if w.handleCount[w.names[name]] != 0 then w'.lock.None? && PcOf(w', t).Idle?
               else PcOf(w', t) == SawNoHandles(name)
  {
    PcKept(worlds, schedule, i + 1, j, t);
    assert PcOf(worlds[j], t) == Destroying(name);
  }

  /** A subscription refers to the state of the handle it was made from. */
  lemma SubscribeHandsOut(worlds: seq<World>, schedule: seq<(Thread, Step)>, i: nat, j: nat, t: Thread, handle: nat,
                          sub: nat)
    requires IsRun(worlds, schedule) && i < j < |schedule| && Waits(schedule, i + 1, j, t)
    requires schedule[i] == (t, SubscribeBuilt(handle)) && schedule[j] == (t, SubscribeCounted(sub))
    ensures var w := worlds[j + 1];
            && Object(handle) in w.handles && Object(sub) in w.subs
            && w.subs[Object(sub)] == w.handles[Object(handle)]
  {
    PcKept(worlds, schedule, i + 1, j, t);
    assert PcOf(worlds[j], t) == Subscribing(handle);
  }
}
