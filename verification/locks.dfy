/**
 The lock order of the ExternalObject adapter. A call takes the table lock, resolves its handle and, still holding it,
 waits for the slot's operation lock; only then does it let the table go and use the database. Closing and terminating
 keep both locks. Handles are resolved by Handles.SlotTable; here a slot is only open (which database) or free.
 */
module Locks {
  import opened Common

  type DatabaseId = nat

  datatype Call = Operate(slot: nat) | Open(database: DatabaseId) | Close(slot: nat) | Terminate

  datatype Pc =
    | Idle
    | WantTable(call: Call)
    | HasTable(call: Call)                      // the table lock, nothing else
    | WantSlot(slot: nat)                       // the table lock, waiting for an operation lock
    | Using(slot: nat, database: DatabaseId)    // the operation lock only
    | WantClose(slot: nat)                      // close: the table lock, waiting for the operation lock
    | Closing(slot: nat)                        // close: both locks
    | Sweeping(next: nat)                       // terminate: the table lock, about to wait for slot `next`
    | SweepClosing(slot: nat)                   // terminate: both locks

  datatype World = World(table: Option<nat>, locks: seq<Option<nat>>, databases: seq<Option<DatabaseId>>, pcs: seq<Pc>)

  /** A thread either starts a call or goes on with the one it is in. */
  datatype Step = Start(call: Call) | Advance

  ghost predicate WellFormed(w: World) {
    |w.locks| == |w.databases| && forall t :: 0 <= t < |w.pcs| ==> SlotsOf(w.pcs[t], |w.locks|)
  }

  predicate SlotsOf(pc: Pc, count: nat) {
    match pc
    case WantTable(call) => (call.Operate? || call.Close?) ==> call.slot < count
    case HasTable(call) => (call.Operate? || call.Close?) ==> call.slot < count
    case WantSlot(s) => s < count
    case Using(s, _) => s < count
    case WantClose(s) => s < count
    case Closing(s) => s < count
    case Sweeping(n) => n <= count
    case SweepClosing(s) => s < count
    case Idle => true
  }

  /** The slot whose operation lock a thread is about to take, if that is what it does next. */
  function Awaits(pc: Pc, count: nat): Option<nat> {
    match pc
    case WantSlot(s) => Some(s)
    case WantClose(s) => Some(s)
    case Sweeping(n) => if n < count then Some(n) else None
    case _ => None
  }

  ghost predicate Enabled(w: World, t: nat, step: Step) {
    && t < |w.pcs|
    && WellFormed(w)
    && match step
       case Start(call) => w.pcs[t].Idle? && ((call.Operate? || call.Close?) ==> call.slot < |w.locks|)
       case Advance =>
         && !w.pcs[t].Idle?
         && (w.pcs[t].WantTable? ==> w.table.None?)
         && (Awaits(w.pcs[t], |w.locks|).Some? ==> w.locks[Awaits(w.pcs[t], |w.locks|).value].None?)
  }

  function FirstFree(databases: seq<Option<DatabaseId>>, from: nat): (index: nat)
    requires from <= |databases|
    ensures from <= index <= |databases|
    ensures index < |databases| ==> databases[index].None?
    decreases |databases| - from
  {
    if from == |databases| || databases[from].None? then from else FirstFree(databases, from + 1)
  }

  function Do(w: World, t: nat, step: Step): World
    requires Enabled(w, t, step)
  {
    match step
    case Start(call) => w.(pcs := w.pcs[t := WantTable(call)])
    case Advance =>
      match w.pcs[t]
      case WantTable(call) => w.(table := Some(t), pcs := w.pcs[t := HasTable(call)])
      case HasTable(call) => DoCall(w, t, call)
      case WantSlot(s) =>
        w.(table := None, locks := w.locks[s := Some(t)],
           pcs := w.pcs[t := Using(s, if w.databases[s].Some? then w.databases[s].value else 0)])
      case Using(s, _) => w.(locks := w.locks[s := None], pcs := w.pcs[t := Idle])
      case WantClose(s) => w.(locks := w.locks[s := Some(t)], pcs := w.pcs[t := Closing(s)])
      case Closing(s) =>
        World(None, w.locks[s := None], w.databases[s := None], w.pcs[t := Idle])
      case Sweeping(n) =>
        if n < |w.locks| then w.(locks := w.locks[n := Some(t)], pcs := w.pcs[t := SweepClosing(n)])
        else w.(table := None, pcs := w.pcs[t := Idle])
      case SweepClosing(s) =>
        w.(locks := w.locks[s := None], databases := w.databases[s := None], pcs := w.pcs[t := Sweeping(s + 1)])
  }

  /** What a call does once it has the table lock. A handle that does not resolve ends the call. */
  function DoCall(w: World, t: nat, call: Call): World
    requires t < |w.pcs| && WellFormed(w) && w.pcs[t] == HasTable(call)
  {
    match call
    case Operate(s) => if w.databases[s].Some? then w.(pcs := w.pcs[t := WantSlot(s)])
        else w.(table := None, pcs := w.pcs[t := Idle])
    case Close(s) => if w.databases[s].Some? then w.(pcs := w.pcs[t := WantClose(s)])
        else w.(table := None, pcs := w.pcs[t := Idle])
    case Open(db) =>
      var i := FirstFree(w.databases, 0);
      w.(table := None, pcs := w.pcs[t := Idle], databases := if i < |w.databases| then w.databases[i := Some(db)]
          else w.databases)
    case Terminate => w.(pcs := w.pcs[t := Sweeping(0)])
  }

  predicate HoldsTable(pc: Pc) {
    pc.HasTable? || pc.WantSlot? || pc.WantClose? || pc.Closing? || pc.Sweeping? || pc.SweepClosing?
  }

  function HeldSlot(pc: Pc): Option<nat> {
    if pc.Using? || pc.Closing? || pc.SweepClosing? then Some(pc.slot) else None
  }

  /** A lock is held by exactly the thread whose call says so; a database in use, or about to be, is open. */
  ghost predicate ThreadOk(w: World, t: nat)
    requires t < |w.pcs| && WellFormed(w)
  {
    var pc := w.pcs[t];
    && (HoldsTable(pc) <==> w.table == Some(t))
    && (forall s :: 0 <= s < |w.locks| ==> (w.locks[s] == Some(t) <==> HeldSlot(pc) == Some(s)))
    && (pc.WantSlot? ==> w.databases[pc.slot].Some?)
    && (pc.Using? ==> w.databases[pc.slot] == Some(pc.database))
  }

  ghost predicate Inv(w: World) {
    && WellFormed(w)
    && OwnersExist(w)
    && forall t :: 0 <= t < |w.pcs| ==> ThreadOk(w, t)
  }

  lemma OtherThreadOk(w: World, t: nat, step: Step, u: nat)
    requires Inv(w) && Enabled(w, t, step) && u < |w.pcs| && u != t
    requires WellFormed(Do(w, t, step))
    ensures ThreadOk(Do(w, t, step), u)
  {
    assert ThreadOk(w, t) && ThreadOk(w, u);
  }

  lemma OwnThreadOk(w: World, t: nat, step: Step)
    requires Inv(w) && Enabled(w, t, step)
    requires WellFormed(Do(w, t, step))
    ensures ThreadOk(Do(w, t, step), t)
  {
    assert ThreadOk(w, t);
  }

  /** Whoever owns a lock is a thread of the world. */
  ghost predicate OwnersExist(w: World) {
    && (w.table.Some? ==> w.table.value < |w.pcs|)
    && (forall s :: 0 <= s < |w.locks| && w.locks[s].Some? ==> w.locks[s].value < |w.pcs|)
  }

  lemma WellFormedAfter(w: World, t: nat, step: Step)
    requires WellFormed(w) && Enabled(w, t, step)
    ensures WellFormed(Do(w, t, step)) && |Do(w, t, step).pcs| == |w.pcs|
  {
  }

  lemma OwnersAfter(w: World, t: nat, step: Step)
    requires WellFormed(w) && OwnersExist(w) && Enabled(w, t, step)
    ensures OwnersExist(Do(w, t, step))
  {
  }

  lemma InvAfter(w: World, t: nat, step: Step)
    requires Inv(w) && Enabled(w, t, step)
    ensures Inv(Do(w, t, step))
  {
    var w' := Do(w, t, step);
    WellFormedAfter(w, t, step);
    OwnersAfter(w, t, step);
    OwnThreadOk(w, t, step);
    forall u | 0 <= u < |w'.pcs| ensures ThreadOk(w', u) {
      if u != t {
        OtherThreadOk(w, t, step, u);
      }
    }
  }

  ghost predicate IsRun(worlds: seq<World>, schedule: seq<(nat, Step)>) {
    && |worlds| == |schedule| + 1
    && forall i :: 0 <= i < |schedule| ==>
         Enabled(worlds[i], schedule[i].0, schedule[i].1)
             && worlds[i + 1] == Do(worlds[i], schedule[i].0, schedule[i].1)
  }

  ghost predicate Initial(w: World) {
    && |w.locks| == |w.databases|
    && w.table.None?
    && (forall s :: 0 <= s < |w.locks| ==> w.locks[s].None?)
    && (forall t :: 0 <= t < |w.pcs| ==> w.pcs[t].Idle?)
  }

  lemma {:induction false} RunInv(worlds: seq<World>, schedule: seq<(nat, Step)>)
    requires IsRun(worlds, schedule) && Initial(worlds[0])
    ensures Inv(worlds[|schedule|])
  {
    if schedule != [] {
      var n := |schedule| - 1;
      RunInv(worlds[..n + 1], schedule[..n]);
      InvAfter(worlds[n], schedule[n].0, schedule[n].1);
    }
  }

  /**
   Over every interleaving, a database is never closed or replaced under a call that is using it, and has one user at
   a time.
   */
  lemma NeverClosedInUse(worlds: seq<World>, schedule: seq<(nat, Step)>, t: nat, u: nat)
    requires IsRun(worlds, schedule) && Initial(worlds[0])
    requires var w := worlds[|schedule|]; t < |w.pcs| && u < |w.pcs| && w.pcs[t].Using?
    ensures var w := worlds[|schedule|];
            && w.pcs[t].slot < |w.databases| && w.databases[w.pcs[t].slot] == Some(w.pcs[t].database)
            && (t != u && w.pcs[u].Using? ==> w.pcs[u].slot != w.pcs[t].slot)
  {
    RunInv(worlds, schedule);
    var w := worlds[|schedule|];
    assert ThreadOk(w, t) && ThreadOk(w, u);
    assert w.locks[w.pcs[t].slot] == Some(t);
    if w.pcs[u].Using? {
      assert w.locks[w.pcs[u].slot] == Some(u);
    }
  }

  /**
   What a thread that cannot go on waits for: the table's holder, or the holder of the slot lock it is about to take.
   */
  ghost predicate WaitsFor(w: World, t: nat, u: nat)
    requires t < |w.pcs| && WellFormed(w)
  {
    || (w.pcs[t].WantTable? && w.table == Some(u))
    || (Awaits(w.pcs[t], |w.locks|).Some? && w.locks[Awaits(w.pcs[t], |w.locks|).value] == Some(u))
  }

  lemma BlockedWaits(w: World, t: nat) returns (u: nat)
    requires Inv(w) && t < |w.pcs| && !w.pcs[t].Idle? && !Enabled(w, t, Advance)
    ensures u < |w.pcs| && WaitsFor(w, t, u) && !w.pcs[u].Idle? && !w.pcs[u].WantTable?
    ensures !w.pcs[t].WantTable? ==> Enabled(w, u, Advance)
  {
    assert ThreadOk(w, t);
    if w.pcs[t].WantTable? {
      u := w.table.value;
    } else {
      u := w.locks[Awaits(w.pcs[t], |w.locks|).value].value;
    }
    assert ThreadOk(w, u);
  }

  /**
   No deadlock: in every reachable state each thread in a call can go on, or waits for a thread that can, or for the
   table holder who waits for one that can. The chain is never longer, because nobody asks for the table holding a slot.
   */
  lemma SomebodyCanGoOn(worlds: seq<World>, schedule: seq<(nat, Step)>, t: nat) returns (holder: nat, runner: nat)
    requires IsRun(worlds, schedule) && Initial(worlds[0])
    requires t < |worlds[|schedule|].pcs| && !worlds[|schedule|].pcs[t].Idle?
    ensures var w := worlds[|schedule|];
            && WellFormed(w) && holder < |w.pcs|
            && Enabled(w, runner, Advance)
            && (holder == t || (w.pcs[t].WantTable? && WaitsFor(w, t, holder)))
            && (runner == holder || WaitsFor(w, holder, runner))
  {
    RunInv(worlds, schedule);
    var w := worlds[|schedule|];
    holder, runner := t, t;
    if !Enabled(w, t, Advance) {
      var u := BlockedWaits(w, t);
      if !w.pcs[t].WantTable? {
        return t, u;
      }
      holder, runner := u, u;
      if !Enabled(w, u, Advance) {
        runner := BlockedWaits(w, u);
      }
    }
  }

  // ---- what a call achieves ----

  /** A thread goes on by itself from one state to the next. */
  ghost predicate Alone(worlds: seq<World>, t: nat) {
    forall i :: 0 <= i < |worlds| - 1 ==> Enabled(worlds[i], t, Advance) && worlds[i + 1] == Do(worlds[i], t, Advance)
  }

  /** What a call does to the open databases. */
  ghost predicate Served(before: seq<Option<DatabaseId>>, after: seq<Option<DatabaseId>>, call: Call) {
    match call
    case Operate(_) => after == before
    case Close(s) => s < |before| && after == before[s := None]
    case Open(db) =>
      if forall i :: 0 <= i < |before| ==> before[i].Some? then after == before
      else exists i :: 0 <= i < |before| && before[i].None? && (forall k :: 0 <= k < i ==> before[k].Some?)
                       && after == before[i := Some(db)]
    case Terminate => |after| == |before| && forall i :: 0 <= i < |after| ==> after[i].None?
  }

  ghost predicate AllFree(w: World) {
    w.table.None? && forall s :: 0 <= s < |w.locks| ==> w.locks[s].None?
  }

  lemma {:induction false} FirstFreeIsFirst(databases: seq<Option<DatabaseId>>, from: nat)
    requires from <= |databases|
    ensures forall k :: from <= k < FirstFree(databases, from) ==> databases[k].Some?
    decreases |databases| - from
  {
    if from < |databases| && databases[from].Some? {
      FirstFreeIsFirst(databases, from + 1);
    }
  }

  /** The rest of a termination, from slot n on. */
  lemma {:induction false} SweepAlone(w: World, t: nat, n: nat) returns (worlds: seq<World>)
    requires WellFormed(w) && t < |w.pcs| && w.pcs[t] == Sweeping(n)
    requires forall s :: n <= s < |w.locks| ==> w.locks[s].None?
    requires forall s :: 0 <= s < n ==> w.databases[s].None?
    ensures worlds != [] && worlds[0] == w && Alone(worlds, t)
    ensures var w' := worlds[|worlds| - 1];
            && w'.table.None? && w'.locks == w.locks && w'.pcs == w.pcs[t := Idle]
            && |w'.databases| == |w.databases| && forall s :: 0 <= s < |w'.databases| ==> w'.databases[s].None?
    decreases |w.locks| - n
  {
    var w1 := Do(w, t, Advance);
    if n == |w.locks| {
      return [w, w1];
    }
    var w2 := Do(w1, t, Advance);
    assert w2.locks == w.locks;
    var rest := SweepAlone(w2, t, n + 1);
    worlds := [w, w1] + rest;
    JoinAlone(w, w1, rest, t);
    assert w2.pcs[t := Idle] == w.pcs[t := Idle];
  }

  lemma JoinAlone(w: World, w1: World, rest: seq<World>, t: nat)
    requires rest != [] && Alone(rest, t)
    requires Enabled(w, t, Advance) && w1 == Do(w, t, Advance)
    requires Enabled(w1, t, Advance) && rest[0] == Do(w1, t, Advance)
    ensures Alone([w, w1] + rest, t)
  {
    var worlds := [w, w1] + rest;
    forall i | 0 <= i < |worlds| - 1
      ensures Enabled(worlds[i], t, Advance) && worlds[i + 1] == Do(worlds[i], t, Advance)
    {
      if i >= 2 {
        assert worlds[i] == rest[i - 2] && worlds[i + 1] == rest[i - 2 + 1];
      }
    }
  }

  /**
   A call that finds the locks free goes through by itself, gives every lock back, and does what it is for: an operation
   uses the database of the slot it names, if it is open, and changes none; a close, an open and a termination change
   exactly what they say. Every state on the way is one that other threads may meet.
   */
  lemma CallAlone(w: World, t: nat, call: Call) returns (worlds: seq<World>)
    requires Inv(w) && t < |w.pcs| && AllFree(w) && Enabled(w, t, Start(call))
    ensures worlds != [] && worlds[0] == Do(w, t, Start(call)) && Alone(worlds, t)
    ensures var w' := worlds[|worlds| - 1];
            && w'.pcs == w.pcs && w'.table.None? && w'.locks == w.locks
            && Served(w.databases, w'.databases, call)
    ensures call.Operate? && w.databases[call.slot].Some? ==>
              exists i :: 0 <= i < |worlds| && worlds[i].pcs[t] == Using(call.slot, w.databases[call.slot].value)
  {
    var w1 := Do(w, t, Start(call));
    var w2 := Do(w1, t, Advance);
    var w3 := Do(w2, t, Advance);
    match call
    case Operate(s) =>
      worlds := OperateAlone(w, w1, w2, t, s);
    case Close(s) =>
      worlds := CloseAlone(w, w1, w2, t, s);
    case Open(db) =>
      worlds := [w1, w2, w3];
      FirstFreeIsFirst(w.databases, 0);
      assert w3.pcs == w.pcs;
    case Terminate =>
      var rest := SweepAlone(w3, t, 0);
      worlds := [w1, w2] + rest;
      JoinAlone(w1, w2, rest, t);
      assert w3.pcs[t := Idle] == w.pcs;
  }

  lemma OperateAlone(w: World, w1: World, w2: World, t: nat, s: nat) returns (worlds: seq<World>)
    requires WellFormed(w) && t < |w.pcs| && AllFree(w) && w.pcs[t].Idle? && s < |w.locks|
    requires w1 == w.(pcs := w.pcs[t := WantTable(Operate(s))])
    requires w2 == w.(table := Some(t), pcs := w.pcs[t := HasTable(Operate(s))])
    ensures worlds != [] && worlds[0] == w1 && Alone(worlds, t) && worlds[|worlds| - 1] == w
    ensures w.databases[s].Some? ==>
              exists i :: 0 <= i < |worlds| && worlds[i].pcs[t] == Using(s, w.databases[s].value)
  {
    var w3 := Do(w2, t, Advance);
    if w.databases[s].None? {
      assert w3 == w;
      return [w1, w2, w3];
    }
    var w4 := Do(w3, t, Advance);
    var w5 := Do(w4, t, Advance);
    assert w5.locks == w.locks && w5.pcs == w.pcs;
    worlds := [w1, w2, w3, w4, w5];
    assert worlds[3].pcs[t] == Using(s, w.databases[s].value);
  }

  lemma CloseAlone(w: World, w1: World, w2: World, t: nat, s: nat) returns (worlds: seq<World>)
    requires WellFormed(w) && t < |w.pcs| && AllFree(w) && w.pcs[t].Idle? && s < |w.locks|
    requires w1 == w.(pcs := w.pcs[t := WantTable(Close(s))])
    requires w2 == w.(table := Some(t), pcs := w.pcs[t := HasTable(Close(s))])
    ensures worlds != [] && worlds[0] == w1 && Alone(worlds, t)
    ensures worlds[|worlds| - 1] == w.(databases := w.databases[s := None])
  {
    var w3 := Do(w2, t, Advance);
    if w.databases[s].None? {
      assert w.databases[s := None] == w.databases;
      assert w3 == w;
      return [w1, w2, w3];
    }
    var w4 := Do(w3, t, Advance);
    var w5 := Do(w4, t, Advance);
    assert w5.locks == w.locks && w5.pcs == w.pcs;
    worlds := [w1, w2, w3, w4, w5];
  }
}
