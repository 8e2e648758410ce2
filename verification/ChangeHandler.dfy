/** Change notifications: callbacks are kept in a map, the first of them opens one operating-system
    registration and the last one to go closes it. Two mutexes, one handle, and a wait group for every
    callback; any number of Register and Unregister calls, notifications and callback invocations are
    interleaved step by step. The interface, route and unicast address handlers are this one protocol. */
module ChangeHandler {

  /** Who made the call: an ordinary goroutine, or a callback invocation that has not finished yet. */
  datatype Caller = Outside | Inside(invocation: nat)

  datatype Kind = Register | Unregister(callback: nat)

  datatype Pc =
    | Fresh             // not called yet
    | WantAddRemove     // before addRemoveMutex.Lock
    | WantMap           // before mutex.Lock
    | InMap             // holds both; about to insert, or to delete
    | InNotify          // Register: the system is asked for a registration
    | LeavingMap        // before mutex.Unlock
    | AtWait            // Unregister: in wait.Wait
    | AtCancel          // Unregister: in cancelMibChangeNotify2
    | AtClear           // Unregister: the registration is gone, the handle not yet zero
    | LeavingAddRemove  // before addRemoveMutex.Unlock
    | Done

  /** A call of Register or Unregister. The callback that a Register call creates goes by the number of
      that call, which makes it a new one. */
  datatype Op = Op(kind: Kind, pc: Pc, ok: bool, removeIt: bool, caller: Caller)

  /** A notification the system delivers, and how far its loop over the map has come. */
  datatype NotePc = WantsMap | Looping(todo: set<nat>) | Delivered

  datatype Note = Note(registration: nat, pc: NotePc)

  /** A goroutine that runs a callback; it counts as finished once it has called Done. */
  datatype Invocation = Invocation(callback: nat, finished: bool)

  datatype Holder = Nobody | ByOp(t: nat) | ByNote(n: nat)

  datatype State = State(
    addRemove: Holder, mutex: Holder, callbacks: set<nat>, handle: nat, live: set<nat>,
    wait: map<nat, nat>, ops: map<nat, Op>, notes: map<nat, Note>, invocations: map<nat, Invocation>)

  datatype Action =
    | BeginRegister(caller: Caller)
    | BeginUnregister(callback: nat, caller: Caller)
    | LockAddRemove
    | LockMap
    | Insert
    | Notified(h: nat)
    | NotifyFailed
    | Delete
    | UnlockMap
    | WaitOver
    | Cancelled
    | CancelFailed
    | ClearHandle
    | UnlockAddRemove

  datatype NoteAction = Arrives(h: nat) | LocksMap | Spawns(callback: nat, i: nat) | UnlocksMap

  datatype Step = OpStep(t: nat, action: Action) | NoteStep(n: nat, noteAction: NoteAction) | Finish(i: nat)

  function Count(s: State, callback: nat): nat {
    if callback in s.wait then s.wait[callback] else 0
  }

  predicate At(s: State, t: nat, pc: Pc) {
    t in s.ops && s.ops[t].pc == pc
  }

  predicate Registering(s: State, t: nat) {
    t in s.ops && s.ops[t].kind == Register
  }

  predicate Unregistering(s: State, t: nat) {
    t in s.ops && s.ops[t].kind.Unregister?
  }

  predicate Running(s: State, i: nat) {
    i in s.invocations && !s.invocations[i].finished
  }

  predicate MayCall(s: State, caller: Caller) {
    caller.Inside? ==> Running(s, caller.invocation)
  }

  /** Nothing the invocation has called is still under way. */
  ghost predicate NotCalling(s: State, i: nat) {
    forall t :: t in s.ops && s.ops[t].caller == Inside(i) ==> s.ops[t].pc == Done
  }

  ghost predicate NoneInFlight(s: State, h: nat) {
    forall n :: n in s.notes && s.notes[n].registration == h ==> s.notes[n].pc == Delivered
  }

  predicate Holding(s: State, n: nat) {
    n in s.notes && s.notes[n].pc.Looping?
  }

  /** Cancelling completes only when no notification of the registration is being delivered. Only a
      callback that Register has handed out can be unregistered. */
  ghost predicate OpEnabled(s: State, t: nat, a: Action) {
    match a
    case BeginRegister(caller) => t !in s.ops && MayCall(s, caller)
    case BeginUnregister(c, caller) => t !in s.ops && MayCall(s, caller) && Registering(s, c) && At(s, c, Done)
                                       && s.ops[c].ok
    case LockAddRemove => At(s, t, WantAddRemove) && s.addRemove == Nobody
    case LockMap => At(s, t, WantMap) && s.mutex == Nobody
    case Insert => At(s, t, InMap) && Registering(s, t)
    case Notified(h) => At(s, t, InNotify) && h > 0 && h !in s.live
    case NotifyFailed => At(s, t, InNotify)
    case Delete => At(s, t, InMap) && Unregistering(s, t)
    case UnlockMap => At(s, t, LeavingMap)
    case WaitOver => At(s, t, AtWait) && Unregistering(s, t) && Count(s, s.ops[t].kind.callback) == 0
    case Cancelled => At(s, t, AtCancel) && NoneInFlight(s, s.handle)
    case CancelFailed => At(s, t, AtCancel) && NoneInFlight(s, s.handle)
    case ClearHandle => At(s, t, AtClear)
    case UnlockAddRemove => At(s, t, LeavingAddRemove)
  }

  function OpOf(s: State, t: nat): Op {
    if t in s.ops then s.ops[t] else Op(Register, Fresh, true, false, Outside)
  }

  function NextOp(s: State, t: nat, a: Action): Op {
    var op := OpOf(s, t);
    match a
    case BeginRegister(caller) => Op(Register, WantAddRemove, true, false, caller)
    case BeginUnregister(c, caller) => Op(Unregister(c), WantAddRemove, true, false, caller)
    case LockAddRemove => op.(pc := WantMap)
    case LockMap => op.(pc := InMap)
    case Insert => op.(pc := if s.handle == 0 then InNotify else LeavingMap)
    case Notified(_) => op.(pc := LeavingMap)
    case NotifyFailed => op.(pc := LeavingMap, ok := false)
    case Delete => op.(pc := LeavingMap, removeIt := NextCallbacks(s, t, a) == {} && s.handle != 0)
    case UnlockMap => op.(pc := if op.kind == Register then LeavingAddRemove else AtWait)
    case WaitOver => op.(pc := if op.removeIt then AtCancel else LeavingAddRemove)
    case Cancelled => op.(pc := AtClear)
    case CancelFailed => op.(pc := LeavingAddRemove, ok := false)
    case ClearHandle => op.(pc := LeavingAddRemove)
    case UnlockAddRemove => op.(pc := Done)
  }

  function NextAddRemove(s: State, t: nat, a: Action): Holder {
    if a == LockAddRemove then ByOp(t) else if a == UnlockAddRemove then Nobody else s.addRemove
  }

  function NextMutex(s: State, t: nat, a: Action): Holder {
    if a == LockMap then ByOp(t) else if a == UnlockMap then Nobody else s.mutex
  }

  function NextCallbacks(s: State, t: nat, a: Action): set<nat> {
    if a == Insert then s.callbacks + {t}
    else if a == NotifyFailed then s.callbacks - {t}
    else if a == Delete && Unregistering(s, t) then s.callbacks - {s.ops[t].kind.callback}
    else s.callbacks
  }

  function NextHandle(s: State, a: Action): nat {
    if a.Notified? then a.h else if a == NotifyFailed || a == ClearHandle then 0 else s.handle
  }

  function NextLive(s: State, a: Action): set<nat> {
    if a.Notified? then s.live + {a.h} else if a == Cancelled then s.live - {s.handle} else s.live
  }

  function TakeOp(s: State, t: nat, a: Action): State {
    s.(ops := s.ops[t := NextOp(s, t, a)], addRemove := NextAddRemove(s, t, a), mutex := NextMutex(s, t, a),
       callbacks := NextCallbacks(s, t, a), handle := NextHandle(s, a), live := NextLive(s, a))
  }

  predicate NoteEnabled(s: State, n: nat, a: NoteAction) {
    match a
    case Arrives(h) => n !in s.notes && h in s.live
    case LocksMap => n in s.notes && s.notes[n].pc == WantsMap && s.mutex == Nobody
    case Spawns(c, i) => Holding(s, n) && c in s.notes[n].pc.todo && i !in s.invocations
    case UnlocksMap => Holding(s, n) && s.notes[n].pc.todo == {}
  }

  function TakeNote(s: State, n: nat, a: NoteAction): State
    requires NoteEnabled(s, n, a)
  {
    match a
    case Arrives(h) => s.(notes := s.notes[n := Note(h, WantsMap)])
    case LocksMap => s.(notes := s.notes[n := s.notes[n].(pc := Looping(s.callbacks))], mutex := ByNote(n))
    case Spawns(c, i) =>
      s.(notes := s.notes[n := s.notes[n].(pc := Looping(s.notes[n].pc.todo - {c}))],
         wait := s.wait[c := Count(s, c) + 1], invocations := s.invocations[i := Invocation(c, false)])
    case UnlocksMap => s.(notes := s.notes[n := s.notes[n].(pc := Delivered)], mutex := Nobody)
  }

  ghost predicate FinishEnabled(s: State, i: nat) {
    Running(s, i) && NotCalling(s, i) && Count(s, s.invocations[i].callback) > 0
  }

  function TakeFinish(s: State, i: nat): State
    requires Running(s, i) && Count(s, s.invocations[i].callback) > 0
  {
    var c := s.invocations[i].callback;
    s.(wait := s.wait[c := Count(s, c) - 1], invocations := s.invocations[i := Invocation(c, true)])
  }

  ghost predicate Enabled(s: State, step: Step) {
    match step
    case OpStep(t, a) => OpEnabled(s, t, a)
    case NoteStep(n, a) => NoteEnabled(s, n, a)
    case Finish(i) => FinishEnabled(s, i)
  }

  ghost function Take(s: State, step: Step): State
    requires Enabled(s, step)
  {
    match step
    case OpStep(t, a) => TakeOp(s, t, a)
    case NoteStep(n, a) => TakeNote(s, n, a)
    case Finish(i) => TakeFinish(s, i)
  }

  predicate Initial(s: State) {
    s == State(Nobody, Nobody, {}, 0, {}, map[], map[], map[], map[])
  }

  ghost predicate Next(s: State, step: Step, s': State) {
    Enabled(s, step) && s' == Take(s, step)
  }

  ghost predicate IsRun(states: seq<State>, steps: seq<Step>) {
    && |states| == |steps| + 1
    && Initial(states[0])
    && forall i :: 0 <= i < |steps| ==> Next(states[i], steps[i], states[i + 1])
  }

  // ---------------------------------------------------------------- the mutexes

  predicate HoldsAddRemove(pc: Pc) {
    pc != Fresh && pc != WantAddRemove && pc != Done
  }

  predicate HoldsMap(pc: Pc) {
    pc == InMap || pc == InNotify || pc == LeavingMap
  }

  /** Each mutex is held by exactly the thread whose program point says so. */
  ghost predicate AddRemoveLock(s: State) {
    && (forall t: nat :: HoldsAddRemove(OpOf(s, t).pc) <==> s.addRemove == ByOp(t))
    && !s.addRemove.ByNote?
  }

  ghost predicate MapLock(s: State) {
    && (forall t: nat :: HoldsMap(OpOf(s, t).pc) <==> s.mutex == ByOp(t))
    && (forall n: nat :: Holding(s, n) <==> s.mutex == ByNote(n))
  }

  lemma AddRemoveLockStep(s: State, step: Step, s': State)
    requires AddRemoveLock(s) && Next(s, step, s')
    ensures AddRemoveLock(s')
  {
    hide NextCallbacks, NextHandle, NextLive, NextMutex, Count, MayCall, NotCalling, NoneInFlight, Registering,
         Unregistering;
  }

  lemma MapLockOp(s: State, t: nat, a: Action)
    requires MapLock(s) && OpEnabled(s, t, a)
    ensures MapLock(TakeOp(s, t, a))
  {
    hide NextCallbacks, NextHandle, NextLive, NextAddRemove, Count, MayCall, NotCalling, NoneInFlight, Registering,
         Unregistering;
    var s' := TakeOp(s, t, a);
    assert forall n: nat :: Holding(s', n) <==> Holding(s, n);
  }

  lemma MapLockNote(s: State, n: nat, a: NoteAction)
    requires MapLock(s) && NoteEnabled(s, n, a)
    ensures MapLock(TakeNote(s, n, a))
  {
    hide Count;
    var s' := TakeNote(s, n, a);
    assert forall t: nat :: OpOf(s', t) == OpOf(s, t);
  }

  lemma MapLockStep(s: State, step: Step, s': State)
    requires MapLock(s) && Next(s, step, s')
    ensures MapLock(s')
  {
    hide TakeOp, TakeNote, OpEnabled, NoteEnabled, Count, NotCalling;
    match step
    case OpStep(t, a) => MapLockOp(s, t, a);
    case NoteStep(n, a) => MapLockNote(s, n, a);
    case Finish(i) =>
      assert forall t: nat :: OpOf(s', t) == OpOf(s, t);
      assert forall n: nat :: Holding(s', n) <==> Holding(s, n);
  }

  // ---------------------------------------------------------------- which calls are where

  predicate PastDelete(pc: Pc) {
    pc in {LeavingMap, AtWait, AtCancel, AtClear, LeavingAddRemove, Done}
  }

  predicate PastWait(pc: Pc) {
    pc in {AtCancel, AtClear, LeavingAddRemove, Done}
  }

  predicate PcFits(op: Op) {
    match op.kind
    case Register => op.pc !in {Fresh, AtWait, AtCancel, AtClear} && !op.removeIt
    case Unregister(_) => op.pc !in {Fresh, InNotify} && (op.pc in {AtCancel, AtClear} ==> op.removeIt)
  }

  predicate TargetFits(s: State, op: Op) {
    op.kind.Unregister? ==> Registering(s, op.kind.callback) && At(s, op.kind.callback, Done)
  }

  /** The program points of each kind of call; an Unregister call is for a callback whose Register call
      is over. */
  ghost predicate Kinds(s: State) {
    forall t :: t in s.ops ==> PcFits(s.ops[t]) && TargetFits(s, s.ops[t])
  }

  lemma PcFitsOp(s: State, t: nat, a: Action)
    requires OpEnabled(s, t, a) && (t in s.ops ==> PcFits(s.ops[t]))
    ensures PcFits(NextOp(s, t, a))
  {
    hide NextCallbacks, Count, MayCall, NotCalling, NoneInFlight;
  }

  /** A call that is over stays over, and keeps its kind. */
  lemma DoneStays(s: State, t: nat, a: Action, c: nat)
    requires OpEnabled(s, t, a)
    ensures Registering(s, c) && At(s, c, Done) ==> Registering(TakeOp(s, t, a), c) && At(TakeOp(s, t, a), c, Done)
    ensures t in s.ops ==> NextOp(s, t, a).kind == s.ops[t].kind && NextOp(s, t, a).caller == s.ops[t].caller
    ensures t !in s.ops ==>
              a.BeginRegister? || (a.BeginUnregister? && Registering(s, a.callback) && At(s, a.callback, Done))
  {
    hide NextCallbacks, NextMutex, NextAddRemove, NextLive, NextHandle, Count, MayCall, NotCalling, NoneInFlight;
  }

  lemma KindsStep(s: State, step: Step, s': State)
    requires Kinds(s) && Next(s, step, s')
    ensures Kinds(s')
  {
    hide NextOp, OpEnabled, NextCallbacks, NextMutex, NextAddRemove, NextLive, NextHandle, Count, MayCall, NotCalling,
         NoneInFlight, PcFits, At, Registering;
    forall u | u in s'.ops
      ensures PcFits(s'.ops[u]) && TargetFits(s', s'.ops[u])
    {
      if step.OpStep? {
        KindsOp(s, step.t, step.action, u);
      } else {
        SameOps(s, s');
      }
    }
  }

  lemma SameOps(s: State, s': State)
    requires s'.ops == s.ops
    ensures forall t, pc :: At(s', t, pc) <==> At(s, t, pc)
    ensures forall t :: (Registering(s', t) <==> Registering(s, t)) && (Unregistering(s', t) <==> Unregistering(s, t))
    ensures forall t: nat :: OpOf(s', t) == OpOf(s, t)
  {
  }

  lemma KindsOp(s: State, t: nat, a: Action, u: nat)
    requires Kinds(s) && OpEnabled(s, t, a) && u in TakeOp(s, t, a).ops
    ensures PcFits(TakeOp(s, t, a).ops[u]) && TargetFits(TakeOp(s, t, a), TakeOp(s, t, a).ops[u])
  {
    hide OpEnabled, NextCallbacks, NextMutex, NextAddRemove, NextLive, NextHandle, Count, PcFits, At, Registering;
    PcFitsOp(s, t, a);
    var op := TakeOp(s, t, a).ops[u];
    DoneStays(s, t, a, 0);
    if op.kind.Unregister? {
      DoneStays(s, t, a, op.kind.callback);
    }
  }

  // ---------------------------------------------------------------- who is in the map

  /** What is in the map was put there by a Register call. */
  predicate Inserted(s: State, t: nat) {
    Registering(s, t) && s.ops[t].pc !in {WantAddRemove, WantMap, InMap}
  }

  /** The map holds what was inserted and not deleted. */
  ghost predicate Members(s: State) {
    && (forall t :: t in s.callbacks ==> Inserted(s, t))
    && (forall u :: Unregistering(s, u) && PastDelete(s.ops[u].pc) ==> s.ops[u].kind.callback !in s.callbacks)
  }

  lemma InsertedStays(s: State, t: nat, a: Action, c: nat)
    requires OpEnabled(s, t, a)
    ensures Inserted(s, c) || (a == Insert && t == c) ==> Inserted(TakeOp(s, t, a), c)
    ensures NextCallbacks(s, t, a) <= s.callbacks
            || (a == Insert && NextCallbacks(s, t, a) == s.callbacks + {t} && !Inserted(s, t) && Registering(s, t))
  {
    hide NextMutex, NextAddRemove, NextLive, NextHandle, Count, MayCall, NotCalling, NoneInFlight;
  }

  /** An Unregister call gets past its deletion by deleting. */
  lemma DeletesFirst(s: State, t: nat, a: Action)
    requires OpEnabled(s, t, a) && NextOp(s, t, a).kind.Unregister? && PastDelete(NextOp(s, t, a).pc)
    requires t in s.ops ==> PcFits(s.ops[t])
    ensures Unregistering(s, t) && (PastDelete(s.ops[t].pc) || NextOp(s, t, a).kind.callback !in NextCallbacks(s, t, a))
    ensures NextOp(s, t, a).kind == s.ops[t].kind && a != Insert
  {
    hide Count, MayCall, NotCalling, NoneInFlight;
  }

  lemma MembersOp(s: State, t: nat, a: Action)
    requires Kinds(s) && Members(s) && OpEnabled(s, t, a)
    ensures Members(TakeOp(s, t, a))
  {
    hide OpEnabled, NextOp, NextCallbacks, NextMutex, NextAddRemove, NextLive, NextHandle, Inserted, PcFits, PastDelete;
    var s' := TakeOp(s, t, a);
    forall c | c in s'.callbacks
      ensures Inserted(s', c)
    {
      InsertedStays(s, t, a, c);
    }
    forall u | Unregistering(s', u) && PastDelete(s'.ops[u].pc)
      ensures s'.ops[u].kind.callback !in s'.callbacks
    {
      var c := s'.ops[u].kind.callback;
      InsertedStays(s, t, a, c);
      if u == t {
        DeletesFirst(s, t, a);
        assert c in s.callbacks ==> !PastDelete(s.ops[t].pc);
      } else {
        assert TargetFits(s, s.ops[u]);
        DoneIsInserted(s, c);
      }
    }
  }

  lemma DoneIsInserted(s: State, c: nat)
    requires Registering(s, c) && At(s, c, Done)
    ensures Inserted(s, c)
  {
  }

  lemma MembersStep(s: State, step: Step, s': State)
    requires Kinds(s) && Members(s) && Next(s, step, s')
    ensures Members(s')
  {
    hide TakeOp, OpEnabled, Kinds, Inserted, PastDelete, Count, NotCalling;
    if step.OpStep? {
      MembersOp(s, step.t, step.action);
    } else {
      SameOps(s, s');
      forall c | c in s'.callbacks
        ensures Inserted(s', c)
      {
        assert Inserted(s, c);
        SameInserted(s, s', c);
      }
    }
  }

  lemma SameInserted(s: State, s': State, c: nat)
    requires s'.ops == s.ops
    ensures Inserted(s', c) <==> Inserted(s, c)
  {
  }

  /** A notification works on callbacks that are still in the map. */
  ghost predicate LoopsOverMembers(s: State) {
    forall n :: Holding(s, n) ==> s.notes[n].pc.todo <= s.callbacks
  }

  lemma LoopsStep(s: State, step: Step, s': State)
    requires MapLock(s) && LoopsOverMembers(s) && Next(s, step, s')
    ensures LoopsOverMembers(s')
  {
    hide TakeOp, OpEnabled, MapLock, Count, NotCalling;
    match step
    case OpStep(t, a) =>
      forall n | Holding(s', n)
        ensures s'.notes[n].pc.todo <= s'.callbacks
      {
        MapUntouched(s, t, a, n);
      }
    case NoteStep(n, a) =>
    case Finish(i) =>
  }

  lemma MapUntouched(s: State, t: nat, a: Action, n: nat)
    requires MapLock(s) && OpEnabled(s, t, a)
    ensures TakeOp(s, t, a).notes == s.notes
    ensures Holding(s, n) ==> TakeOp(s, t, a).callbacks == s.callbacks
  {
    hide NextOp, NextMutex, NextAddRemove, NextLive, NextHandle, Count, MayCall, NotCalling, NoneInFlight;
    if a in {Insert, NotifyFailed, Delete} {
      assert HoldsMap(OpOf(s, t).pc);
    }
  }

  // ---------------------------------------------------------------- the wait groups

  function Unfinished(s: State, callback: nat): set<nat> {
    set i | i in s.invocations && s.invocations[i].callback == callback && !s.invocations[i].finished
  }

  /** A callback's wait count is the number of its invocations that were started and are not finished. */
  ghost predicate Counts(s: State) {
    forall callback: nat :: Count(s, callback) == |Unfinished(s, callback)|
  }

  lemma CountIs(s: State, callback: nat)
    requires Counts(s)
    ensures Count(s, callback) == |Unfinished(s, callback)|
  {
  }

  lemma SpawnCounts(s: State, n: nat, a: NoteAction, callback: nat)
    requires NoteEnabled(s, n, a) && Count(s, callback) == |Unfinished(s, callback)|
    ensures Count(TakeNote(s, n, a), callback) == |Unfinished(TakeNote(s, n, a), callback)|
    ensures Unfinished(TakeNote(s, n, a), callback) <= Unfinished(s, callback) || (a.Spawns? && a.callback == callback)
  {
    var s' := TakeNote(s, n, a);
    if a.Spawns? && a.callback == callback {
      assert Unfinished(s', callback) == Unfinished(s, callback) + {a.i};
    } else {
      assert Unfinished(s', callback) == Unfinished(s, callback);
    }
  }

  lemma FinishCounts(s: State, i: nat, callback: nat)
    requires Running(s, i) && Count(s, s.invocations[i].callback) > 0 && Count(s, callback) == |Unfinished(s, callback)|
    ensures Count(TakeFinish(s, i), callback) == |Unfinished(TakeFinish(s, i), callback)|
    ensures Unfinished(TakeFinish(s, i), callback) <= Unfinished(s, callback)
  {
    var s' := TakeFinish(s, i);
    if s.invocations[i].callback == callback {
      assert Unfinished(s', callback) == Unfinished(s, callback) - {i};
    } else {
      assert Unfinished(s', callback) == Unfinished(s, callback);
    }
  }

  lemma SameUnfinished(s: State, s': State, callback: nat)
    requires s'.invocations == s.invocations && s'.wait == s.wait
    ensures Unfinished(s', callback) == Unfinished(s, callback) && Count(s', callback) == Count(s, callback)
  {
  }

  predicate StepSpawns(step: Step, callback: nat) {
    step.NoteStep? && step.noteAction.Spawns? && step.noteAction.callback == callback
  }

  /** The count stays right, and only a spawn adds an invocation. */
  lemma CountStep(s: State, step: Step, s': State, callback: nat)
    requires Counts(s) && Next(s, step, s')
    ensures Count(s', callback) == |Unfinished(s', callback)|
    ensures Unfinished(s', callback) <= Unfinished(s, callback) || StepSpawns(step, callback)
  {
    hide Counts, Count, Unfinished, OpEnabled, NextOp, NoteEnabled, TakeNote, TakeFinish, NotCalling;
    CountIs(s, callback);
    match step
    case OpStep(t, a) => SameUnfinished(s, s', callback);
    case NoteStep(n, a) => SpawnCounts(s, n, a, callback);
    case Finish(i) => FinishCounts(s, i, callback);
  }

  lemma CountsStep(s: State, step: Step, s': State)
    requires Counts(s) && Next(s, step, s')
    ensures Counts(s')
  {
    hide Count, Unfinished, Next;
    forall callback: nat
      ensures Count(s', callback) == |Unfinished(s', callback)|
    {
      CountStep(s, step, s', callback);
    }
  }

  /** Past its wait, an Unregister call leaves no invocation of its callback behind. */
  ghost predicate Silenced(s: State) {
    forall u :: Unregistering(s, u) && PastWait(s.ops[u].pc) ==> Unfinished(s, s.ops[u].kind.callback) == {}
  }

  lemma WaitsFirst(s: State, t: nat, a: Action)
    requires OpEnabled(s, t, a) && NextOp(s, t, a).kind.Unregister? && PastWait(NextOp(s, t, a).pc)
    requires t in s.ops ==> PcFits(s.ops[t])
    ensures Unregistering(s, t) && (PastWait(s.ops[t].pc) || Count(s, s.ops[t].kind.callback) == 0)
    ensures NextOp(s, t, a).kind == s.ops[t].kind
  {
    hide Count, MayCall, NotCalling, NoneInFlight, NextCallbacks;
  }

  lemma SilencedOp(s: State, t: nat, a: Action)
    requires Kinds(s) && Counts(s) && Silenced(s) && OpEnabled(s, t, a)
    ensures Silenced(TakeOp(s, t, a))
  {
    hide OpEnabled, NextOp, NextCallbacks, NextMutex, NextAddRemove, NextLive, NextHandle, PcFits, PastWait, Unfinished,
         Count;
    var s' := TakeOp(s, t, a);
    forall u | Unregistering(s', u) && PastWait(s'.ops[u].pc)
      ensures Unfinished(s', s'.ops[u].kind.callback) == {}
    {
      var c := s'.ops[u].kind.callback;
      SameUnfinished(s, s', c);
      if u == t {
        WaitsFirst(s, t, a);
        CountIs(s, c);
      } else {
        assert Unregistering(s, u);
      }
    }
  }

  lemma SilencedStep(s: State, step: Step, s': State)
    requires Kinds(s) && Members(s) && LoopsOverMembers(s) && Counts(s) && Silenced(s) && Next(s, step, s')
    ensures Silenced(s')
  {
    hide Kinds, Counts, Unfinished, TakeOp, OpEnabled, TakeNote, TakeFinish, NotCalling, PastWait, PastDelete, Inserted,
         Next;
    if step.OpStep? {
      StepIs(s, step, s');
      SilencedOp(s, step.t, step.action);
    } else {
      StepIs(s, step, s');
      SameOps(s, s');
      forall u | Unregistering(s', u) && PastWait(s'.ops[u].pc)
        ensures Unfinished(s', s'.ops[u].kind.callback) == {}
      {
        var c := s'.ops[u].kind.callback;
        assert Unregistering(s, u);
        CountStep(s, step, s', c);
        WaitAfterDelete(s.ops[u].pc);
        if StepSpawns(step, c) {
          SpawnsOnlyMembers(s, step, s', c);
        }
      }
    }
  }

  lemma WaitAfterDelete(pc: Pc)
    requires PastWait(pc)
    ensures PastDelete(pc)
  {
  }

  lemma SpawnsOnlyMembers(s: State, step: Step, s': State, c: nat)
    requires LoopsOverMembers(s) && Next(s, step, s') && StepSpawns(step, c)
    ensures c in s.callbacks
  {
    assert Holding(s, step.n);
  }

  lemma StepIs(s: State, step: Step, s': State)
    requires Next(s, step, s')
    ensures step.OpStep? ==> OpEnabled(s, step.t, step.action) && s' == TakeOp(s, step.t, step.action)
    ensures !step.OpStep? ==>
              s'.ops == s.ops && s'.addRemove == s.addRemove && s'.callbacks == s.callbacks
              && s'.handle == s.handle && s'.live == s.live
  {
    hide OpEnabled, TakeOp, NotCalling, Count;
  }

  // ---------------------------------------------------------------- the system's registrations

  const IDLE: Op := Op(Register, Fresh, true, false, Outside)

  /** The call that holds the outer mutex, if any. */
  function Current(s: State): Op {
    if s.addRemove.ByOp? then OpOf(s, s.addRemove.t) else IDLE
  }

  /** An Unregister call that has emptied the map and is going to cancel. */
  predicate Removing(op: Op) {
    op.removeIt && op.pc in {LeavingMap, AtWait, AtCancel, AtClear}
  }

  ghost predicate CancelHasFailed(s: State) {
    exists u :: Unregistering(s, u) && !s.ops[u].ok
  }

  /** How the handle, the live registrations and the map go together, depending on where the holder of
      the outer mutex stands. */
  predicate HandleFits(op: Op, t: nat, callbacks: set<nat>, handle: nat, live: set<nat>, failed: bool) {
    && live == (if handle == 0 || op.pc == AtClear then {} else {handle})
    && (op.pc == InNotify ==> handle == 0 && callbacks == {t})
    && (callbacks != {} && op.pc != InNotify ==> handle != 0)
    && (Removing(op) ==> callbacks == {} && handle != 0)
    && (callbacks == {} && handle != 0 ==> Removing(op) || failed)
  }

  function CurrentId(s: State): nat {
    if s.addRemove.ByOp? then s.addRemove.t else 0
  }

  ghost predicate Handles(s: State) {
    HandleFits(Current(s), CurrentId(s), s.callbacks, s.handle, s.live, CancelHasFailed(s))
  }

  /** Everything but a beginning and the taking of the outer mutex is done by its holder. */
  lemma ByTheHolder(s: State, t: nat, a: Action)
    requires AddRemoveLock(s) && OpEnabled(s, t, a)
    ensures a.BeginRegister? || a.BeginUnregister? ==> s.addRemove != ByOp(t)
    ensures a == LockAddRemove ==> s.addRemove == Nobody
    ensures !a.BeginRegister? && !a.BeginUnregister? && a != LockAddRemove ==> s.addRemove == ByOp(t)
  {
    hide Count, MayCall, NotCalling, NoneInFlight;
    assert HoldsAddRemove(OpOf(s, t).pc) <==> s.addRemove == ByOp(t);
  }

  predicate ChangesMapOrHandle(a: Action) {
    a in {Insert, NotifyFailed, Delete, Cancelled, ClearHandle} || a.Notified?
  }

  lemma HolderChanges(s: State, t: nat, a: Action, failed: bool)
    requires OpEnabled(s, t, a) && t in s.ops && PcFits(s.ops[t]) && ChangesMapOrHandle(a)
    requires HandleFits(s.ops[t], t, s.callbacks, s.handle, s.live, failed)
    ensures HandleFits(NextOp(s, t, a), t, NextCallbacks(s, t, a), NextHandle(s, a), NextLive(s, a), failed)
  {
    hide Count, MayCall, NotCalling, NoneInFlight;
  }

  lemma HolderPasses(s: State, t: nat, a: Action, failed: bool)
    requires OpEnabled(s, t, a) && t in s.ops && PcFits(s.ops[t]) && !ChangesMapOrHandle(a)
    requires HandleFits(s.ops[t], t, s.callbacks, s.handle, s.live, failed)
    ensures HandleFits(NextOp(s, t, a), t, s.callbacks, s.handle, s.live, failed || a == CancelFailed)
    ensures NextCallbacks(s, t, a) == s.callbacks && NextHandle(s, a) == s.handle && NextLive(s, a) == s.live
  {
    hide Count, MayCall, NotCalling, NoneInFlight;
  }

  lemma UnlockedFits(op: Op, t: nat, callbacks: set<nat>, handle: nat, live: set<nat>, failed: bool, op': Op, t': nat)
    requires HandleFits(op, t, callbacks, handle, live, failed)
    requires op.pc in {Fresh, WantMap, Done} && op'.pc in {Fresh, WantMap, Done}
    ensures HandleFits(op', t', callbacks, handle, live, failed)
  {
  }

  lemma HandlesOp(s: State, t: nat, a: Action)
    requires AddRemoveLock(s) && Kinds(s) && Handles(s) && OpEnabled(s, t, a)
    ensures Handles(TakeOp(s, t, a))
  {
    hide OpEnabled, NextCallbacks, NextHandle, NextLive, NextMutex, HandleFits, AddRemoveLock, PcFits, TargetFits,
         CancelHasFailed;
    var s' := TakeOp(s, t, a);
    ByTheHolder(s, t, a);
    FailureRemembered(s, t, a);
    if s.addRemove == ByOp(t) {
      HolderExists(s, t);
      if ChangesMapOrHandle(a) {
        HolderChanges(s, t, a, CancelHasFailed(s));
      } else {
        HolderPasses(s, t, a, CancelHasFailed(s));
        if a == UnlockAddRemove {
          UnlockedFits(NextOp(s, t, a), t, s.callbacks, s.handle, s.live, CancelHasFailed(s), IDLE, 0);
        }
      }
    } else {
      NothingElseChanges(s, t, a);
      if a == LockAddRemove {
        UnlockedFits(IDLE, 0, s.callbacks, s.handle, s.live, CancelHasFailed(s), NextOp(s, t, a), t);
      }
    }
  }

  lemma HolderExists(s: State, t: nat)
    requires AddRemoveLock(s) && s.addRemove == ByOp(t)
    ensures t in s.ops && HoldsAddRemove(s.ops[t].pc)
  {
    assert HoldsAddRemove(OpOf(s, t).pc);
  }

  lemma NothingElseChanges(s: State, t: nat, a: Action)
    requires a.BeginRegister? || a.BeginUnregister? || a == LockAddRemove
    ensures NextCallbacks(s, t, a) == s.callbacks && NextHandle(s, a) == s.handle && NextLive(s, a) == s.live
  {
  }

  lemma HandlesStep(s: State, step: Step, s': State)
    requires AddRemoveLock(s) && Kinds(s) && Handles(s) && Next(s, step, s')
    ensures Handles(s')
  {
    hide TakeOp, OpEnabled, HandleFits, Kinds, AddRemoveLock, Next, CancelHasFailed;
    StepIs(s, step, s');
    if step.OpStep? {
      HandlesOp(s, step.t, step.action);
    } else {
      SameOps(s, s');
      SameFailures(s, s');
    }
  }

  lemma SameFailures(s: State, s': State)
    requires s'.ops == s.ops
    ensures CancelHasFailed(s') <==> CancelHasFailed(s)
  {
    assert forall u :: Unregistering(s', u) <==> Unregistering(s, u);
  }

  /** Notifications under way are those of a live registration. */
  ghost predicate NotesLive(s: State) {
    forall n :: n in s.notes && s.notes[n].pc != Delivered ==> s.notes[n].registration in s.live
  }

  lemma NotesLiveStep(s: State, step: Step, s': State)
    requires NotesLive(s) && Next(s, step, s')
    ensures NotesLive(s')
  {
    hide NextOp, NextCallbacks, NextMutex, NextAddRemove, NextHandle, Count, MayCall, NotCalling, At, Registering,
         Unregistering;
  }

  lemma FailureRemembered(s: State, t: nat, a: Action)
    requires OpEnabled(s, t, a) && (t in s.ops ==> PcFits(s.ops[t]))
    ensures CancelHasFailed(TakeOp(s, t, a)) <==> CancelHasFailed(s) || a == CancelFailed
  {
    hide NextCallbacks, NextMutex, NextAddRemove, NextLive, NextHandle, Count, MayCall, NotCalling, NoneInFlight;
    var s' := TakeOp(s, t, a);
    if CancelHasFailed(s) {
      var u :| Unregistering(s, u) && !s.ops[u].ok;
      assert Unregistering(s', u) && !s'.ops[u].ok;
    }
    if a == CancelFailed {
      assert Unregistering(s', t) && !s'.ops[t].ok;
    }
    if CancelHasFailed(s') && a != CancelFailed {
      var u :| Unregistering(s', u) && !s'.ops[u].ok;
      assert Unregistering(s, u) && !s.ops[u].ok;
    }
  }

  // ---------------------------------------------------------------- all of it, over every run

  ghost predicate Inv(s: State) {
    && AddRemoveLock(s) && MapLock(s) && Kinds(s) && Members(s) && LoopsOverMembers(s)
    && Counts(s) && Silenced(s) && Handles(s) && NotesLive(s)
  }

  lemma InvInitial(s: State)
    requires Initial(s)
    ensures Inv(s)
  {
    assert forall callback: nat :: Unfinished(s, callback) == {};
  }

  lemma InvStep(s: State, step: Step, s': State)
    requires Inv(s) && Next(s, step, s')
    ensures Inv(s')
  {
    hide AddRemoveLock, MapLock, Kinds, Members, LoopsOverMembers, Counts, Silenced, Handles, NotesLive, Next;
    AddRemoveLockStep(s, step, s');
    MapLockStep(s, step, s');
    KindsStep(s, step, s');
    MembersStep(s, step, s');
    LoopsStep(s, step, s');
    CountsStep(s, step, s');
    SilencedStep(s, step, s');
    HandlesStep(s, step, s');
    NotesLiveStep(s, step, s');
  }

  lemma {:induction false} InvAlways(states: seq<State>, steps: seq<Step>, i: nat)
    requires IsRun(states, steps) && i < |states|
    ensures Inv(states[i])
  {
    hide Inv, Next;
    if i == 0 {
      InvInitial(states[0]);
    } else {
      InvAlways(states, steps, i - 1);
      assert Next(states[i - 1], steps[i - 1], states[i - 1 + 1]);
      InvStep(states[i - 1], steps[i - 1], states[i]);
    }
  }

  /** The wait count of every callback is exact in every state of every run. */
  lemma WaitCountsInvocations(states: seq<State>, steps: seq<Step>, i: nat, callback: nat)
    requires IsRun(states, steps) && i < |states|
    ensures Count(states[i], callback) == |Unfinished(states[i], callback)|
  {
    InvAlways(states, steps, i);
  }

  lemma {:induction false} StaysDone(states: seq<State>, steps: seq<Step>, i: nat, j: nat, u: nat)
    requires IsRun(states, steps) && i <= j < |states| && Unregistering(states[i], u) && At(states[i], u, Done)
    ensures Unregistering(states[j], u) && At(states[j], u, Done) && states[j].ops[u].kind == states[i].ops[u].kind
    decreases j - i
  {
    hide OpEnabled, NextOp, TakeNote, TakeFinish, NoteEnabled, FinishEnabled;
    if i < j {
      assert Next(states[i], steps[i], states[i + 1]);
      StepIs(states[i], steps[i], states[i + 1]);
      if steps[i].OpStep? {
        DoneDoesNotMove(states[i], steps[i].t, steps[i].action, u);
      }
      StaysDone(states, steps, i + 1, j, u);
    }
  }

  lemma DoneDoesNotMove(s: State, t: nat, a: Action, u: nat)
    requires OpEnabled(s, t, a) && At(s, u, Done)
    ensures t != u
  {
    hide Count, MayCall, NotCalling, NoneInFlight;
  }

  /** Unregister is final: in every run, once an Unregister call for a callback has returned, with or
      without an error, no invocation of the callback is running and none is ever started again. */
  lemma UnregisterIsFinal(states: seq<State>, steps: seq<Step>, i: nat, j: nat, u: nat)
    requires IsRun(states, steps) && i <= j < |states| && Unregistering(states[i], u) && At(states[i], u, Done)
    ensures var callback := states[i].ops[u].kind.callback;
            && Unfinished(states[j], callback) == {}
            && callback !in states[j].callbacks
            && (j < |steps| ==> !StepSpawns(steps[j], callback))
  {
    hide Unfinished, Kinds, AddRemoveLock, MapLock, Counts, Handles, NotesLive, LoopsOverMembers, Next;
    StaysDone(states, steps, i, j, u);
    InvAlways(states, steps, j);
    var callback := states[i].ops[u].kind.callback;
    if j < |steps| {
      assert Next(states[j], steps[j], states[j + 1]);
      if StepSpawns(steps[j], callback) {
        SpawnsOnlyMembers(states[j], steps[j], states[j + 1], callback);
      }
    }
  }

  /** At most one registration is ever live; and except while a Register call is asking for one, a map
      that is not empty has it, and the handle names it. */
  lemma OneRegistration(states: seq<State>, steps: seq<Step>, i: nat)
    requires IsRun(states, steps) && i < |states|
    ensures var s := states[i];
            && |s.live| <= 1
            && (s.callbacks != {} && (forall t :: !At(s, t, InNotify)) ==> s.handle != 0 && s.live == {s.handle})
  {
    hide MapLock, Members, Counts, Silenced, NotesLive, LoopsOverMembers, Next;
    InvAlways(states, steps, i);
    var s := states[i];
    if Current(s).pc == InNotify {
      assert At(s, s.addRemove.t, InNotify);
    }
    if Current(s).pc == AtClear {
      assert PcFits(s.ops[s.addRemove.t]);
    }
  }

  /** Between operations the handle is zero exactly when the map is empty, unless a cancel has failed. */
  lemma HandleZeroIffEmpty(states: seq<State>, steps: seq<Step>, i: nat)
    requires IsRun(states, steps) && i < |states| && states[i].addRemove == Nobody
    ensures states[i].handle == 0 ==> states[i].callbacks == {}
    ensures states[i].handle != 0 && states[i].callbacks == {} ==> CancelHasFailed(states[i])
  {
    hide AddRemoveLock, MapLock, Members, Counts, Silenced, NotesLive, LoopsOverMembers, Kinds, Next;
    InvAlways(states, steps, i);
  }

  // ---------------------------------------------------------------- no deadlock

  predicate IsBeginning(step: Step) {
    (step.OpStep? && (step.action.BeginRegister? || step.action.BeginUnregister?))
    || (step.NoteStep? && step.noteAction.Arrives?)
  }

  ghost predicate CanProgress(s: State) {
    exists step :: !IsBeginning(step) && Enabled(s, step)
  }

  /** No call comes from a callback. */
  ghost predicate CalledFromOutside(s: State) {
    forall t :: t in s.ops ==> s.ops[t].caller == Outside
  }

  ghost predicate SomethingUnderWay(s: State) {
    || (exists t :: t in s.ops && s.ops[t].pc != Done)
    || (exists n :: n in s.notes && s.notes[n].pc != Delivered)
    || (exists i :: Running(s, i))
  }

  lemma Progress(s: State, step: Step)
    requires Enabled(s, step) && !IsBeginning(step)
    ensures CanProgress(s)
  {
  }

  lemma MapHolderMoves(s: State)
    requires MapLock(s) && Kinds(s) && s.mutex != Nobody
    ensures CanProgress(s)
  {
    hide CanProgress, Count;
    if s.mutex.ByNote? {
      var n := s.mutex.n;
      assert Holding(s, n);
      if c :| c in s.notes[n].pc.todo {
        var i := NewInvocation(s);
        Progress(s, NoteStep(n, Spawns(c, i)));
      } else {
        Progress(s, NoteStep(n, UnlocksMap));
      }
    } else {
      var t := s.mutex.t;
      assert HoldsMap(OpOf(s, t).pc);
      var a := match s.ops[t].pc
        case InMap => if Registering(s, t) then Insert else Delete
        case InNotify => NotifyFailed
        case _ => UnlockMap;
      Progress(s, OpStep(t, a));
    }
  }

  lemma NewInvocation(s: State) returns (i: nat)
    ensures i !in s.invocations
  {
    i := Above(s.invocations.Keys);
  }

  lemma {:induction false} Above(keys: set<nat>) returns (i: nat)
    ensures forall k :: k in keys ==> k < i
    decreases |keys|
  {
    if k :| k in keys {
      var rest := keys - {k};
      var j := Above(rest);
      i := if j > k then j else k + 1;
      assert forall x :: x in keys ==> x == k || x in rest;
    } else {
      i := 0;
    }
  }

  lemma NoteTakesMap(s: State, n: nat)
    requires s.mutex == Nobody && MapLock(s) && n in s.notes && s.notes[n].pc != Delivered
    ensures CanProgress(s)
  {
    assert !Holding(s, n);
    assert Enabled(s, NoteStep(n, LocksMap));
  }

  /** A callback waits for an Unregister call that waits for the callback. */
  ghost predicate CircularWait(s: State) {
    exists u, i, w :: WaitsForItsCaller(s, u, i, w)
  }

  /** With the inner mutex free and no notification under way, the holder of the outer mutex can go on
      unless it waits for an invocation. */
  lemma HolderGoesOn(s: State, t: nat)
    requires AddRemoveLock(s) && MapLock(s) && Kinds(s) && s.mutex == Nobody && s.addRemove == ByOp(t)
    requires forall n :: n in s.notes ==> s.notes[n].pc == Delivered
    requires !At(s, t, AtWait) || (Unregistering(s, t) && Count(s, s.ops[t].kind.callback) == 0)
    ensures CanProgress(s)
  {
    hide CanProgress, Count;
    HolderExists(s, t);
    assert PcFits(s.ops[t]) && !HoldsMap(OpOf(s, t).pc);
    var a := match s.ops[t].pc
      case WantMap => LockMap
      case AtWait => WaitOver
      case AtCancel => Cancelled
      case AtClear => ClearHandle
      case _ => UnlockAddRemove;
    Progress(s, OpStep(t, a));
  }

  /** An Unregister call that waits: one of the invocations it waits for can finish, or has called
      something that is itself held up by the Unregister call. */
  lemma WaitEndsOrIsCircular(s: State, t: nat)
    requires AddRemoveLock(s) && Kinds(s) && Counts(s) && s.addRemove == ByOp(t)
    requires At(s, t, AtWait) && Unregistering(s, t) && Count(s, s.ops[t].kind.callback) > 0
    ensures CanProgress(s) || CircularWait(s)
  {
    hide CanProgress, CircularWait, Counts, Count;
    var callback := s.ops[t].kind.callback;
    CountIs(s, callback);
    var i :| i in Unfinished(s, callback);
    if NotCalling(s, i) {
      Progress(s, Finish(i));
    } else {
      var w :| w in s.ops && s.ops[w].caller == Inside(i) && s.ops[w].pc != Done;
      OtherWantsAddRemove(s, t, w);
      Circular(s, t, i, w);
    }
  }

  lemma OtherWantsAddRemove(s: State, t: nat, w: nat)
    requires AddRemoveLock(s) && Kinds(s) && s.addRemove == ByOp(t) && w in s.ops && s.ops[w].pc != Done
    ensures w == t || s.ops[w].pc == WantAddRemove
  {
    assert PcFits(s.ops[w]);
    assert HoldsAddRemove(OpOf(s, w).pc) <==> s.addRemove == ByOp(w);
  }

  lemma Circular(s: State, u: nat, i: nat, w: nat)
    requires WaitsForItsCaller(s, u, i, w)
    ensures CircularWait(s)
  {
  }

  lemma LoneInvocationFinishes(s: State, i: nat)
    requires Counts(s) && Running(s, i) && forall t :: t in s.ops ==> s.ops[t].pc == Done
    ensures CanProgress(s)
  {
    hide CanProgress, Count;
    CountIs(s, s.invocations[i].callback);
    RunningIsUnfinished(s, i);
    Progress(s, Finish(i));
  }

  /** No lock cycle but one: in every reachable state in which anything is under way, whatever callbacks
      call, some step of it is possible, or a callback waits for an Unregister call that waits for it. */
  lemma ProgressOrCircularWait(states: seq<State>, steps: seq<Step>, k: nat)
    requires IsRun(states, steps) && k < |states| && SomethingUnderWay(states[k])
    ensures CanProgress(states[k]) || CircularWait(states[k])
  {
    hide CanProgress, CircularWait, Kinds, MapLock, AddRemoveLock, Counts, IsRun, Handles, Members, Silenced, NotesLive,
         LoopsOverMembers, Count;
    InvAlways(states, steps, k);
    var s := states[k];
    if s.mutex != Nobody {
      MapHolderMoves(s);
    } else if n :| n in s.notes && s.notes[n].pc != Delivered {
      NoteTakesMap(s, n);
    } else if s.addRemove != Nobody {
      HolderIsOp(s);
      var t := s.addRemove.t;
      if At(s, t, AtWait) && Unregistering(s, t) && Count(s, s.ops[t].kind.callback) > 0 {
        WaitEndsOrIsCircular(s, t);
      } else {
        HolderGoesOn(s, t);
      }
    } else if t :| t in s.ops && s.ops[t].pc != Done {
      FreeCallLocks(s, t);
    } else {
      var i :| Running(s, i);
      LoneInvocationFinishes(s, i);
    }
  }

  lemma HolderIsOp(s: State)
    requires AddRemoveLock(s) && Kinds(s) && s.addRemove != Nobody
    ensures s.addRemove.ByOp? && s.addRemove.t in s.ops
    ensures At(s, s.addRemove.t, AtWait) ==> Unregistering(s, s.addRemove.t)
  {
    HolderExists(s, s.addRemove.t);
    assert PcFits(s.ops[s.addRemove.t]);
  }

  /** In particular, if callbacks call neither Register nor Unregister, something can always go on. */
  lemma NoDeadlock(states: seq<State>, steps: seq<Step>, k: nat)
    requires IsRun(states, steps) && k < |states| && CalledFromOutside(states[k]) && SomethingUnderWay(states[k])
    ensures CanProgress(states[k])
  {
    hide CanProgress, SomethingUnderWay, IsRun;
    ProgressOrCircularWait(states, steps, k);
  }

  lemma FreeCallLocks(s: State, t: nat)
    requires AddRemoveLock(s) && Kinds(s) && s.addRemove == Nobody && t in s.ops && s.ops[t].pc != Done
    ensures CanProgress(s)
  {
    hide CanProgress;
    assert PcFits(s.ops[t]) && !HoldsAddRemove(OpOf(s, t).pc);
    Progress(s, OpStep(t, LockAddRemove));
  }

  /** A pending cancel holds the outer mutex and not the inner one, which a notification needs. */
  lemma CancelLeavesMapFree(states: seq<State>, steps: seq<Step>, k: nat, t: nat)
    requires IsRun(states, steps) && k < |states| && At(states[k], t, AtCancel)
    ensures states[k].addRemove == ByOp(t) && !states[k].mutex.ByOp?
  {
    hide Kinds, Members, Counts, Silenced, Handles, NotesLive, LoopsOverMembers, IsRun;
    InvAlways(states, steps, k);
    var s := states[k];
    assert HoldsAddRemove(OpOf(s, t).pc);
    MapHolderHoldsBoth(s);
  }

  lemma MapHolderHoldsBoth(s: State)
    requires AddRemoveLock(s) && MapLock(s)
    ensures s.mutex.ByOp? ==> s.addRemove == s.mutex && HoldsMap(OpOf(s, s.mutex.t).pc)
  {
    if s.mutex.ByOp? {
      assert HoldsMap(OpOf(s, s.mutex.t).pc);
      assert HoldsAddRemove(OpOf(s, s.mutex.t).pc);
    }
  }

  // ---------------------------------------------------------------- calls from inside a callback

  /** An Unregister call waits for invocation i, which itself waits for that call, or for another call
      that stands before the outer mutex. */
  ghost predicate WaitsForItsCaller(s: State, u: nat, i: nat, w: nat) {
    && Unregistering(s, u) && At(s, u, AtWait)
    && Running(s, i) && s.invocations[i].callback == s.ops[u].kind.callback
    && w in s.ops && s.ops[w].caller == Inside(i) && (w == u || s.ops[w].pc == WantAddRemove)
  }

  lemma StillWaits(s: State, step: Step, s': State, u: nat, i: nat, w: nat)
    requires AddRemoveLock(s) && Counts(s) && WaitsForItsCaller(s, u, i, w) && Next(s, step, s')
    ensures WaitsForItsCaller(s', u, i, w)
  {
    hide Counts, Unfinished, Count, MayCall, NoneInFlight, NextCallbacks, NextHandle, NextLive, NextMutex,
         NextAddRemove, NextOp, TakeNote, AddRemoveLock;
    assert HoldsAddRemove(s.ops[u].pc);
    HolderIs(s, u);
    CountIs(s, s.ops[u].kind.callback);
    RunningIsUnfinished(s, i);
    match step
    case OpStep(t, a) =>
    case NoteStep(n, a) => NoteKeepsRunning(s, n, a, i);
    case Finish(k) =>
  }

  lemma RunningIsUnfinished(s: State, i: nat)
    requires Running(s, i)
    ensures Unfinished(s, s.invocations[i].callback) != {}
  {
    assert i in Unfinished(s, s.invocations[i].callback);
  }

  lemma HolderIs(s: State, u: nat)
    requires AddRemoveLock(s) && u in s.ops && HoldsAddRemove(s.ops[u].pc)
    ensures s.addRemove == ByOp(u)
  {
    assert HoldsAddRemove(OpOf(s, u).pc);
  }

  lemma NoteKeepsRunning(s: State, n: nat, a: NoteAction, i: nat)
    requires NoteEnabled(s, n, a) && Running(s, i)
    ensures var s' := TakeNote(s, n, a);
            Running(s', i) && s'.invocations[i].callback == s.invocations[i].callback && s'.ops == s.ops
  {
  }

  /** Such a call never returns, whatever else happens: a callback must not unregister itself, and must
      call neither function while its own Unregister may be waiting. */
  lemma {:induction false} NeverReturns(states: seq<State>, steps: seq<Step>, k: nat, j: nat, u: nat, i: nat, w: nat)
    requires IsRun(states, steps) && k <= j < |states| && WaitsForItsCaller(states[k], u, i, w)
    ensures WaitsForItsCaller(states[j], u, i, w)
    decreases j - k
  {
    hide WaitsForItsCaller, Next, AddRemoveLock, MapLock, Kinds, Members, LoopsOverMembers, Counts, Silenced, Handles,
         NotesLive;
    if k < j {
      InvAlways(states, steps, k);
      assert Next(states[k], steps[k], states[k + 1]);
      StillWaits(states[k], steps[k], states[k + 1], u, i, w);
      NeverReturns(states, steps, k + 1, j, u, i, w);
    }
  }

  /** There is a run that ends in s. */
  ghost predicate Reachable(s: State) {
    exists states, steps :: IsRun(states, steps) && states[|steps|] == s
  }

  lemma ReachableStep(s: State, step: Step) returns (s': State)
    requires Reachable(s) && Enabled(s, step)
    ensures Reachable(s') && s' == Take(s, step)
  {
    hide Enabled, Take;
    s' := Take(s, step);
    var states, steps :| IsRun(states, steps) && states[|steps|] == s;
    var states', steps' := states + [s'], steps + [step];
    forall i | 0 <= i < |steps'|
      ensures Next(states'[i], steps'[i], states'[i + 1])
    {
      if i < |steps| {
        assert Next(states[i], steps[i], states[i + 1]);
      }
    }
    assert IsRun(states', steps') && states'[|steps'|] == s';
  }

  lemma InitialReachable(s: State)
    requires Initial(s)
    ensures Reachable(s)
  {
    var states, steps: seq<Step> := [s], [];
    assert IsRun(states, steps) && states[|steps|] == s;
  }

  /** A first Register call, up to the point where both mutexes are held. */
  lemma FirstRegisterInside() returns (s: State)
    ensures Reachable(s)
    ensures s ==
            State(ByOp(0), ByOp(0), {}, 0, {}, map[], map[0 := Op(Register, InMap, true, false, Outside)], map[], map[])
  {
    hide Reachable, NotCalling, NoneInFlight;
    s := State(Nobody, Nobody, {}, 0, {}, map[], map[], map[], map[]);
    InitialReachable(s);
    s := ReachableStep(s, OpStep(0, BeginRegister(Outside)));
    s := ReachableStep(s, OpStep(0, LockAddRemove));
    s := ReachableStep(s, OpStep(0, LockMap));
  }

  /** From there until the registration is given. */
  lemma FirstRegisterNotified() returns (s: State)
    ensures Reachable(s)
    ensures s ==
            State(ByOp(0), ByOp(0), {0}, 1, {1}, map[], map[0 := Op(Register, LeavingMap, true, false, Outside)],
                  map[], map[])
  {
    hide Reachable, NotCalling, NoneInFlight;
    s := FirstRegisterInside();
    s := ReachableStep(s, OpStep(0, Insert));
    s := ReachableStep(s, OpStep(0, Notified(1)));
  }

  /** From there to the end. */
  lemma FirstRegister() returns (s: State)
    ensures Reachable(s)
    ensures s ==
            State(Nobody, Nobody, {0}, 1, {1}, map[], map[0 := Op(Register, Done, true, false, Outside)], map[], map[])
  {
    hide Reachable, NotCalling, NoneInFlight;
    s := FirstRegisterNotified();
    s := ReachableStep(s, OpStep(0, UnlockMap));
    s := ReachableStep(s, OpStep(0, UnlockAddRemove));
  }

  /** A notification that has started invocation 0 of callback 0. */
  lemma FirstInvocation() returns (s: State)
    ensures Reachable(s) && Running(s, 0) && s.invocations[0].callback == 0
    ensures s.addRemove == Nobody && s.mutex == Nobody && s.ops == map[0 := Op(Register, Done, true, false, Outside)]
  {
    hide Reachable, NotCalling, NoneInFlight;
    s := FirstRegister();
    s := ReachableStep(s, NoteStep(0, Arrives(1)));
    s := ReachableStep(s, NoteStep(0, LocksMap));
    s := ReachableStep(s, NoteStep(0, Spawns(0, 0)));
    s := ReachableStep(s, NoteStep(0, UnlocksMap));
  }

  /** An Unregister call for callback 0 takes both mutexes. */
  lemma UnregisterGetsInside(s0: State, caller: Caller) returns (s: State)
    requires Reachable(s0) && MayCall(s0, caller)
    requires s0.addRemove == Nobody && s0.mutex == Nobody
             && s0.ops == map[0 := Op(Register, Done, true, false, Outside)]
    ensures Reachable(s) && s.ops == s0.ops[1 := Op(Unregister(0), InMap, true, false, caller)]
            && s.invocations == s0.invocations
    ensures s.addRemove == ByOp(1) && s.mutex == ByOp(1)
  {
    hide Reachable, NotCalling, NoneInFlight, NextCallbacks, NextHandle, NextLive;
    s := ReachableStep(s0, OpStep(1, BeginUnregister(0, caller)));
    s := ReachableStep(s, OpStep(1, LockAddRemove));
    s := ReachableStep(s, OpStep(1, LockMap));
  }

  /** From there it reaches its wait. */
  lemma UnregisterReachesWait(s0: State, caller: Caller) returns (s: State)
    requires Reachable(s0) && MayCall(s0, caller)
    requires s0.addRemove == Nobody && s0.mutex == Nobody
             && s0.ops == map[0 := Op(Register, Done, true, false, Outside)]
    ensures Reachable(s) && At(s, 1, AtWait) && s.ops[1].kind == Unregister(0) && s.ops[1].caller == caller
    ensures s.invocations == s0.invocations && s.ops.Keys == {0, 1}
  {
    hide Reachable, NotCalling, NoneInFlight, NextCallbacks, NextHandle, NextLive;
    s := UnregisterGetsInside(s0, caller);
    s := ReachableStep(s, OpStep(1, Delete));
    s := ReachableStep(s, OpStep(1, UnlockMap));
  }

  /** Both deadlocks can happen: a callback that unregisters itself, and a callback that registers
      another one while it is being unregistered from outside. */
  lemma DeadlocksAreReachable() returns (s: State, s': State)
    ensures Reachable(s) && WaitsForItsCaller(s, 1, 0, 1)
    ensures Reachable(s') && WaitsForItsCaller(s', 1, 0, 2) && OpOf(s', 1).caller == Outside && Registering(s', 2)
  {
    hide Reachable, NotCalling, NoneInFlight;
    var s0 := FirstInvocation();
    s := UnregisterReachesWait(s0, Inside(0));
    s' := UnregisterReachesWait(s0, Outside);
    s' := ReachableStep(s', OpStep(2, BeginRegister(Inside(0))));
  }
}
