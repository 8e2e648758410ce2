/** What one call of Register or Unregister does between its beginning and its return, in every run. */
module CallbackCalls {
  import opened ChangeHandler

  predicate IsStepOf(step: Step, t: nat) {
    step.OpStep? && step.t == t
  }

  /** Two steps of a call with none of its own in between. */
  ghost predicate Consecutive(steps: seq<Step>, i: nat, j: nat, t: nat) {
    && i < j < |steps| && IsStepOf(steps[i], t) && IsStepOf(steps[j], t)
    && forall k :: i < k < j ==> !IsStepOf(steps[k], t)
  }

  /** What comes after a step of Register, as the program text has it; `idle` says that there was no
      registration of the system when the step was taken. */
  predicate RegisterGoesOn(a: Action, idle: bool, next: Action) {
    match a
    case BeginRegister(_) => next == LockAddRemove
    case LockAddRemove => next == LockMap
    case LockMap => next == Insert
    case Insert => if idle then next.Notified? || next == NotifyFailed else next == UnlockMap
    case Notified(_) => next == UnlockMap
    case NotifyFailed => next == UnlockMap
    case UnlockMap => next == UnlockAddRemove
    case _ => false
  }

  /** The same for Unregister; `remove` says that its callback was the last one of a registration. */
  predicate UnregisterGoesOn(a: Action, remove: bool, next: Action) {
    match a
    case BeginUnregister(_, _) => next == LockAddRemove
    case LockAddRemove => next == LockMap
    case LockMap => next == Delete
    case Delete => next == UnlockMap
    case UnlockMap => next == WaitOver
    case WaitOver => if remove then next == Cancelled || next == CancelFailed else next == UnlockAddRemove
    case Cancelled => next == ClearHandle
    case CancelFailed => next == UnlockAddRemove
    case ClearHandle => next == UnlockAddRemove
    case _ => false
  }

  lemma OthersLeave(s: State, step: Step, s': State, t: nat)
    requires Next(s, step, s') && !IsStepOf(step, t) && t in s.ops
    ensures t in s'.ops && s'.ops[t] == s.ops[t]
  {
    hide OpEnabled, NextOp, NextAddRemove, NextMutex, NextCallbacks, NextHandle, NextLive, NotCalling, Count;
  }

  lemma RunStep(states: seq<State>, steps: seq<Step>, i: nat)
    requires IsRun(states, steps) && i < |steps|
    ensures |states| == |steps| + 1 && Next(states[i], steps[i], states[i + 1])
  {
  }

  lemma {:induction false} Stays(states: seq<State>, steps: seq<Step>, i: nat, j: nat, t: nat)
    requires IsRun(states, steps) && i < j <= |steps| && t in states[i + 1].ops
    requires forall k :: i < k < j ==> !IsStepOf(steps[k], t)
    ensures t in states[j].ops && states[j].ops[t] == states[i + 1].ops[t]
    decreases j
  {
    hide Next, IsRun;
    RunStep(states, steps, i);
    if j > i + 1 {
      Stays(states, steps, i, j - 1, t);
      RunStep(states, steps, j - 1);
      OthersLeave(states[j - 1], steps[j - 1], states[j], t);
    }
  }

  /** One step of a call, and the next one from the place where it has left the call. */
  lemma GoesOn(s: State, t: nat, a: Action, later: State, next: Action)
    requires OpEnabled(s, t, a) && OpEnabled(later, t, next) && t in later.ops && later.ops[t] == NextOp(s, t, a)
    requires t in s.ops ==> PcFits(s.ops[t])
    ensures if later.ops[t].kind == Register then RegisterGoesOn(a, s.handle == 0, next)
            else UnregisterGoesOn(a, later.ops[t].removeIt, next)
  {
    hide Count, MayCall, NotCalling, NoneInFlight, NextCallbacks;
  }

  lemma KindsOfRun(states: seq<State>, steps: seq<Step>, i: nat)
    requires IsRun(states, steps) && i < |states|
    ensures Kinds(states[i])
  {
    hide IsRun, Inv;
    InvAlways(states, steps, i);
    InvHasKinds(states[i]);
  }

  lemma InvHasKinds(s: State)
    requires Inv(s)
    ensures Kinds(s)
  {
  }

  /** The steps of every call follow each other as the program text says. */
  lemma StepsInOrder(states: seq<State>, steps: seq<Step>, i: nat, j: nat, t: nat)
    requires IsRun(states, steps) && Consecutive(steps, i, j, t)
    ensures t in states[j].ops
    ensures var op := states[j].ops[t];
            if op.kind == Register then RegisterGoesOn(steps[i].action, states[i].handle == 0, steps[j].action)
            else UnregisterGoesOn(steps[i].action, op.removeIt, steps[j].action)
  {
    hide IsRun, Kinds, OpEnabled, NextOp, PcFits, RegisterGoesOn, UnregisterGoesOn, TargetFits;
    RunStep(states, steps, i);
    RunStep(states, steps, j);
    KindsOfRun(states, steps, i);
    FitsIn(states[i], t);
    Stays(states, steps, i, j, t);
    GoesOn(states[i], t, steps[i].action, states[j], steps[j].action);
  }

  lemma FitsIn(s: State, t: nat)
    requires Kinds(s)
    ensures t in s.ops ==> PcFits(s.ops[t])
  {
  }

  /** Whether the registration is to be given up is decided by the deletion, and kept. */
  lemma DeletionDecides(s: State, t: nat, a: Action)
    requires OpEnabled(s, t, a) && Unregistering(s, t)
    ensures a == Delete ==>
              var rest := s.callbacks - {s.ops[t].kind.callback};
              && TakeOp(s, t, a).callbacks == rest
              && (TakeOp(s, t, a).ops[t].removeIt <==> rest == {} && s.handle != 0)
    ensures a != Delete ==> TakeOp(s, t, a).ops[t].removeIt == s.ops[t].removeIt
  {
    hide Count, MayCall, NotCalling, NoneInFlight;
  }

  /** What the outcome of a call is: an error exactly if the system refused something. */
  lemma OutcomeKept(s: State, t: nat, a: Action)
    requires OpEnabled(s, t, a)
    ensures !TakeOp(s, t, a).ops[t].ok <==>
            a == NotifyFailed || a == CancelFailed || (t in s.ops && !s.ops[t].ok)
    ensures a == NotifyFailed ==> t !in TakeOp(s, t, a).callbacks && TakeOp(s, t, a).handle == 0
    ensures a == CancelFailed ==> TakeOp(s, t, a).handle == s.handle && TakeOp(s, t, a).live == s.live
  {
    hide Count, MayCall, NotCalling, NoneInFlight;
  }
}
