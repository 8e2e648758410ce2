/** What one call of the Wintun device does between its beginning and its return, in every run and whatever
    the other calls, Close and the driver do in between. */
module WintunCalls {
  import opened WintunShutdown

  predicate IsStepOf(step: Step, t: nat) {
    match step
    case Begin(u, _) => u == t
    case TestClosed(u) => u == t
    case Receive(u, _) => u == t
    case Release(u) => u == t
    case Wake(u) => u == t
    case Allocate(u, _) => u == t
    case Send(u) => u == t
    case Finish(u) => u == t
    case _ => false
  }

  /** Two steps of a call with none of its own in between. */
  ghost predicate Consecutive(steps: seq<Step>, i: nat, j: nat, t: nat) {
    && i < j < |steps| && IsStepOf(steps[i], t) && IsStepOf(steps[j], t)
    && forall k :: i < k < j ==> !IsStepOf(steps[k], t)
  }

  /** What may come after a step, as the program text has it; `closed` is the flag when the step was taken. */
  predicate MayFollow(kind: Kind, step: Step, closed: bool, next: Step) {
    match step
    case Begin(_, _) => next.TestClosed?
    case TestClosed(_) =>
      if closed then next.Finish?
      else if kind == Writer then next.Allocate?
      else next.TestClosed? || next.Receive?
    case Receive(_, Packet) => next.Release?
    case Receive(_, NoMoreWait) => next.Wake?
    case Receive(_, NoMoreSpin) => next.TestClosed?
    case Receive(_, ReceiveError) => next.Finish?
    case Release(_) => next.Finish?
    case Wake(_) => next.TestClosed?
    case Allocate(_, ok) => if ok then next.Send? else next.Finish?
    case Send(_) => next.Finish?
    case _ => false
  }

  /** Steps of others leave a call where it is. */
  lemma OthersLeave(s: State, step: Step, s': State, t: nat)
    requires Next(s, step, s') && !IsStepOf(step, t) && t in s.calls
    ensures t in s'.calls && s'.calls[t] == s.calls[t]
  {
  }

  lemma {:induction false} Stays(states: seq<State>, steps: seq<Step>, i: nat, j: nat, t: nat)
    requires IsRun(states, steps) && i < j <= |steps| && t in states[i + 1].calls
    requires forall k :: i < k < j ==> !IsStepOf(steps[k], t)
    ensures t in states[j].calls && states[j].calls[t] == states[i + 1].calls[t]
    decreases j
  {
    hide Next;
    if j > i + 1 {
      Stays(states, steps, i, j - 1, t);
      assert Next(states[j - 1], steps[j - 1], states[j - 1 + 1]);
      OthersLeave(states[j - 1], steps[j - 1], states[j], t);
    }
  }

  /** A step of a call is that of its kind: only readers receive and only writers allocate. */
  ghost predicate KindsFit(s: State) {
    forall t :: t in s.calls ==>
      && (s.calls[t].pc in {Looping, Receiving, Holding, Waiting} ==> s.calls[t].kind == Reader)
      && (s.calls[t].pc in {Allocating, Sending} ==> s.calls[t].kind == Writer)
  }

  lemma {:induction false} KindsFitAlways(states: seq<State>, steps: seq<Step>, i: nat)
    requires IsRun(states, steps) && i <= |steps|
    ensures KindsFit(states[i])
  {
    hide IsRun, Next;
    if i == 0 {
      assert states[0].calls == map[] by {
        StartsEmpty(states, steps);
      }
    } else {
      KindsFitAlways(states, steps, i - 1);
      RunStep(states, steps, i - 1);
      KindsFitStep(states[i - 1], steps[i - 1], states[i]);
    }
  }

  lemma StartsEmpty(states: seq<State>, steps: seq<Step>)
    requires IsRun(states, steps)
    ensures |states| == |steps| + 1 && states[0].calls == map[]
  {
  }

  lemma RunStep(states: seq<State>, steps: seq<Step>, i: nat)
    requires IsRun(states, steps) && i < |steps|
    ensures |states| == |steps| + 1 && Next(states[i], steps[i], states[i + 1])
  {
  }

  lemma KindsFitStep(s: State, step: Step, s': State)
    requires KindsFit(s) && Next(s, step, s')
    ensures KindsFit(s')
  {
  }

  /** Where a step leaves its call, and where it can be taken. */
  lemma OwnStep(s: State, step: Step, s': State, t: nat)
    requires Next(s, step, s') && IsStepOf(step, t)
    ensures t in s'.calls
    ensures !step.Begin? ==> t in s.calls && s'.calls[t].kind == s.calls[t].kind
  {
  }

  /** The steps of every call follow each other as the program text says. */
  lemma StepsInOrder(states: seq<State>, steps: seq<Step>, i: nat, j: nat, t: nat)
    requires IsRun(states, steps) && Consecutive(steps, i, j, t)
    ensures t in states[j].calls
    ensures MayFollow(states[j].calls[t].kind, steps[i], states[i].closed, steps[j])
  {
    RunStep(states, steps, i);
    RunStep(states, steps, j);
    KindsFitAlways(states, steps, i);
    KindsFitAlways(states, steps, i + 1);
    OwnStep(states[i], steps[i], states[i + 1], t);
    Stays(states, steps, i, j, t);
    hide KindsFit;
  }

  /** A reader tests the flag twice after it has begun or has been woken, and once for every further try. */
  lemma ReaderTests(states: seq<State>, steps: seq<Step>, i: nat, j: nat, k: nat, t: nat)
    requires IsRun(states, steps) && Consecutive(steps, i, j, t) && Consecutive(steps, j, k, t)
    requires steps[j].TestClosed? && !states[j].closed && t in states[k].calls && states[k].calls[t].kind == Reader
    ensures steps[i].Begin? || steps[i].Wake? ==> steps[k].TestClosed?
    ensures steps[i].TestClosed? || steps[i].Receive? ==> steps[k].Receive?
  {
    RunStep(states, steps, i);
    RunStep(states, steps, j);
    RunStep(states, steps, k);
    OwnStep(states[i], steps[i], states[i + 1], t);
    Stays(states, steps, i, j, t);
    OwnStep(states[j], steps[j], states[j + 1], t);
    Stays(states, steps, j, k, t);
  }

  /** A call that is in flight has a step to take, unless it waits for the event. */
  lemma CallCanStep(s: State, t: nat)
    requires Inv(s) && t in InFlight(s)
    ensures (exists step :: IsStepOf(step, t) && Enabled(s, step)) || (s.calls[t].pc == Waiting && !s.event)
  {
    var pc := s.calls[t].pc;
    var step :=
      if pc == Counted || pc == Looping then TestClosed(t)
      else if pc == Receiving then Receive(t, Packet)
      else if pc == Holding then Release(t)
      else if pc == Waiting then Wake(t)
      else if pc == Allocating then Allocate(t, true)
      else if pc == Sending then Send(t)
      else Finish(t);
    assert IsStepOf(step, t);
    if pc == Leaving {
      assert InFlight(s) != {};
    }
    assert (pc == Waiting && !s.event) || Enabled(s, step);
  }

  /** Close stores the flag, signals, waits for everyone and ends the session, in this order and once. */
  lemma CloseInOrder(s: State, step: Step, s': State)
    requires Next(s, step, s')
    ensures s'.closer != s.closer ==>
              || (step == StoreFlag && s.closer == NotClosing && s'.closer == FlagStored && s'.closed)
              || (step == SetEvent && s.closer == FlagStored && s'.closer == Signalled && s'.event)
              || (step == WaitReturns && s.closer == Signalled && s'.closer == Drained && s.running == 0)
              || (step == EndSession && s.closer == Drained && s'.closer == Ended)
    ensures step in {StoreFlag, SetEvent, WaitReturns, EndSession} ==> s'.closer != s.closer
    ensures s'.closed != s.closed ==> step == StoreFlag
    ensures s'.event && !s.event ==> step == SetEvent || step == DriverSignals
    ensures s.event && !s'.event ==> step.Wake?
  {
  }
}
