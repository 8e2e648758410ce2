/** Shutting down the Wintun device while readers and writers are inside it: a close flag, a wait group
    counting the calls in flight, a wake-up event, and the session whose rings must not be touched
    after it has ended. Each step below is one atomic action of one caller, of Close, or of the driver. */
module WintunShutdown {

  datatype Kind = Reader | Writer

  /** Where a call of ReadFunc, Write or write stands. */
  datatype Pc =
    | Counted     // running.Add(1) done, about to test the close flag (the retry label for a reader)
    | Looping     // reader: about to test the close flag inside the loop
    | Receiving   // reader: about to call ReceivePacket
    | Holding     // reader: has a packet, about to call ReleaseReceivePacket
    | Waiting     // reader: in WaitForSingleObject
    | Allocating  // writer: about to call AllocateSendPacket
    | Sending     // writer: has a packet, about to call SendPacket
    | Leaving     // about to run the deferred running.Done()
    | Returned

  datatype Call = Call(kind: Kind, pc: Pc)

  /** Where the body of closeOnce stands. */
  datatype ClosePc = NotClosing | FlagStored | Signalled | Drained | Ended

  datatype State = State(closed: bool, event: bool, running: nat, calls: map<nat, Call>, closer: ClosePc)

  datatype Received = Packet | NoMoreWait | NoMoreSpin | ReceiveError

  datatype Step =
    | Begin(t: nat, kind: Kind)
    | TestClosed(t: nat)
    | Receive(t: nat, received: Received)
    | Release(t: nat)
    | Wake(t: nat)
    | Allocate(t: nat, ok: bool)
    | Send(t: nat)
    | Finish(t: nat)
    | DriverSignals
    | StoreFlag | SetEvent | WaitReturns | EndSession

  predicate IsRingOp(step: Step) {
    step.Receive? || step.Release? || step.Allocate? || step.Send?
  }

  predicate At(s: State, t: nat, pc: Pc) {
    t in s.calls && s.calls[t].pc == pc
  }

  /** Whether the step can be taken. A call number is used once; the event is auto-reset. */
  predicate Enabled(s: State, step: Step) {
    match step
    case Begin(t, kind) => t !in s.calls
    case TestClosed(t) => At(s, t, Counted) || At(s, t, Looping)
    case Receive(t, _) => At(s, t, Receiving)
    case Release(t) => At(s, t, Holding)
    case Wake(t) => At(s, t, Waiting) && s.event
    case Allocate(t, _) => At(s, t, Allocating)
    case Send(t) => At(s, t, Sending)
    case Finish(t) => At(s, t, Leaving) && s.running > 0
    case DriverSignals => true
    case StoreFlag => s.closer == NotClosing
    case SetEvent => s.closer == FlagStored
    case WaitReturns => s.closer == Signalled && s.running == 0
    case EndSession => s.closer == Drained
  }

  function Move(s: State, t: nat, pc: Pc): State
    requires t in s.calls
  {
    s.(calls := s.calls[t := s.calls[t].(pc := pc)])
  }

  function Take(s: State, step: Step): State
    requires Enabled(s, step)
  {
    match step
    case Begin(t, kind) => s.(running := s.running + 1, calls := s.calls[t := Call(kind, Counted)])
    case TestClosed(t) =>
      if s.closed then Move(s, t, Leaving)
      else if s.calls[t].kind == Writer then Move(s, t, Allocating)
      else if s.calls[t].pc == Counted then Move(s, t, Looping)
      else Move(s, t, Receiving)
    case Receive(t, received) =>
      Move(s, t, match received
                 case Packet => Holding
                 case NoMoreWait => Waiting
                 case NoMoreSpin => Looping
                 case ReceiveError => Leaving)
    case Release(t) => Move(s, t, Leaving)
    case Wake(t) => Move(s, t, Counted).(event := false)
    case Allocate(t, ok) => Move(s, t, if ok then Sending else Leaving)
    case Send(t) => Move(s, t, Leaving)
    case Finish(t) => Move(s, t, Returned).(running := s.running - 1)
    case DriverSignals => s.(event := true)
    case StoreFlag => s.(closed := true, closer := FlagStored)
    case SetEvent => s.(event := true, closer := Signalled)
    case WaitReturns => s.(closer := Drained)
    case EndSession => s.(closer := Ended)
  }

  predicate Initial(s: State) {
    s == State(false, false, 0, map[], NotClosing)
  }

  ghost predicate Next(s: State, step: Step, s': State) {
    Enabled(s, step) && s' == Take(s, step)
  }

  /** A finite run: |steps| steps through |steps| + 1 states. */
  ghost predicate IsRun(states: seq<State>, steps: seq<Step>) {
    && |states| == |steps| + 1
    && Initial(states[0])
    && forall i :: 0 <= i < |steps| ==> Next(states[i], steps[i], states[i + 1])
  }

  // ---------------------------------------------------------------- safety

  function InFlight(s: State): set<nat> {
    set t | t in s.calls && s.calls[t].pc != Returned
  }

  predicate InsideRing(pc: Pc) {
    pc == Receiving || pc == Holding || pc == Allocating || pc == Sending
  }

  predicate Over(c: ClosePc) {
    c == Drained || c == Ended
  }

  /** The wait group counts the calls in flight; the flag is set as soon as closing has begun; once the
      wait is over, calls that are still there have come too late to get past the flag. */
  ghost predicate Inv(s: State) {
    && s.running == |InFlight(s)|
    && (s.closed <==> s.closer != NotClosing)
    && (Over(s.closer) ==> forall t :: t in s.calls ==> s.calls[t].pc in {Counted, Leaving, Returned})
  }

  lemma InvInitial(s: State)
    requires Initial(s)
    ensures Inv(s)
  {
    assert InFlight(s) == {};
  }

  lemma NobodyInside(s: State)
    requires Inv(s) && s.running == 0
    ensures forall t :: t in s.calls ==> s.calls[t].pc == Returned
  {
    forall t | t in s.calls
      ensures s.calls[t].pc == Returned
    {
      assert t !in InFlight(s);
    }
  }

  /** A call that moves on without returning, past the flag only if it is not set. */
  lemma MoveKeepsInv(s: State, t: nat, pc: Pc, event: bool)
    requires Inv(s) && t in s.calls && s.calls[t].pc != Returned && pc != Returned
    requires Over(s.closer) ==> pc in {Counted, Leaving}
    ensures Inv(Move(s, t, pc).(event := event))
  {
    assert InFlight(Move(s, t, pc).(event := event)) == InFlight(s);
  }

  lemma ReturnKeepsInv(s: State, t: nat)
    requires Inv(s) && t in s.calls && s.calls[t].pc == Leaving && s.running > 0
    ensures Inv(Move(s, t, Returned).(running := s.running - 1))
  {
    assert InFlight(Move(s, t, Returned).(running := s.running - 1)) == InFlight(s) - {t};
  }

  lemma BeginKeepsInv(s: State, t: nat, kind: Kind)
    requires Inv(s) && t !in s.calls
    ensures Inv(s.(running := s.running + 1, calls := s.calls[t := Call(kind, Counted)]))
  {
    assert InFlight(s.(running := s.running + 1, calls := s.calls[t := Call(kind, Counted)])) == InFlight(s) + {t};
  }

  /** Steps of Close and of the driver leave the calls alone. */
  lemma OtherKeepsInv(s: State, s': State)
    requires Inv(s) && s'.calls == s.calls && s'.running == s.running
    requires s'.closed <==> s'.closer != NotClosing
    requires Over(s'.closer) ==> Over(s.closer) || s.running == 0
    ensures Inv(s')
  {
    assert InFlight(s') == InFlight(s);
    if s.running == 0 {
      NobodyInside(s);
    }
  }

  lemma InvStep(s: State, step: Step, s': State)
    requires Inv(s) && Next(s, step, s')
    ensures Inv(s')
  {
    hide Inv, InFlight, Over;
    if Over(s.closer) {
      OverFacts(s);
    }
    match step
    case Begin(t, kind) => BeginKeepsInv(s, t, kind);
    case TestClosed(t) => MoveKeepsInv(s, t, s'.calls[t].pc, s.event);
    case Receive(t, _) => MoveKeepsInv(s, t, s'.calls[t].pc, s.event);
    case Release(t) => MoveKeepsInv(s, t, Leaving, s.event);
    case Wake(t) => MoveKeepsInv(s, t, Counted, false);
    case Allocate(t, _) => MoveKeepsInv(s, t, s'.calls[t].pc, s.event);
    case Send(t) => MoveKeepsInv(s, t, Leaving, s.event);
    case Finish(t) => ReturnKeepsInv(s, t);
    case _ =>
      CloserFacts(s, step);
      OtherKeepsInv(s, s');
  }

  lemma OverFacts(s: State)
    requires Inv(s) && Over(s.closer)
    ensures s.closed && forall t :: t in s.calls ==> !InsideRing(s.calls[t].pc) && s.calls[t].pc !in {Looping, Waiting}
  {
  }

  lemma CloserFacts(s: State, step: Step)
    requires Inv(s) && Enabled(s, step)
    requires step.DriverSignals? || step.StoreFlag? || step.SetEvent? || step.WaitReturns? || step.EndSession?
    ensures var s' := Take(s, step);
            (s'.closed <==> s'.closer != NotClosing) && (Over(s'.closer) ==> Over(s.closer) || s.running == 0)
  {
  }

  lemma {:induction false} InvAlways(states: seq<State>, steps: seq<Step>, i: nat)
    requires IsRun(states, steps) && i < |states|
    ensures Inv(states[i])
  {
    if i == 0 {
      InvInitial(states[0]);
    } else {
      InvAlways(states, steps, i - 1);
      InvStep(states[i - 1], steps[i - 1], states[i]);
    }
  }

  lemma {:induction false} OverStaysOver(states: seq<State>, steps: seq<Step>, i: nat, j: nat)
    requires IsRun(states, steps) && i <= j < |states| && Over(states[i].closer)
    ensures Over(states[j].closer)
    decreases j - i
  {
    if i < j {
      assert Next(states[i], steps[i], states[i + 1]);
      OverStaysOver(states, steps, i + 1, j);
    }
  }

  /** Safety: in every run, no ring operation of a reader or writer comes after the wait has returned,
      hence none comes after the session has ended, even if the caller entered after the wait. */
  lemma NoRingOpAfterWait(states: seq<State>, steps: seq<Step>, i: nat, j: nat)
    requires IsRun(states, steps) && i < j < |steps| && (steps[i] == WaitReturns || steps[i] == EndSession)
    ensures !IsRingOp(steps[j])
  {
    assert Next(states[i], steps[i], states[i + 1]);
    assert Next(states[j], steps[j], states[j + 1]);
    OverStaysOver(states, steps, i + 1, j);
    InvAlways(states, steps, j);
  }

  /** The session ends at most once, and only when nobody holds a packet of either ring. */
  lemma EndSessionOnceAndEmptyHanded(states: seq<State>, steps: seq<Step>, i: nat)
    requires IsRun(states, steps) && i < |steps| && steps[i] == EndSession
    ensures forall t :: t in states[i].calls ==> !InsideRing(states[i].calls[t].pc)
    ensures forall j :: i < j < |steps| ==> steps[j] != EndSession
  {
    InvAlways(states, steps, i);
    assert Next(states[i], steps[i], states[i + 1]);
    forall j | i < j < |steps|
      ensures steps[j] != EndSession
    {
      EndedStays(states, steps, i + 1, j);
      assert Next(states[j], steps[j], states[j + 1]);
    }
  }

  lemma {:induction false} EndedStays(states: seq<State>, steps: seq<Step>, i: nat, j: nat)
    requires IsRun(states, steps) && i <= j < |states| && states[i].closer == Ended
    ensures states[j].closer == Ended
    decreases j - i
  {
    if i < j {
      assert Next(states[i], steps[i], states[i + 1]);
      EndedStays(states, steps, i + 1, j);
    }
  }

  // ---------------------------------------------------------------- no lost wake-up

  predicate ReaderIn(s: State, t: nat) {
    t in s.calls && s.calls[t].kind == Reader && s.calls[t].pc != Returned
  }

  /** The event has one consumer. */
  ghost predicate OneReader(s: State) {
    forall t, u :: ReaderIn(s, t) && ReaderIn(s, u) ==> t == u
  }

  /** Steps a program with a single reading loop takes: it starts a reader only when none is inside. */
  ghost predicate SingleReaderStep(s: State, step: Step) {
    step.Begin? && step.kind == Reader ==> forall t :: !ReaderIn(s, t)
  }

  predicate MayWait(pc: Pc) {
    pc == Receiving || pc == Waiting
  }

  /** Once Close has signalled, a reader that is at the wait or on its way to it finds the event set. */
  ghost predicate WillWake(s: State) {
    s.closer in {Signalled, Drained, Ended} ==>
      s.event || forall t :: t in s.calls ==> !MayWait(s.calls[t].pc)
  }

  /** A reader's program points are only reached by readers. */
  ghost predicate PcsMatchKinds(s: State) {
    forall t :: t in s.calls && s.calls[t].kind == Writer ==> !MayWait(s.calls[t].pc) && s.calls[t].pc != Looping
  }

  ghost predicate WakeInv(s: State) {
    OneReader(s) && WillWake(s) && PcsMatchKinds(s) && (s.closer != NotClosing ==> s.closed)
  }

  lemma WakeStep(s: State, step: Step, s': State)
    requires WakeInv(s) && Next(s, step, s') && SingleReaderStep(s, step)
    ensures WakeInv(s')
  {
    assert forall t :: ReaderIn(s', t) ==> ReaderIn(s, t) || (step.Begin? && step.t == t);
    match step
    case Wake(t) =>
      assert ReaderIn(s, t);
      forall u | u in s'.calls
        ensures !MayWait(s'.calls[u].pc)
      {
        assert u != t ==> !ReaderIn(s, u);
      }
    case _ =>
  }

  ghost predicate SingleReaderRun(states: seq<State>, steps: seq<Step>) {
    IsRun(states, steps) && forall i :: 0 <= i < |steps| ==> SingleReaderStep(states[i], steps[i])
  }

  lemma {:induction false} WakeInvAlways(states: seq<State>, steps: seq<Step>, i: nat)
    requires SingleReaderRun(states, steps) && i < |states|
    ensures WakeInv(states[i])
  {
    if i > 0 {
      WakeInvAlways(states, steps, i - 1);
      assert Next(states[i - 1], steps[i - 1], states[i]) && SingleReaderStep(states[i - 1], steps[i - 1]);
      WakeStep(states[i - 1], steps[i - 1], states[i]);
    }
  }

  /** No lost wake-up: in every run with a single reader, whenever Close has signalled and the reader is
      at the wait, the event is set and the reader can leave. */
  lemma NoLostWakeUp(states: seq<State>, steps: seq<Step>, i: nat, t: nat)
    requires SingleReaderRun(states, steps) && i < |states|
    requires states[i].closer == Signalled && At(states[i], t, Waiting)
    ensures states[i].event && Enabled(states[i], Wake(t))
  {
    WakeInvAlways(states, steps, i);
    assert MayWait(states[i].calls[t].pc);
  }

  function ReadersIn(s: State): set<nat> {
    set t | t in s.calls && s.calls[t].kind == Reader && s.calls[t].pc != Returned
  }

  /** Never more than r readers inside at once. */
  ghost predicate AtMostReaders(states: seq<State>, r: nat) {
    forall i :: 0 <= i < |states| ==> |ReadersIn(states[i])| <= r
  }

  /** There is a run that ends in s and knows no calls but 0 and 1. */
  ghost predicate Reachable(s: State) {
    exists states, steps :: IsRun(states, steps) && states[|steps|] == s && OnlyTwoCalls(states)
  }

  ghost predicate OnlyTwoCalls(states: seq<State>) {
    forall i :: 0 <= i < |states| ==> states[i].calls.Keys <= {0, 1}
  }

  lemma ReachableStep(s: State, step: Step, s': State)
    requires Reachable(s) && Next(s, step, s') && s'.calls.Keys <= {0, 1}
    ensures Reachable(s')
  {
    var states, steps :| IsRun(states, steps) && states[|steps|] == s && OnlyTwoCalls(states);
    var states', steps' := states + [s'], steps + [step];
    forall i | 0 <= i < |steps'|
      ensures Next(states'[i], steps'[i], states'[i + 1])
    {
      if i < |steps| {
        assert Next(states[i], steps[i], states[i + 1]);
      }
    }
    assert IsRun(states', steps') && states'[|steps'|] == s' && OnlyTwoCalls(states');
  }

  lemma InitialReachable()
    ensures Reachable(State(false, false, 0, map[], NotClosing))
  {
    var s := State(false, false, 0, map[], NotClosing);
    var states, steps: seq<Step> := [s], [];
    assert IsRun(states, steps) && states[|steps|] == s && OnlyTwoCalls(states);
  }

  /** A reader can reach the wait at any time before closing, whatever the other calls do. */
  lemma ReaderReachesTheWait(s: State, t: nat)
    requires Reachable(s) && t !in s.calls && !s.closed && t < 2 && s.calls.Keys <= {0, 1}
    ensures Reachable(s.(running := s.running + 1, calls := s.calls[t := Call(Reader, Waiting)]))
  {
    hide Reachable;
    var s1 := Take(s, Begin(t, Reader));
    ReachableStep(s, Begin(t, Reader), s1);
    var s2 := Take(s1, TestClosed(t));
    ReachableStep(s1, TestClosed(t), s2);
    var s3 := Take(s2, TestClosed(t));
    ReachableStep(s2, TestClosed(t), s3);
    var s4 := Take(s3, Receive(t, NoMoreWait));
    ReachableStep(s3, Receive(t, NoMoreWait), s4);
    assert s4.calls == s.calls[t := Call(Reader, Waiting)];
  }

  /** A reader that is woken after closing leaves and takes the signal with it. */
  lemma WokenReaderLeaves(s: State, t: nat)
    requires Reachable(s) && At(s, t, Waiting) && s.event && s.closed && s.running > 0 && s.calls.Keys <= {0, 1}
    ensures Reachable(s.(event := false, running := s.running - 1, calls := s.calls[t := s.calls[t].(pc := Returned)]))
  {
    hide Reachable;
    var s1 := Take(s, Wake(t));
    ReachableStep(s, Wake(t), s1);
    var s2 := Take(s1, TestClosed(t));
    ReachableStep(s1, TestClosed(t), s2);
    var s3 := Take(s2, Finish(t));
    ReachableStep(s2, Finish(t), s3);
    assert s3.calls == s.calls[t := s.calls[t].(pc := Returned)];
  }

  /** Two readers at the wait when Close signals. */
  lemma BothWaitAtTheSignal() returns (s: State)
    ensures Reachable(s)
    ensures s == State(true, true, 2, map[0 := Call(Reader, Waiting), 1 := Call(Reader, Waiting)], Signalled)
  {
    hide Reachable;
    InitialReachable();
    ReaderReachesTheWait(State(false, false, 0, map[], NotClosing), 0);
    ReaderReachesTheWait(State(false, false, 1, map[0 := Call(Reader, Waiting)], NotClosing), 1);
    s := State(false, false, 2, map[0 := Call(Reader, Waiting)][1 := Call(Reader, Waiting)], NotClosing);
    ReachableStep(s, StoreFlag, Take(s, StoreFlag));
    s := Take(s, StoreFlag);
    ReachableStep(s, SetEvent, Take(s, SetEvent));
    s := Take(s, SetEvent);
  }

  /** With a second reader the guarantee is gone: both wait, the one signal of Close wakes the first, and
      the second waits on an event that nobody has to set again, while Close waits for it. */
  lemma TwoReadersLoseTheWakeUp() returns (s: State)
    ensures Reachable(s) && s.closer == Signalled && At(s, 1, Waiting) && !s.event && s.running == 1
    ensures forall step :: Enabled(s, step) ==> step.Begin? || step == DriverSignals
  {
    hide Reachable;
    s := BothWaitAtTheSignal();
    WokenReaderLeaves(s, 0);
    s := State(true, false, 1, s.calls[0 := Call(Reader, Returned)], Signalled);
  }

  /** In a run with at most r readers inside at once, call t waits after the signal with the event not set. */
  ghost predicate WaitsUnwoken(states: seq<State>, steps: seq<Step>, r: nat, i: nat, t: nat) {
    && IsRun(states, steps) && AtMostReaders(states, r)
    && i < |states| && states[i].closer == Signalled && At(states[i], t, Waiting) && !states[i].event
  }

  /** In every run with at most r readers inside at once, whoever waits after the signal finds the event set. */
  ghost predicate NeverLost(r: nat) {
    forall states: seq<State>, steps: seq<Step>, i: nat, t: nat :: !WaitsUnwoken(states, steps, r, i, t)
  }

  /** A reader that comes in makes one more, so with at most one allowed it found none. */
  lemma OneReaderAtATime(states: seq<State>, steps: seq<Step>)
    requires IsRun(states, steps) && AtMostReaders(states, 1)
    ensures SingleReaderRun(states, steps)
  {
    hide AtMostReaders;
    forall i | 0 <= i < |steps|
      ensures SingleReaderStep(states[i], steps[i])
    {
      assert Next(states[i], steps[i], states[i + 1]);
      FewReaders(states, 1, i + 1);
      if steps[i].Begin? && steps[i].kind == Reader {
        NobodyElse(states[i], steps[i].t, states[i + 1]);
      }
    }
  }

  lemma FewReaders(states: seq<State>, r: nat, i: nat)
    requires AtMostReaders(states, r) && i < |states|
    ensures |ReadersIn(states[i])| <= r
  {
  }

  lemma NobodyElse(s: State, t: nat, s': State)
    requires Next(s, Begin(t, Reader), s') && |ReadersIn(s')| <= 1
    ensures forall u :: !ReaderIn(s, u)
  {
    if u :| ReaderIn(s, u) {
      assert {t, u} <= ReadersIn(s');
      SubsetSize({t, u}, ReadersIn(s'));
    }
  }

  lemma {:induction false} SubsetSize(a: set<nat>, b: set<nat>)
    requires a <= b
    ensures |a| <= |b|
  {
    if x :| x in a {
      SubsetSize(a - {x}, b - {x});
    }
  }

  /** The wake-up of Close is safe for one reader and for no larger number. */
  lemma WakeUpSafetyExact(r: nat)
    ensures NeverLost(r) <==> r <= 1
  {
    hide IsRun, Reachable;
    if r <= 1 {
      forall states: seq<State>, steps: seq<Step>, i: nat, t: nat
        ensures !WaitsUnwoken(states, steps, r, i, t)
      {
        if WaitsUnwoken(states, steps, r, i, t) {
          OneReaderAtATime(states, steps);
          NoLostWakeUp(states, steps, i, t);
        }
      }
    } else {
      var s := TwoReadersLoseTheWakeUp();
      var states, steps := RunTo(s);
      TwoCallsTwoReaders(states, r);
      assert WaitsUnwoken(states, steps, r, |steps|, 1);
    }
  }

  lemma RunTo(s: State) returns (states: seq<State>, steps: seq<Step>)
    requires Reachable(s)
    ensures IsRun(states, steps) && |states| == |steps| + 1 && states[|steps|] == s && OnlyTwoCalls(states)
  {
    states, steps :| IsRun(states, steps) && states[|steps|] == s && OnlyTwoCalls(states);
  }

  lemma TwoCallsTwoReaders(states: seq<State>, r: nat)
    requires OnlyTwoCalls(states) && r >= 2
    ensures AtMostReaders(states, r)
  {
    forall i | 0 <= i < |states|
      ensures |ReadersIn(states[i])| <= r
    {
      assert ReadersIn(states[i]) <= states[i].calls.Keys;
      SubsetSize(ReadersIn(states[i]), {0, 1});
    }
  }

  // ---------------------------------------------------------------- Close gets past the wait

  /** How far a call still has to go once the flag is set; every step of a call makes it smaller. */
  function Rank(pc: Pc): nat {
    match pc
    case Receiving => 4
    case Waiting => 3
    case Allocating => 3
    case Counted => 2
    case Looping => 2
    case Holding => 2
    case Sending => 2
    case Leaving => 1
    case Returned => 0
  }

  function AtLeast(s: State, k: nat): set<nat> {
    set t | t in s.calls && Rank(s.calls[t].pc) >= k
  }

  /** The remaining work of all calls. */
  function Work(s: State): nat {
    |AtLeast(s, 1)| + |AtLeast(s, 2)| + |AtLeast(s, 3)| + |AtLeast(s, 4)|
  }

  predicate IsCallStep(step: Step) {
    step.TestClosed? || IsRingOp(step) || step.Wake? || step.Finish?
  }

  function StepOf(step: Step): nat
    requires IsCallStep(step)
  {
    step.t
  }

  lemma WorkDrops(s: State, s': State, t: nat)
    requires t in s.calls && s'.calls.Keys == s.calls.Keys
    requires forall u :: u in s.calls && u != t ==> s'.calls[u] == s.calls[u]
    requires Rank(s'.calls[t].pc) < Rank(s.calls[t].pc)
    ensures Work(s') < Work(s)
  {
    LevelDrops(s, s', t, 1);
    LevelDrops(s, s', t, 2);
    LevelDrops(s, s', t, 3);
    LevelDrops(s, s', t, 4);
  }

  lemma LevelDrops(s: State, s': State, t: nat, k: nat)
    requires t in s.calls && s'.calls.Keys == s.calls.Keys
    requires forall u :: u in s.calls && u != t ==> s'.calls[u] == s.calls[u]
    requires Rank(s'.calls[t].pc) < Rank(s.calls[t].pc)
    ensures |AtLeast(s', k)| == |AtLeast(s, k)| - if Rank(s'.calls[t].pc) < k <= Rank(s.calls[t].pc) then 1 else 0
  {
    if Rank(s'.calls[t].pc) < k <= Rank(s.calls[t].pc) {
      assert AtLeast(s', k) == AtLeast(s, k) - {t};
    } else {
      assert AtLeast(s', k) == AtLeast(s, k);
    }
  }

  lemma CallStepDropsWork(s: State, step: Step, s': State)
    requires Next(s, step, s') && s.closed && PcsMatchKinds(s)
    ensures IsCallStep(step) ==> Work(s') < Work(s)
    ensures !IsCallStep(step) && !step.Begin? ==> Work(s') == Work(s) && s'.calls == s.calls
  {
    hide Work;
    if IsCallStep(step) {
      WorkDrops(s, s', StepOf(step));
    } else if !step.Begin? {
      SameCallsSameWork(s, s');
    }
  }

  lemma SameCallsSameWork(s: State, s': State)
    requires s'.calls == s.calls
    ensures Work(s') == Work(s)
  {
    assert AtLeast(s', 1) == AtLeast(s, 1) && AtLeast(s', 2) == AtLeast(s, 2);
    assert AtLeast(s', 3) == AtLeast(s, 3) && AtLeast(s', 4) == AtLeast(s, 4);
  }

  ghost predicate CallEnabled(s: State, t: nat) {
    exists step :: IsCallStep(step) && StepOf(step) == t && Enabled(s, step)
  }

  /** After the signal every call that is in flight can take a step. */
  lemma InFlightCanMove(s: State, t: nat)
    requires Inv(s) && WakeInv(s) && s.closer == Signalled && t in InFlight(s)
    ensures CallEnabled(s, t)
  {
    var pc := s.calls[t].pc;
    var step := match pc
      case Counted => TestClosed(t)
      case Looping => TestClosed(t)
      case Receiving => Receive(t, ReceiveError)
      case Holding => Release(t)
      case Waiting => Wake(t)
      case Allocating => Allocate(t, false)
      case Sending => Send(t)
      case _ => Finish(t);
    assert s.running > 0 by {
      assert InFlight(s) != {};
    }
    assert MayWait(Waiting);
    assert IsCallStep(step) && StepOf(step) == t && Enabled(s, step);
  }

  /** An infinite schedule. */
  datatype Schedule = Schedule(state: nat -> State, step: nat -> Step)

  /** An infinite run with a single reading loop. */
  ghost predicate IsEndless(run: Schedule) {
    && Initial(run.state(0))
    && forall i: nat :: Next(run.state(i), run.step(i), run.state(i + 1)) && SingleReaderStep(run.state(i), run.step(i))
  }

  /** From step n on no new calls begin, and nothing that stays possible is put off for ever: neither
      the next step of a call nor the return of the wait. */
  ghost predicate FairFrom(run: Schedule, n: nat) {
    && (forall i: nat :: i >= n ==> !run.step(i).Begin?)
    && (forall t: nat, i: nat :: i >= n ==> CallMovesOrCannot(run, t, i))
    && (forall i: nat :: i >= n ==> WaitReturnsOrCannot(run, i))
  }

  ghost predicate CallMovesOrCannot(run: Schedule, t: nat, i: nat) {
    exists j: nat :: i <= j && ((IsCallStep(run.step(j)) && StepOf(run.step(j)) == t) || !CallEnabled(run.state(j), t))
  }

  ghost predicate WaitReturnsOrCannot(run: Schedule, i: nat) {
    exists j: nat :: i <= j && (run.step(j) == WaitReturns || !Enabled(run.state(j), WaitReturns))
  }

  lemma WakeInvGives(s: State)
    requires WakeInv(s) && s.closer != NotClosing
    ensures PcsMatchKinds(s) && s.closed
  {
  }

  lemma {:induction false} EndlessInv(run: Schedule, i: nat)
    requires IsEndless(run)
    ensures Inv(run.state(i)) && WakeInv(run.state(i))
  {
    hide Inv, WakeInv, Next, SingleReaderStep;
    if i == 0 {
      InvInitial(run.state(0));
      WakeInvInitial(run.state(0));
    } else {
      EndlessInv(run, i - 1);
      assert Next(run.state(i - 1), run.step(i - 1), run.state(i - 1 + 1))
             && SingleReaderStep(run.state(i - 1), run.step(i - 1));
      InvStep(run.state(i - 1), run.step(i - 1), run.state(i));
      WakeStep(run.state(i - 1), run.step(i - 1), run.state(i));
    }
  }

  lemma WakeInvInitial(s: State)
    requires Initial(s)
    ensures WakeInv(s)
  {
  }

  /** While Close waits, a step is the next step of a call and leaves less to do, or it is the return of
      the wait, or it leaves every call where it was. */
  lemma WaitingStep(run: Schedule, i: nat)
    requires IsEndless(run) && run.state(i).closer == Signalled && !run.step(i).Begin?
    ensures IsCallStep(run.step(i)) ==> Work(run.state(i + 1)) < Work(run.state(i))
    ensures !IsCallStep(run.step(i)) ==> run.state(i + 1).calls == run.state(i).calls
    ensures if run.step(i) == WaitReturns then Over(run.state(i + 1).closer) else run.state(i + 1).closer == Signalled
  {
    hide Inv, WakeInv, Work;
    EndlessInv(run, i);
    WakeInvGives(run.state(i));
    CallStepDropsWork(run.state(i), run.step(i), run.state(i + 1));
  }

  /** Close is past its wait, or still at it with less work ahead of it. */
  predicate Progress(run: Schedule, i: nat, k: nat) {
    && i <= k
    && (Over(run.state(k).closer) || (run.state(k).closer == Signalled && Work(run.state(k)) < Work(run.state(i))))
  }

  lemma {:induction false} ProgressOrSame(run: Schedule, n: nat, i: nat, j: nat)
    requires IsEndless(run) && FairFrom(run, n) && n <= i <= j && run.state(i).closer == Signalled
    ensures || (exists k: nat :: Progress(run, i, k))
            || (run.state(j).calls == run.state(i).calls && run.state(j).closer == Signalled)
  {
    hide IsEndless, IsCallStep, Work;
    if i < j {
      ProgressOrSame(run, n, i, j - 1);
      if run.state(j - 1).calls == run.state(i).calls && run.state(j - 1).closer == Signalled {
        WaitingStep(run, j - 1);
        SameCallsSameWork(run.state(i), run.state(j - 1));
        assert run.state(j - 1 + 1) == run.state(j);
        assert IsCallStep(run.step(j - 1)) && run.step(j - 1) != WaitReturns ==> Progress(run, i, j);
        assert run.step(j - 1) == WaitReturns ==> Progress(run, i, j);
      }
    }
  }

  /** With nobody in flight the wait returns. */
  lemma WaitCanReturn(run: Schedule, n: nat, i: nat) returns (k: nat)
    requires IsEndless(run) && FairFrom(run, n) && n <= i && run.state(i).closer == Signalled
             && InFlight(run.state(i)) == {}
    ensures Progress(run, i, k)
  {
    hide IsEndless, IsCallStep, Work, WakeInv;
    assert WaitReturnsOrCannot(run, i);
    var j: nat :| i <= j && (run.step(j) == WaitReturns || !Enabled(run.state(j), WaitReturns));
    ProgressOrSame(run, n, i, j);
    if k': nat :| Progress(run, i, k') {
      k := k';
    } else {
      EndlessInv(run, j);
      assert InFlight(run.state(j)) == InFlight(run.state(i));
      WaitingStep(run, j);
      k := j + 1;
    }
  }

  /** A call in flight takes its next step. */
  lemma CallMoves(run: Schedule, n: nat, i: nat, t: nat) returns (k: nat)
    requires IsEndless(run) && FairFrom(run, n) && n <= i && run.state(i).closer == Signalled
             && t in InFlight(run.state(i))
    ensures Progress(run, i, k)
  {
    hide IsEndless, IsCallStep, Work, WakeInv, Inv, CallEnabled, Enabled;
    assert CallMovesOrCannot(run, t, i);
    var j: nat :| i <= j && ((IsCallStep(run.step(j)) && StepOf(run.step(j)) == t) || !CallEnabled(run.state(j), t));
    ProgressOrSame(run, n, i, j);
    if k': nat :| Progress(run, i, k') {
      k := k';
    } else {
      EndlessInv(run, j);
      assert InFlight(run.state(j)) == InFlight(run.state(i));
      InFlightCanMove(run.state(j), t);
      SameCallsSameWork(run.state(i), run.state(j));
      WaitingStep(run, j);
      k := j + 1;
    }
  }

  /** Liveness: in every fair run with a single reader in which new calls stop coming, Close gets past
      its wait once it has signalled, whatever the driver does with the event. */
  lemma {:induction false} CloseGetsPastTheWait(run: Schedule, n: nat, i: nat) returns (k: nat)
    requires IsEndless(run) && FairFrom(run, n) && n <= i && run.state(i).closer == Signalled
    ensures i <= k && Over(run.state(k).closer)
    decreases Work(run.state(i))
  {
    hide IsEndless, FairFrom, Work;
    if t :| t in InFlight(run.state(i)) {
      k := CallMoves(run, n, i, t);
    } else {
      k := WaitCanReturn(run, n, i);
    }
    if !Over(run.state(k).closer) {
      k := CloseGetsPastTheWait(run, n, k);
    }
  }
}
