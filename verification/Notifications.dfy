/** Whom a notification calls: over every run, each callback that was in the map when the notification took
    the mutex, once, and nobody else. */
module Notifications {
  import opened ChangeHandler

  predicate SpawnedBy(step: Step, n: nat, callback: nat) {
    step.NoteStep? && step.n == n && step.noteAction.Spawns? && step.noteAction.callback == callback
  }

  /** How many invocations of the callback the notification has started in the first k steps. */
  function SpawnCount(steps: seq<Step>, k: nat, n: nat, callback: nat): nat
    requires k <= |steps|
  {
    if k == 0 then 0
    else SpawnCount(steps, k - 1, n, callback) + if SpawnedBy(steps[k - 1], n, callback) then 1 else 0
  }

  /** Started are exactly the callbacks that were in the map after j steps and are no longer to do. */
  ghost predicate StartedSince(states: seq<State>, steps: seq<Step>, k: nat, n: nat, j: nat, todo: set<nat>)
    requires |states| == |steps| + 1 && k <= |steps|
  {
    && j < k && steps[j] == NoteStep(n, LocksMap)
    && todo <= states[j].callbacks
    && forall c: nat :: SpawnCount(steps, k, n, c) == if c in states[j].callbacks - todo then 1 else 0
  }

  /** The callbacks that the notification still has to start. */
  function ToDo(s: State, n: nat): set<nat> {
    if n in s.notes && s.notes[n].pc.Looping? then s.notes[n].pc.todo else {}
  }

  ghost predicate History(states: seq<State>, steps: seq<Step>, k: nat, n: nat)
    requires |states| == |steps| + 1 && k <= |steps|
  {
    if n !in states[k].notes || states[k].notes[n].pc == WantsMap then
      forall c: nat :: SpawnCount(steps, k, n, c) == 0
    else
      exists j: nat :: StartedSince(states, steps, k, n, j, ToDo(states[k], n))
  }

  lemma HistoryStep(states: seq<State>, steps: seq<Step>, k: nat, n: nat)
    requires |states| == |steps| + 1 && k < |steps| && Next(states[k], steps[k], states[k + 1])
    requires History(states, steps, k, n)
    ensures History(states, steps, k + 1, n)
  {
    hide OpEnabled, TakeOp, Count, NotCalling;
    var s, s', step := states[k], states[k + 1], steps[k];
    if step.NoteStep? && step.n == n {
      OwnStep(states, steps, k, n);
    } else {
      assert (n in s'.notes <==> n in s.notes) && (n in s.notes ==> s'.notes[n] == s.notes[n]) by {
        OtherStep(s, step, s', n);
      }
      SameCounts(steps, k, k + 1, n);
      if n in s.notes && s.notes[n].pc != WantsMap {
        var j: nat :| StartedSince(states, steps, k, n, j, ToDo(s, n));
        assert StartedSince(states, steps, k + 1, n, j, ToDo(s', n));
      }
    }
  }

  lemma SameCounts(steps: seq<Step>, k: nat, next: nat, n: nat)
    requires next == k + 1 <= |steps|
    requires steps[k].NoteStep? && steps[k].n == n ==> !steps[k].noteAction.Spawns?
    ensures forall c: nat :: SpawnCount(steps, next, n, c) == SpawnCount(steps, k, n, c)
  {
  }

  lemma OtherStep(s: State, step: Step, s': State, n: nat)
    requires Next(s, step, s') && !(step.NoteStep? && step.n == n)
    ensures n in s'.notes <==> n in s.notes
    ensures n in s.notes ==> s'.notes[n] == s.notes[n]
  {
    hide OpEnabled, NextOp, NextAddRemove, NextMutex, NextCallbacks, NextHandle, NextLive, Count, NotCalling;
  }

  lemma OwnStep(states: seq<State>, steps: seq<Step>, k: nat, n: nat)
    requires |states| == |steps| + 1 && k < |steps| && Next(states[k], steps[k], states[k + 1])
    requires steps[k].NoteStep? && steps[k].n == n && History(states, steps, k, n)
    ensures History(states, steps, k + 1, n)
  {
    hide OpEnabled, TakeOp, Count, NotCalling;
    var s, s' := states[k], states[k + 1];
    match steps[k].noteAction
    case Arrives(h) =>
      SameCounts(steps, k, k + 1, n);
    case LocksMap =>
      SameCounts(steps, k, k + 1, n);
      assert StartedSince(states, steps, k + 1, n, k, ToDo(s', n));
    case Spawns(callback, i) =>
      var j: nat :| StartedSince(states, steps, k, n, j, ToDo(s, n));
      OneMoreStarted(states, steps, k, n, j, ToDo(s, n), callback);
      assert StartedSince(states, steps, k + 1, n, j, ToDo(s', n));
    case UnlocksMap =>
      SameCounts(steps, k, k + 1, n);
      var j: nat :| StartedSince(states, steps, k, n, j, ToDo(s, n));
      assert StartedSince(states, steps, k + 1, n, j, ToDo(s', n));
  }

  lemma OneMoreStarted(states: seq<State>, steps: seq<Step>, k: nat, n: nat, j: nat, todo: set<nat>, callback: nat)
    requires |states| == |steps| + 1 && k < |steps| && StartedSince(states, steps, k, n, j, todo) && callback in todo
    requires steps[k].NoteStep? && steps[k].n == n
    requires steps[k].noteAction.Spawns? && steps[k].noteAction.callback == callback
    ensures StartedSince(states, steps, k + 1, n, j, todo - {callback})
  {
    forall c: nat
      ensures SpawnCount(steps, k + 1, n, c) == if c in states[j].callbacks - (todo - {callback}) then 1 else 0
    {
      assert SpawnCount(steps, k, n, c) == if c in states[j].callbacks - todo then 1 else 0;
    }
  }

  lemma {:induction false} HistoryAlways(states: seq<State>, steps: seq<Step>, k: nat, n: nat)
    requires IsRun(states, steps) && k <= |steps|
    ensures History(states, steps, k, n)
  {
    hide History, Next;
    if k == 0 {
      NothingYet(states, steps, n);
    } else {
      HistoryAlways(states, steps, k - 1, n);
      assert Next(states[k - 1], steps[k - 1], states[k - 1 + 1]);
      HistoryStep(states, steps, k - 1, n);
    }
  }

  lemma NothingYet(states: seq<State>, steps: seq<Step>, n: nat)
    requires |states| == |steps| + 1 && Initial(states[0])
    ensures History(states, steps, 0, n)
  {
  }

  /** A notification that has been delivered has started one invocation of every callback that was in the
      map when it took the mutex, and none of any other. */
  lemma NotifiesEachOnce(states: seq<State>, steps: seq<Step>, k: nat, n: nat) returns (j: nat)
    requires IsRun(states, steps) && k <= |steps|
    requires n in states[k].notes && states[k].notes[n].pc == Delivered
    ensures j < k && steps[j] == NoteStep(n, LocksMap)
    ensures forall c: nat :: SpawnCount(steps, k, n, c) == if c in states[j].callbacks then 1 else 0
  {
    HistoryAlways(states, steps, k, n);
    j :| StartedSince(states, steps, k, n, j, ToDo(states[k], n));
  }

  /** Each of them is a new invocation, and counts until it is finished. */
  lemma SpawnStartsInvocation(s: State, n: nat, callback: nat, i: nat, s': State)
    requires Next(s, NoteStep(n, Spawns(callback, i)), s')
    ensures i !in s.invocations && s'.invocations == s.invocations[i := Invocation(callback, false)]
    ensures Count(s', callback) == Count(s, callback) + 1
    ensures s.mutex == ByNote(n) || !MapLock(s)
  {
  }
}
