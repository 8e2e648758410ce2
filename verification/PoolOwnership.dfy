/** Who owns the arrays of the buffer pool, over every run of creating, sharing and releasing buffers.
    Go slices are an array, a length and a capacity; a buffer made from a foreign slice may alias any
    array at all, also one of the pool. */
module PoolOwnership {
  import opened Pool

  datatype Slice = Nil | Slice(arrayId: nat, len: nat, cap: nat)

  datatype Buffer = Buffer(data: Slice, refs: int, managed: bool)

  /** Capacities of all arrays, the free lists, the buffers, and whether something has panicked. */
  datatype State = State(sizes: map<nat, nat>, pool: seq<multiset<nat>>, buffers: map<nat, Buffer>, panicked: bool)

  datatype Step =
    | New(b: nat, id: nat)
    | NewPacket(b: nat, id: nat)
    | NewSize(b: nat, size: int, id: nat)
    | Wrap(b: nat, data: Slice)               // As and With
    | ToOwned(b: nat, from: nat, id: nat)
    | IncRef(b: nat)
    | DecRef(b: nat)
    | Release(b: nat)
    | Forget(k: nat, id: nat)                 // the pool may drop any entry at any time

  const BUFFER_SIZE: int := 32 * 1024
  const UDP_BUFFER_SIZE: int := 16 * 1024

  function LenOf(data: Slice): nat {
    if data.Nil? then 0 else data.len
  }

  function CapOf(data: Slice): nat {
    if data.Nil? then 0 else data.cap
  }

  /** Get may be answered with an entry of its free list or with a new array. */
  predicate Available(s: State, k: nat, id: nat) {
    id !in s.sizes || (k < |s.pool| && id in s.pool[k])
  }

  function Got(s: State, b: nat, size: nat, k: nat, id: nat): State {
    var s1 := if id in s.sizes then (if k < |s.pool| then s.(pool := s.pool[k := s.pool[k] - multiset{id}]) else s)
              else s.(sizes := s.sizes[id := ClassSize(k)]);
    s1.(buffers := s.buffers[b := Buffer(Slice(id, size, ClassSize(k)), 0, true)])
  }

  predicate NewSizeEnabled(s: State, b: nat, size: int, id: nat) {
    && b !in s.buffers
    && (size > 65535 ==> id !in s.sizes)
    && (GetClass(size).Class? && size <= 65535 ==> Available(s, GetClass(size).index, id))
  }

  /** A size below zero passes the checks and gets no array, yet the buffer counts as managed. */
  function TakeNewSize(s: State, b: nat, size: int, id: nat): State {
    if size == 0 then s.(buffers := s.buffers[b := Buffer(Nil, 0, false)])
    else if size > 65535 then
      s.(sizes := s.sizes[id := size], buffers := s.buffers[b := Buffer(Slice(id, size, size), 0, false)])
    else
      match GetClass(size)
      case NoClass => s.(buffers := s.buffers[b := Buffer(Nil, 0, true)])
      case Class(k) => Got(s, b, size, k, id)
  }

  /** Releasing a buffer that is not managed, or is referenced, does nothing. */
  function TakeRelease(s: State, b: nat): State
    requires b in s.buffers
  {
    var buffer := s.buffers[b];
    if !buffer.managed || buffer.refs > 0 then s
    else
      match PutClass(CapOf(buffer.data))
      case Stored(k) =>
        if buffer.data.Slice? && k < |s.pool| then
          s.(pool := s.pool[k := s.pool[k] + multiset{buffer.data.arrayId}],
             buffers := s.buffers[b := Buffer(Nil, 0, false)])
        else s.(panicked := true)
      case _ => s.(panicked := true)
  }

  predicate Enabled(s: State, step: Step) {
    match step
    case New(b, id) => NewSizeEnabled(s, b, BUFFER_SIZE, id)
    case NewPacket(b, id) => NewSizeEnabled(s, b, UDP_BUFFER_SIZE, id)
    case NewSize(b, size, id) => NewSizeEnabled(s, b, size, id)
    case Wrap(b, data) => b !in s.buffers && (data.Slice? ==> data.arrayId in s.sizes)
    case ToOwned(b, from, id) => from in s.buffers && NewSizeEnabled(s, b, LenOf(s.buffers[from].data), id)
    case IncRef(b) => b in s.buffers
    case DecRef(b) => b in s.buffers
    case Release(b) => b in s.buffers
    case Forget(k, id) => k < |s.pool| && id in s.pool[k]
  }

  function Take(s: State, step: Step): State
    requires Enabled(s, step)
  {
    match step
    case New(b, id) => TakeNewSize(s, b, BUFFER_SIZE, id)
    case NewPacket(b, id) => TakeNewSize(s, b, UDP_BUFFER_SIZE, id)
    case NewSize(b, size, id) => TakeNewSize(s, b, size, id)
    case Wrap(b, data) => s.(buffers := s.buffers[b := Buffer(data, 0, false)])
    case ToOwned(b, from, id) => TakeNewSize(s, b, LenOf(s.buffers[from].data), id)
    case IncRef(b) => s.(buffers := s.buffers[b := s.buffers[b].(refs := s.buffers[b].refs + 1)])
    case DecRef(b) => s.(buffers := s.buffers[b := s.buffers[b].(refs := s.buffers[b].refs - 1)])
    case Release(b) => TakeRelease(s, b)
    case Forget(k, id) => s.(pool := s.pool[k := s.pool[k] - multiset{id}])
  }

  predicate Initial(s: State) {
    && |s.pool| == CLASSES && (forall k :: 0 <= k < CLASSES ==> s.pool[k] == multiset{})
    && s.buffers == map[] && !s.panicked
  }

  ghost predicate IsRun(states: seq<State>, steps: seq<Step>) {
    && |states| == |steps| + 1
    && Initial(states[0])
    && forall i :: 0 <= i < |steps| ==> Enabled(states[i], steps[i]) && states[i + 1] == Take(states[i], steps[i])
  }

  predicate SizeFits(step: Step) {
    step.NewSize? ==> step.size >= 0
  }

  // ---------------------------------------------------------------- the invariant

  predicate Holds(s: State, b: nat, id: nat) {
    b in s.buffers && s.buffers[b].managed && s.buffers[b].data.Slice? && s.buffers[b].data.arrayId == id
  }

  predicate Pooled(s: State, k: nat, id: nat) {
    k < |s.pool| && id in s.pool[k]
  }

  /** A managed buffer has an array of one of the pool's sizes. */
  predicate WellManaged(s: State, buffer: Buffer) {
    buffer.managed ==>
      && buffer.data.Slice? && buffer.data.arrayId in s.sizes
      && buffer.data.cap == s.sizes[buffer.data.arrayId]
      && PutClass(buffer.data.cap).Stored?
  }

  ghost predicate Inv(s: State) {
    && |s.pool| == CLASSES
    && !s.panicked
    && (forall b :: b in s.buffers ==> WellManaged(s, s.buffers[b]))
    && (forall b, c, id :: Holds(s, b, id) && Holds(s, c, id) ==> b == c)
    && (forall k: nat, id :: Pooled(s, k, id) ==> s.pool[k][id] == 1 && id in s.sizes && s.sizes[id] == ClassSize(k))
    && (forall k: nat, b, id :: Pooled(s, k, id) ==> !Holds(s, b, id))
  }

  lemma InvInitial(s: State)
    requires Initial(s)
    ensures Inv(s)
  {
  }

  lemma GotKeepsInv(s: State, b: nat, size: nat, k: nat, id: nat)
    requires Inv(s) && b !in s.buffers && k < CLASSES && Available(s, k, id) && PutClass(ClassSize(k)) == Stored(k)
    ensures Inv(Got(s, b, size, k, id))
  {
    hide ClassSize, PutClass;
    var s' := Got(s, b, size, k, id);
    assert Pooled(s, k, id) || id !in s.sizes;
    forall j: nat, x | Pooled(s', j, x)
      ensures Pooled(s, j, x) && s'.pool[j][x] == s.pool[j][x] && x != id
    {
      assert Pooled(s, j, x);
      if x == id && j != k {
        SameClass(j, k);
      }
    }
    forall c, x | Holds(s', c, x)
      ensures if c == b then x == id else Holds(s, c, x) && x != id
    {
      if c != b {
        assert WellManaged(s, s.buffers[c]);
      }
    }
    forall c | c in s'.buffers
      ensures WellManaged(s', s'.buffers[c])
    {
      if c != b {
        assert WellManaged(s, s.buffers[c]);
      }
    }
  }

  lemma PlainBufferKeepsInv(s: State, s': State, b: nat, buffer: Buffer)
    requires Inv(s) && b !in s.buffers && !buffer.managed && s'.pool == s.pool && s'.panicked == s.panicked
    requires s'.buffers == s.buffers[b := buffer]
    requires forall id :: id in s.sizes ==> id in s'.sizes && s'.sizes[id] == s.sizes[id]
    ensures Inv(s')
  {
    hide ClassSize, PutClass;
    assert forall k: nat, x :: Pooled(s', k, x) <==> Pooled(s, k, x);
    assert forall c, x :: Holds(s', c, x) <==> Holds(s, c, x);
  }

  lemma NewSizeKeepsInv(s: State, b: nat, size: int, id: nat)
    requires Inv(s) && NewSizeEnabled(s, b, size, id) && size >= 0
    ensures Inv(TakeNewSize(s, b, size, id))
  {
    hide Inv, ClassSize, PutClass, GetClass, Available, Got;
    GetIsBestFit(size);
    if size == 0 || size > 65535 {
      var s' := TakeNewSize(s, b, size, id);
      PlainBufferKeepsInv(s, s', b, s'.buffers[b]);
    } else {
      PutUndoesGet(size);
      GotKeepsInv(s, b, size, GetClass(size).index, id);
    }
  }

  lemma CountKeepsInv(s: State, b: nat, refs: int)
    requires Inv(s) && b in s.buffers
    ensures Inv(s.(buffers := s.buffers[b := s.buffers[b].(refs := refs)]))
  {
    hide ClassSize, PutClass;
    var s' := s.(buffers := s.buffers[b := s.buffers[b].(refs := refs)]);
    assert forall k: nat, x :: Pooled(s', k, x) <==> Pooled(s, k, x);
    assert forall c, x :: Holds(s', c, x) <==> Holds(s, c, x);
    assert WellManaged(s, s.buffers[b]);
  }

  lemma ForgetKeepsInv(s: State, k: nat, id: nat)
    requires Inv(s) && Pooled(s, k, id)
    ensures Inv(s.(pool := s.pool[k := s.pool[k] - multiset{id}]))
  {
    hide ClassSize, PutClass;
    var s' := s.(pool := s.pool[k := s.pool[k] - multiset{id}]);
    assert forall c, x :: Holds(s', c, x) <==> Holds(s, c, x);
    forall j: nat, x | Pooled(s', j, x)
      ensures Pooled(s, j, x) && s'.pool[j][x] == s.pool[j][x]
    {
      assert Pooled(s, j, x);
    }
  }

  /** Who holds an array after b has been emptied, held another one before. */
  lemma OthersHold(s: State, b: nat, s': State, c: nat, x: nat)
    requires Inv(s) && b in s.buffers && s.buffers[b].managed && s.buffers[b].data.Slice?
    requires s'.buffers == s.buffers[b := Buffer(Nil, 0, false)] && Holds(s', c, x)
    ensures Holds(s, c, x) && c != b && x != s.buffers[b].data.arrayId
  {
    hide ClassSize, PutClass, WellManaged, Pooled;
    assert c != b;
    assert s'.buffers[c] == s.buffers[c];
    assert Holds(s, b, s.buffers[b].data.arrayId);
  }

  lemma ReleaseKeepsInv(s: State, b: nat)
    requires Inv(s) && b in s.buffers
    ensures Inv(TakeRelease(s, b))
  {
    hide ClassSize, PutClass;
    var buffer, s' := s.buffers[b], TakeRelease(s, b);
    assert WellManaged(s, buffer);
    if buffer.managed && buffer.refs <= 0 {
      var id := buffer.data.arrayId;
      PutExact(buffer.data.cap);
      var k := PutClass(buffer.data.cap).index;
      assert PutClass(buffer.data.cap) == Stored(k);
      assert Holds(s, b, id);
      assert !Pooled(s, k, id);
      forall j: nat, x | Pooled(s', j, x)
        ensures (j == k && x == id && s'.pool[j][x] == 1)
                || (Pooled(s, j, x) && s'.pool[j][x] == s.pool[j][x] && x != id)
      {
        assert j != k || x != id ==> Pooled(s, j, x);
      }
      forall c, x | Holds(s', c, x)
        ensures Holds(s, c, x) && c != b && x != id
      {
        OthersHold(s, b, s', c, x);
      }
      forall c | c in s'.buffers
        ensures WellManaged(s', s'.buffers[c])
      {
        assert c != b ==> WellManaged(s, s.buffers[c]);
      }
    }
  }

  lemma InvStep(s: State, step: Step)
    requires Inv(s) && Enabled(s, step) && SizeFits(step)
    ensures Inv(Take(s, step))
  {
    hide Inv, NewSizeEnabled, TakeNewSize, TakeRelease;
    match step
    case New(b, id) => NewSizeKeepsInv(s, b, BUFFER_SIZE, id);
    case NewPacket(b, id) => NewSizeKeepsInv(s, b, UDP_BUFFER_SIZE, id);
    case NewSize(b, size, id) => NewSizeKeepsInv(s, b, size, id);
    case Wrap(b, data) => PlainBufferKeepsInv(s, Take(s, step), b, Buffer(data, 0, false));
    case ToOwned(b, from, id) => NewSizeKeepsInv(s, b, LenOf(s.buffers[from].data), id);
    case IncRef(b) => CountKeepsInv(s, b, s.buffers[b].refs + 1);
    case DecRef(b) => CountKeepsInv(s, b, s.buffers[b].refs - 1);
    case Release(b) => ReleaseKeepsInv(s, b);
    case Forget(k, id) => ForgetKeepsInv(s, k, id);
  }

  lemma {:induction false} InvAlways(states: seq<State>, steps: seq<Step>, i: nat)
    requires IsRun(states, steps) && i < |states| && forall k :: 0 <= k < i ==> SizeFits(steps[k])
    ensures Inv(states[i])
  {
    hide Inv, Enabled, Take;
    if i == 0 {
      InvInitial(states[0]);
    } else {
      InvAlways(states, steps, i - 1);
      assert Enabled(states[i - 1], steps[i - 1]) && states[i - 1 + 1] == Take(states[i - 1], steps[i - 1]);
      InvStep(states[i - 1], steps[i - 1]);
    }
  }

  // ---------------------------------------------------------------- what it means

  /** In every run with sizes that are not negative, nothing ever panics, and an array is in one free list
      once, or held by one managed buffer, or neither. */
  lemma OneOwner(states: seq<State>, steps: seq<Step>, i: nat, id: nat)
    requires IsRun(states, steps) && i < |states| && forall k :: 0 <= k < i ==> SizeFits(steps[k])
    ensures !states[i].panicked && |states[i].pool| == CLASSES
    ensures forall b, c :: Holds(states[i], b, id) && Holds(states[i], c, id) ==> b == c
    ensures forall k: nat, b :: Pooled(states[i], k, id) ==> states[i].pool[k][id] == 1 && !Holds(states[i], b, id)
    ensures forall j: nat, k: nat :: Pooled(states[i], j, id) && Pooled(states[i], k, id) ==> j == k
  {
    hide IsRun;
    InvAlways(states, steps, i);
    forall j: nat, k: nat | Pooled(states[i], j, id) && Pooled(states[i], k, id)
      ensures j == k
    {
      SameClass(j, k);
    }
  }

  /** The buffer's array is back in the free list of its own size, and the buffer is empty. */
  ghost predicate GivenBack(s: State, b: nat, id: nat, s': State) {
    exists k: nat ::
      && k < |s.pool| && id in s.sizes && s.sizes[id] == ClassSize(k)
      && s' == s.(pool := s.pool[k := s.pool[k] + multiset{id}], buffers := s.buffers[b := Buffer(Nil, 0, false)])
  }

  /** Release hands the array to the free list it belongs to, or does nothing. */
  lemma ReleaseGivesBack(states: seq<State>, steps: seq<Step>, i: nat, b: nat)
    requires IsRun(states, steps) && i < |states| && b in states[i].buffers
    requires forall k :: 0 <= k < i ==> SizeFits(steps[k])
    ensures var s, buffer := states[i], states[i].buffers[b];
            if buffer.managed && buffer.refs <= 0 then
              buffer.data.Slice? && GivenBack(s, b, buffer.data.arrayId, TakeRelease(s, b))
            else TakeRelease(s, b) == s
  {
    hide IsRun, ClassSize, PutClass;
    InvAlways(states, steps, i);
    var s := states[i];
    assert WellManaged(s, s.buffers[b]);
    if s.buffers[b].managed && s.buffers[b].refs <= 0 {
      PutExact(s.buffers[b].data.cap);
      var k := PutClass(s.buffers[b].data.cap).index;
      assert PutClass(s.buffers[b].data.cap) == Stored(k);
    }
  }

  /** Releasing twice is releasing once. */
  lemma ReleaseIsIdempotent(s: State, b: nat)
    requires Inv(s) && b in s.buffers
    ensures b in TakeRelease(s, b).buffers && TakeRelease(TakeRelease(s, b), b) == TakeRelease(s, b)
  {
    hide ClassSize, PutClass;
    assert WellManaged(s, s.buffers[b]);
    if s.buffers[b].managed {
      PutExact(s.buffers[b].data.cap);
    }
  }

  /** Releasing a new buffer panics exactly if it was asked for with a negative size. */
  lemma NegativeSizePanics(s: State, b: nat, size: int, id: nat)
    requires Inv(s) && NewSizeEnabled(s, b, size, id)
    ensures TakeRelease(TakeNewSize(s, b, size, id), b).panicked <==> size < 0
  {
    hide ClassSize, PutClass, GetClass, Available, Inv;
    GetIsBestFit(size);
    var s1 := TakeNewSize(s, b, size, id);
    if size >= 0 {
      NewSizeKeepsInv(s, b, size, id);
      ReleaseKeepsInv(s1, b);
      NotPanicked(TakeRelease(s1, b));
    } else {
      PutExact(0);
      assert PutClass(0) == IncorrectSize by {
        PutOfNothing();
      }
    }
  }

  lemma PutOfNothing()
    ensures PutClass(0) == IncorrectSize
  {
  }

  lemma NotPanicked(s: State)
    requires Inv(s)
    ensures !s.panicked
  {
  }
}
