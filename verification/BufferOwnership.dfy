/** The allocator and its buffers take the steps of the ownership state machine, and each of them keeps the
    invariant that the machine has in all its runs. */
module BufferOwnership {
  import opened Words
  import opened Pool
  import opened ByteQueue
  import opened Buffers
  import opened Gather
  import Machine = PoolOwnership

  // ---------------------------------------------------------------- objects as numbers

  ghost predicate DistinctArrays(arrays: seq<array<byte>>) {
    forall i, j :: 0 <= i < j < |arrays| ==> arrays[i] != arrays[j]
  }

  /** An array goes by its place in the list of all arrays. */
  ghost function IndexOf(arrays: seq<array<byte>>, a: array<byte>): (i: nat)
    requires a in arrays
    ensures i < |arrays| && arrays[i] == a
  {
    if arrays[0] == a then 0 else 1 + IndexOf(arrays[1..], a)
  }

  ghost function Sizes(arrays: seq<array<byte>>): map<nat, nat> {
    map i: nat | i < |arrays| :: arrays[i].Length
  }

  ghost function Ids(arrays: seq<array<byte>>, pooled: set<array<byte>>, k: nat): set<nat> {
    set i: nat | i < |arrays| && arrays[i] in pooled && arrays[i].Length == ClassSize(k)
  }

  ghost function PoolOf(arrays: seq<array<byte>>, pooled: set<array<byte>>): (pool: seq<multiset<nat>>)
    ensures |pool| == CLASSES && forall k :: 0 <= k < CLASSES ==> pool[k] == multiset(Ids(arrays, pooled, k))
  {
    seq(CLASSES, k requires 0 <= k < CLASSES => multiset(Ids(arrays, pooled, k)))
  }

  ghost predicate KnownData(arrays: seq<array<byte>>, data: array<byte>) {
    data.Length == 0 || data in arrays
  }

  ghost function SliceOf(arrays: seq<array<byte>>, data: array<byte>, len: nat): Machine.Slice
    requires KnownData(arrays, data)
  {
    if data.Length == 0 then Machine.Nil else Machine.Slice(IndexOf(arrays, data), len, data.Length)
  }

  ghost function BufferOf(arrays: seq<array<byte>>, b: Buffer): Machine.Buffer
    requires KnownData(arrays, b.data)
    reads b
  {
    Machine.Buffer(SliceOf(arrays, b.data, b.len), b.refs, b.managed)
  }

  ghost predicate Known(arrays: seq<array<byte>>, pooled: set<array<byte>>, buffers: seq<Buffer>)
    reads buffers
  {
    && DistinctArrays(arrays)
    && (forall a :: a in pooled ==> a in arrays)
    && (forall i, j :: 0 <= i < j < |buffers| ==> buffers[i] != buffers[j])
    && (forall i :: 0 <= i < |buffers| ==> KnownData(arrays, buffers[i].data))
  }

  ghost function BuffersOf(arrays: seq<array<byte>>, buffers: seq<Buffer>): map<nat, Machine.Buffer>
    requires forall i :: 0 <= i < |buffers| ==> KnownData(arrays, buffers[i].data)
    reads buffers
  {
    map i: nat | i < |buffers| :: BufferOf(arrays, buffers[i])
  }

  /** The state of the machine that the objects are in. */
  ghost function StateOf(arrays: seq<array<byte>>, pooled: set<array<byte>>, buffers: seq<Buffer>): Machine.State
    requires Known(arrays, pooled, buffers)
    reads buffers
  {
    Machine.State(Sizes(arrays), PoolOf(arrays, pooled), BuffersOf(arrays, buffers), false)
  }

  /** The arrays there were, and perhaps new ones. */
  twostate predicate Newer(arrays: seq<array<byte>>, new arrays': seq<array<byte>>) {
    (forall a :: a in arrays' ==> a in arrays || fresh(a)) && forall a :: a in arrays ==> a in arrays'
  }

  // ---------------------------------------------------------------- small steps

  lemma {:induction false} IndexIs(arrays: seq<array<byte>>, i: nat)
    requires DistinctArrays(arrays) && i < |arrays|
    ensures IndexOf(arrays, arrays[i]) == i
  {
    var j := IndexOf(arrays, arrays[i]);
    assert arrays[j] == arrays[i];
  }

  lemma {:induction false} IndexStays(arrays: seq<array<byte>>, d: array<byte>, a: array<byte>)
    requires a in arrays
    ensures IndexOf(arrays + [d], a) == IndexOf(arrays, a)
  {
    if arrays[0] != a {
      assert (arrays + [d])[1..] == arrays[1..] + [d];
      IndexStays(arrays[1..], d, a);
    }
  }

  lemma SliceStays(arrays: seq<array<byte>>, d: array<byte>, data: array<byte>, len: nat)
    requires KnownData(arrays, data)
    ensures KnownData(arrays + [d], data) && SliceOf(arrays + [d], data, len) == SliceOf(arrays, data, len)
  {
    if data.Length > 0 {
      IndexStays(arrays, d, data);
    }
  }

  /** A new array is in no free list, and changes no other number. */
  lemma ArrayAdded(arrays: seq<array<byte>>, pooled: set<array<byte>>, d: array<byte>)
    requires DistinctArrays(arrays) && d !in arrays && d !in pooled
    ensures DistinctArrays(arrays + [d])
    ensures Sizes(arrays + [d]) == Sizes(arrays)[|arrays| := d.Length]
    ensures PoolOf(arrays + [d], pooled) == PoolOf(arrays, pooled)
    ensures IndexOf(arrays + [d], d) == |arrays|
  {
    var more := arrays + [d];
    forall k | 0 <= k < CLASSES
      ensures Ids(more, pooled, k) == Ids(arrays, pooled, k)
    {
      assert forall i: nat :: i < |arrays| ==> more[i] == arrays[i];
    }
    IndexIs(more, |arrays|);
  }

  /** An array leaves its free list, and no other. */
  lemma ArrayTaken(arrays: seq<array<byte>>, pooled: set<array<byte>>, d: array<byte>, k: nat)
    requires DistinctArrays(arrays) && d in arrays && d in pooled && k < CLASSES && d.Length == ClassSize(k)
    ensures IndexOf(arrays, d) in PoolOf(arrays, pooled)[k]
    ensures PoolOf(arrays, pooled - {d})
            == PoolOf(arrays, pooled)[k := PoolOf(arrays, pooled)[k] - multiset{IndexOf(arrays, d)}]
  {
    hide ClassSize;
    var id, less := IndexOf(arrays, d), pooled - {d};
    forall j | 0 <= j < CLASSES
      ensures Ids(arrays, less, j) == if j == k then Ids(arrays, pooled, j) - {id} else Ids(arrays, pooled, j)
    {
      SameClass(j, k);
      OnlyOneIndex(arrays, d);
    }
    assert id in Ids(arrays, pooled, k);
    OneLess(Ids(arrays, pooled, k), id);
  }

  lemma OnlyOneIndex(arrays: seq<array<byte>>, d: array<byte>)
    requires DistinctArrays(arrays) && d in arrays
    ensures forall i: nat :: i < |arrays| && arrays[i] == d ==> i == IndexOf(arrays, d)
  {
    forall i: nat | i < |arrays| && arrays[i] == d
      ensures i == IndexOf(arrays, d)
    {
      IndexIs(arrays, i);
    }
  }

  lemma OneLess(s: set<nat>, x: nat)
    requires x in s
    ensures multiset(s - {x}) == multiset(s) - multiset{x}
  {
  }

  lemma OneMore(s: set<nat>, x: nat)
    requires x !in s
    ensures multiset(s + {x}) == multiset(s) + multiset{x}
  {
  }

  /** An array joins the free list of its size. */
  lemma ArrayGiven(arrays: seq<array<byte>>, pooled: set<array<byte>>, d: array<byte>, k: nat)
    requires DistinctArrays(arrays) && d in arrays && d !in pooled && k < CLASSES && d.Length == ClassSize(k)
    ensures PoolOf(arrays, pooled + {d})
            == PoolOf(arrays, pooled)[k := PoolOf(arrays, pooled)[k] + multiset{IndexOf(arrays, d)}]
  {
    hide ClassSize;
    var id, more := IndexOf(arrays, d), pooled + {d};
    forall j | 0 <= j < CLASSES
      ensures Ids(arrays, more, j) == if j == k then Ids(arrays, pooled, j) + {id} else Ids(arrays, pooled, j)
    {
      SameClass(j, k);
      OnlyOneIndex(arrays, d);
    }
    assert id !in Ids(arrays, pooled, k);
    OneMore(Ids(arrays, pooled, k), id);
  }

  // ---------------------------------------------------------------- what the machine says of the objects

  /** In a state of the machine's invariant managed buffers hold distinct arrays, none of them pooled. */
  lemma HeldApart(allocator: Allocator, arrays: seq<array<byte>>, buffers: seq<Buffer>)
    requires allocator.Valid() && Known(arrays, allocator.Pooled(), buffers)
    requires Machine.Inv(StateOf(arrays, allocator.Pooled(), buffers))
    ensures forall i :: 0 <= i < |buffers| && buffers[i].managed ==>
              buffers[i].data.Length > 0 && buffers[i].data !in allocator.Pooled()
    ensures forall i, j ::
              0 <= i < j < |buffers| && buffers[i].managed && buffers[j].managed ==> buffers[i].data != buffers[j].data
  {
    hide ClassSize, PutClass;
    var s := StateOf(arrays, allocator.Pooled(), buffers);
    forall i | 0 <= i < |buffers| && buffers[i].managed
      ensures buffers[i].data.Length > 0 && buffers[i].data !in allocator.Pooled()
      ensures buffers[i].data in arrays && Machine.Holds(s, i, IndexOf(arrays, buffers[i].data))
    {
      assert Machine.WellManaged(s, s.buffers[i]);
      var d := buffers[i].data;
      assert Machine.Holds(s, i, IndexOf(arrays, d));
      if d in allocator.Pooled() {
        var k := ClassOf(allocator, d);
        PooledThere(arrays, allocator.Pooled(), buffers, d, k);
      }
    }
  }

  lemma PooledThere(arrays: seq<array<byte>>, pooled: set<array<byte>>, buffers: seq<Buffer>, d: array<byte>, k: nat)
    requires Known(arrays, pooled, buffers) && d in pooled && k < CLASSES && d.Length == ClassSize(k)
    ensures Machine.Pooled(StateOf(arrays, pooled, buffers), k, IndexOf(arrays, d))
  {
    hide ClassSize;
    ArrayTaken(arrays, pooled, d, k);
  }

  lemma ClassOf(allocator: Allocator, d: array<byte>) returns (k: nat)
    requires allocator.Valid() && d in allocator.Pooled()
    ensures k < CLASSES && d.Length == ClassSize(k)
  {
    hide ClassSize;
    k :| k < CLASSES && d in allocator.lists[k];
  }

  // ---------------------------------------------------------------- the steps

  /** A new buffer beside the others. */
  lemma BufferAdded(arrays: seq<array<byte>>, buffers: seq<Buffer>, b: Buffer)
    requires (forall i :: 0 <= i < |buffers| ==> KnownData(arrays, buffers[i].data)) && KnownData(arrays, b.data)
    ensures forall i :: 0 <= i < |buffers + [b]| ==> KnownData(arrays, (buffers + [b])[i].data)
    ensures BuffersOf(arrays, buffers + [b]) == BuffersOf(arrays, buffers)[|buffers| := BufferOf(arrays, b)]
  {
    var more := buffers + [b];
    assert forall i :: 0 <= i < |buffers| ==> more[i] == buffers[i];
    assert more[|buffers|] == b;
  }

  /** One more array changes nothing for the buffers there are. */
  lemma SameBuffers(arrays: seq<array<byte>>, d: array<byte>, buffers: seq<Buffer>)
    requires forall i :: 0 <= i < |buffers| ==> KnownData(arrays, buffers[i].data)
    ensures forall i :: 0 <= i < |buffers| ==> KnownData(arrays + [d], buffers[i].data)
    ensures BuffersOf(arrays + [d], buffers) == BuffersOf(arrays, buffers)
  {
    forall i | 0 <= i < |buffers|
      ensures KnownData(arrays + [d], buffers[i].data)
      ensures SliceOf(arrays + [d], buffers[i].data, buffers[i].len) == SliceOf(arrays, buffers[i].data, buffers[i].len)
    {
      SliceStays(arrays, d, buffers[i].data, buffers[i].len);
    }
  }

  /** What a new buffer is to the machine, and the arrays there are then. */
  lemma NewSizeStep(arrays: seq<array<byte>>, pooled: set<array<byte>>, buffers: seq<Buffer>, size: int, b: Buffer,
                    pooled': set<array<byte>>) returns (arrays': seq<array<byte>>, id: nat)
    requires Known(arrays, pooled, buffers) && b !in buffers
    requires (size >= 0 ==> b.len == size) && b.refs == 0 && pooled' == pooled - {b.data}
    requires b.managed <==> size != 0 && size <= 65535
    requires size <= 0 ==> b.data.Length == 0
    requires size > 65535 ==> b.data.Length == size && b.data !in arrays
    requires 0 < size <= 65535 ==> GetClass(size).Class? && b.data.Length == ClassSize(GetClass(size).index)
    requires b.data in pooled || b.data !in arrays || b.data.Length == 0
    ensures Known(arrays', pooled', buffers + [b])
    ensures (forall a :: a in arrays' ==> a in arrays || a == b.data) && forall a :: a in arrays ==> a in arrays'
    ensures Machine.NewSizeEnabled(StateOf(arrays, pooled, buffers), |buffers|, size, id)
    ensures StateOf(arrays', pooled', buffers + [b])
            == Machine.TakeNewSize(StateOf(arrays, pooled, buffers), |buffers|, size, id)
  {
    hide ClassSize, PutClass, GetClass, BuffersOf, PoolOf, Sizes, SliceOf, DistinctArrays;
    GetIsBestFit(size);
    KeysOf(arrays, buffers);
    SizesOf(arrays);
    if size <= 0 {
      arrays', id := arrays, 0;
      BufferAdded(arrays, buffers, b);
      NilSlice(arrays, b);
      NothingTaken(arrays, pooled, b.data);
    } else if b.data in arrays {
      arrays', id := arrays, IndexOf(arrays, b.data);
      BufferAdded(arrays, buffers, b);
      FullSlice(arrays, b);
      ArrayTaken(arrays, pooled, b.data, GetClass(size).index);
    } else {
      arrays', id := arrays + [b.data], |arrays|;
      assert pooled' == pooled;
      ArrayAdded(arrays, pooled, b.data);
      SameBuffers(arrays, b.data, buffers);
      BufferAdded(arrays', buffers, b);
      FullSlice(arrays', b);
    }
  }

  lemma NilSlice(arrays: seq<array<byte>>, b: Buffer)
    requires b.data.Length == 0
    ensures BufferOf(arrays, b) == Machine.Buffer(Machine.Nil, b.refs, b.managed)
  {
  }

  lemma FullSlice(arrays: seq<array<byte>>, b: Buffer)
    requires b.data.Length > 0 && b.data in arrays
    ensures BufferOf(arrays, b)
            == Machine.Buffer(Machine.Slice(IndexOf(arrays, b.data), b.len, b.data.Length), b.refs, b.managed)
  {
  }

  lemma KeysOf(arrays: seq<array<byte>>, buffers: seq<Buffer>)
    requires forall i :: 0 <= i < |buffers| ==> KnownData(arrays, buffers[i].data)
    ensures forall i: nat :: i in BuffersOf(arrays, buffers) <==> i < |buffers|
  {
  }

  lemma SizesOf(arrays: seq<array<byte>>)
    ensures forall i: nat :: i in Sizes(arrays) <==> i < |arrays|
    ensures forall i: nat :: i < |arrays| ==> Sizes(arrays)[i] == arrays[i].Length
  {
  }

  lemma NothingTaken(arrays: seq<array<byte>>, pooled: set<array<byte>>, d: array<byte>)
    requires d !in arrays || d.Length == 0
    ensures PoolOf(arrays, pooled - {d}) == PoolOf(arrays, pooled)
  {
    forall k | 0 <= k < CLASSES
      ensures Ids(arrays, pooled - {d}, k) == Ids(arrays, pooled, k)
    {
    }
  }

  /** NewSize takes the machine's step of that name, and keeps its invariant unless the size is negative. */
  method TrackedNewSize(allocator: Allocator, size: int, hit: bool, ghost arrays: seq<array<byte>>,
                        ghost buffers: seq<Buffer>)
    returns (b: Buffer, ghost arrays': seq<array<byte>>, ghost id: nat)
    requires allocator.Valid() && Known(arrays, allocator.Pooled(), buffers)
    requires Machine.Inv(StateOf(arrays, allocator.Pooled(), buffers))
    modifies allocator
    ensures allocator.Valid() && fresh(b) && Known(arrays', allocator.Pooled(), buffers + [b])
    ensures Newer(arrays, arrays')
    ensures var s, step := old(StateOf(arrays, allocator.Pooled(), buffers)), Machine.NewSize(|buffers|, size, id);
            Machine.Enabled(s, step) && StateOf(arrays', allocator.Pooled(), buffers + [b]) == Machine.Take(s, step)
    ensures size >= 0 ==> b.Valid() && b.View() == Queue([], size)
    ensures size >= 0 ==> Machine.Inv(StateOf(arrays', allocator.Pooled(), buffers + [b]))
  {
    hide ClassSize, PutClass, GetClass, StateOf, Machine.Inv, Machine.NewSizeEnabled, Machine.TakeNewSize;
    ghost var pooled := allocator.Pooled();
    ghost var s := StateOf(arrays, pooled, buffers);
    b := NewSize(allocator, size, hit);
    arrays', id := NewSizeStep(arrays, pooled, buffers, size, b, allocator.Pooled());
    if size >= 0 {
      Machine.InvStep(s, Machine.NewSize(|buffers|, size, id));
    }
  }

  // ---------------------------------------------------------------- releasing and copying

  /** Buffer i has been emptied, and all others are as they were. */
  lemma BufferEmptied(arrays: seq<array<byte>>, was: map<nat, Machine.Buffer>, buffers: seq<Buffer>, i: nat)
    requires (forall j :: 0 <= j < |buffers| ==> KnownData(arrays, buffers[j].data)) && i < |buffers|
    requires forall j: nat :: j in was <==> j < |buffers|
    requires forall j: nat :: j < |buffers| && j != i ==> was[j] == BufferOf(arrays, buffers[j])
    requires BufferOf(arrays, buffers[i]) == Machine.Buffer(Machine.Nil, 0, false)
    ensures BuffersOf(arrays, buffers) == was[i := Machine.Buffer(Machine.Nil, 0, false)]
  {
    hide SliceOf;
  }

  /** Release takes the machine's step of that name; that the buffer's array is not pooled already follows
      from the machine's invariant. */
  method TrackedRelease(allocator: Allocator, ghost arrays: seq<array<byte>>, buffers: seq<Buffer>, i: nat)
    requires allocator.Valid() && Known(arrays, allocator.Pooled(), buffers) && i < |buffers| && buffers[i].Valid()
    requires Machine.Inv(StateOf(arrays, allocator.Pooled(), buffers))
    modifies allocator, buffers[i]
    ensures allocator.Valid() && buffers[i].Valid() && Known(arrays, allocator.Pooled(), buffers)
    ensures var s, step := old(StateOf(arrays, allocator.Pooled(), buffers)), Machine.Release(i);
            Machine.Enabled(s, step) && StateOf(arrays, allocator.Pooled(), buffers) == Machine.Take(s, step)
    ensures Machine.Inv(StateOf(arrays, allocator.Pooled(), buffers))
  {
    hide ClassSize, PutClass, PoolOf, Sizes, DistinctArrays, Machine.Inv;
    HeldApart(allocator, arrays, buffers);
    Machine.InvStep(StateOf(arrays, allocator.Pooled(), buffers), Machine.Release(i));
    ghost var pooled, was, d := allocator.Pooled(), BuffersOf(arrays, buffers), buffers[i].data;
    buffers[i].Release(allocator);
    if old(buffers[i].managed && buffers[i].refs <= 0) {
      PutExact(d.Length);
      ghost var k := PutClass(d.Length).index;
      assert PutClass(d.Length) == Stored(k);
      ArrayGiven(arrays, pooled, d, k);
      BufferEmptied(arrays, was, buffers, i);
    }
  }

  /** A copy takes the machine's step of that name; its array is that of the buffer copied only if that one
      is a foreign slice of a pooled array. */
  method TrackedToOwned(allocator: Allocator, hit: bool, ghost arrays: seq<array<byte>>, buffers: seq<Buffer>, i: nat)
    returns (n: Buffer, ghost arrays': seq<array<byte>>, ghost id: nat)
    requires allocator.Valid() && Known(arrays, allocator.Pooled(), buffers) && i < |buffers| && buffers[i].Valid()
    requires Machine.Inv(StateOf(arrays, allocator.Pooled(), buffers))
    modifies allocator, allocator.Pooled()
    ensures allocator.Valid() && fresh(n) && n.Valid() && n.View() == buffers[i].View()
    ensures n.data == buffers[i].data ==> !buffers[i].managed && buffers[i].data in old(allocator.Pooled())
    ensures Newer(arrays, arrays')
    ensures Known(arrays', allocator.Pooled(), buffers + [n])
    ensures var s, step := old(StateOf(arrays, allocator.Pooled(), buffers)), Machine.ToOwned(|buffers|, i, id);
            Machine.Enabled(s, step) && StateOf(arrays', allocator.Pooled(), buffers + [n]) == Machine.Take(s, step)
    ensures Machine.Inv(StateOf(arrays', allocator.Pooled(), buffers + [n]))
  {
    hide ClassSize, PutClass, GetClass, PoolOf, Sizes, DistinctArrays, Machine.NewSizeEnabled, Machine.TakeNewSize,
         Machine.Inv;
    HeldApart(allocator, arrays, buffers);
    ghost var pooled := allocator.Pooled();
    ghost var s := StateOf(arrays, pooled, buffers);
    n := ToOwned(buffers[i], allocator, hit);
    arrays', id := NewSizeStep(arrays, pooled, buffers, buffers[i].len, n, allocator.Pooled());
    Machine.InvStep(s, Machine.ToOwned(|buffers|, i, id));
  }

  /** Only the count of buffer i has changed. */
  lemma Counted(arrays: seq<array<byte>>, was: map<nat, Machine.Buffer>, buffers: seq<Buffer>, i: nat, refs: int)
    requires (forall j :: 0 <= j < |buffers| ==> KnownData(arrays, buffers[j].data)) && i < |buffers|
    requires forall j: nat :: j in was <==> j < |buffers|
    requires forall j: nat :: j < |buffers| && j != i ==> was[j] == BufferOf(arrays, buffers[j])
    requires BufferOf(arrays, buffers[i]) == was[i].(refs := refs)
    ensures BuffersOf(arrays, buffers) == was[i := was[i].(refs := refs)]
  {
    hide SliceOf;
  }

  /** Counting references takes the machine's steps. */
  method TrackedIncRef(ghost arrays: seq<array<byte>>, ghost pooled: set<array<byte>>, buffers: seq<Buffer>, i: nat)
    requires Known(arrays, pooled, buffers) && i < |buffers| && Machine.Inv(StateOf(arrays, pooled, buffers))
    modifies buffers[i]
    ensures buffers[i].Valid() == old(buffers[i].Valid())
    ensures Known(arrays, pooled, buffers) && Machine.Inv(StateOf(arrays, pooled, buffers))
    ensures var s, step := old(StateOf(arrays, pooled, buffers)), Machine.IncRef(i);
            Machine.Enabled(s, step) && StateOf(arrays, pooled, buffers) == Machine.Take(s, step)
  {
    hide Machine.Inv, PoolOf, Sizes, DistinctArrays;
    ghost var was := BuffersOf(arrays, buffers);
    Machine.InvStep(StateOf(arrays, pooled, buffers), Machine.IncRef(i));
    buffers[i].IncRef();
    Counted(arrays, was, buffers, i, was[i].refs + 1);
  }

  method TrackedDecRef(ghost arrays: seq<array<byte>>, ghost pooled: set<array<byte>>, buffers: seq<Buffer>, i: nat)
    requires Known(arrays, pooled, buffers) && i < |buffers| && Machine.Inv(StateOf(arrays, pooled, buffers))
    modifies buffers[i]
    ensures buffers[i].Valid() == old(buffers[i].Valid())
    ensures Known(arrays, pooled, buffers) && Machine.Inv(StateOf(arrays, pooled, buffers))
    ensures var s, step := old(StateOf(arrays, pooled, buffers)), Machine.DecRef(i);
            Machine.Enabled(s, step) && StateOf(arrays, pooled, buffers) == Machine.Take(s, step)
  {
    hide Machine.Inv, PoolOf, Sizes, DistinctArrays;
    ghost var was := BuffersOf(arrays, buffers);
    Machine.InvStep(StateOf(arrays, pooled, buffers), Machine.DecRef(i));
    buffers[i].DecRef();
    Counted(arrays, was, buffers, i, was[i].refs - 1);
  }

  /** A buffer around a foreign slice. */
  lemma Wrapped(arrays: seq<array<byte>>, pooled: set<array<byte>>, buffers: seq<Buffer>, b: Buffer)
    requires Known(arrays, pooled, buffers) && Machine.Inv(StateOf(arrays, pooled, buffers)) && b !in buffers
    requires KnownData(arrays, b.data) && !b.managed && b.refs == 0
    ensures Known(arrays, pooled, buffers + [b])
    ensures var s, step := StateOf(arrays, pooled, buffers), Machine.Wrap(|buffers|, SliceOf(arrays, b.data, b.len));
            Machine.Enabled(s, step) && StateOf(arrays, pooled, buffers + [b]) == Machine.Take(s, step)
    ensures Machine.Inv(StateOf(arrays, pooled, buffers + [b]))
  {
    hide PoolOf, DistinctArrays, Machine.Inv;
    BufferAdded(arrays, buffers, b);
    Machine.InvStep(StateOf(arrays, pooled, buffers), Machine.Wrap(|buffers|, SliceOf(arrays, b.data, b.len)));
  }

  /** As and With take the machine's step for a foreign slice, which may alias any array. */
  method TrackedAs(ghost arrays: seq<array<byte>>, ghost pooled: set<array<byte>>, ghost buffers: seq<Buffer>,
                   data: array<byte>, len: nat)
    returns (b: Buffer)
    requires Known(arrays, pooled, buffers) && Machine.Inv(StateOf(arrays, pooled, buffers))
    requires KnownData(arrays, data) && len <= data.Length
    ensures fresh(b) && b.Valid() && b.View() == Queue(data[..len], 0) && Known(arrays, pooled, buffers + [b])
    ensures var s, step := old(StateOf(arrays, pooled, buffers)), Machine.Wrap(|buffers|, SliceOf(arrays, data, len));
            Machine.Enabled(s, step) && StateOf(arrays, pooled, buffers + [b]) == Machine.Take(s, step)
    ensures Machine.Inv(StateOf(arrays, pooled, buffers + [b]))
  {
    hide PoolOf, DistinctArrays, Machine.Inv;
    b := new Buffer.As(data, len);
    Wrapped(arrays, pooled, buffers, b);
  }

  method TrackedWith(ghost arrays: seq<array<byte>>, ghost pooled: set<array<byte>>, ghost buffers: seq<Buffer>,
                     data: array<byte>, len: nat)
    returns (b: Buffer)
    requires Known(arrays, pooled, buffers) && Machine.Inv(StateOf(arrays, pooled, buffers))
    requires KnownData(arrays, data) && len <= data.Length
    ensures fresh(b) && b.Valid() && b.View() == Queue([], len) && Known(arrays, pooled, buffers + [b])
    ensures var s, step := old(StateOf(arrays, pooled, buffers)), Machine.Wrap(|buffers|, SliceOf(arrays, data, len));
            Machine.Enabled(s, step) && StateOf(arrays, pooled, buffers + [b]) == Machine.Take(s, step)
    ensures Machine.Inv(StateOf(arrays, pooled, buffers + [b]))
  {
    hide PoolOf, DistinctArrays, Machine.Inv;
    b := new Buffer.With(data, len);
    Wrapped(arrays, pooled, buffers, b);
  }

  // ---------------------------------------------------------------- whole runs

  /** What a caller may do. Buffers and foreign arrays go by their numbers; a number that there is not, or a
      length that is too long, makes the command do nothing. */
  datatype Command =
    | Make(size: nat, hit: bool)
    | WrapAs(k: nat, len: nat)
    | WrapWith(k: nat, len: nat)
    | Alias(i: nat)                // As, around the slice of a buffer
    | Copy(i: nat, hit: bool)
    | Share(i: nat)
    | Unshare(i: nat)
    | GiveBack(i: nat)

  ghost predicate Tracked(allocator: Allocator, arrays: seq<array<byte>>, buffers: seq<Buffer>)
    reads allocator, buffers
  {
    && allocator.Valid() && Known(arrays, allocator.Pooled(), buffers)
    && (forall b :: b in buffers ==> b.Valid())
    && Machine.Inv(StateOf(arrays, allocator.Pooled(), buffers))
  }

  /** At most one step of the machine leads from one state to the other. */
  ghost predicate Leads(s: Machine.State, steps: seq<Machine.Step>, s': Machine.State) {
    if steps == [] then s' == s
    else |steps| == 1 && Machine.Enabled(s, steps[0]) && Machine.SizeFits(steps[0]) && s' == Machine.Take(s, steps[0])
  }

  method Do(c: Command, allocator: Allocator, foreign: seq<array<byte>>, buffers: seq<Buffer>,
            ghost arrays: seq<array<byte>>)
    returns (buffers': seq<Buffer>, ghost arrays': seq<array<byte>>, ghost steps: seq<Machine.Step>)
    requires Tracked(allocator, arrays, buffers) && forall a :: a in foreign ==> a in arrays
    modifies allocator, allocator.Pooled(), set b | b in buffers
    ensures Tracked(allocator, arrays', buffers') && Newer(arrays, arrays')
    ensures forall a :: a in foreign ==> a in arrays'
    ensures forall b :: b in buffers' ==> b in buffers || fresh(b)
    ensures Leads(old(StateOf(arrays, allocator.Pooled(), buffers)), steps,
                  StateOf(arrays', allocator.Pooled(), buffers'))
  {
    hide Machine.Inv, Machine.Enabled, Machine.Take, Known, StateOf;
    buffers', arrays', steps := buffers, arrays, [];
    match c
    case Make(size, hit) =>
      var b;
      ghost var id;
      b, arrays', id := TrackedNewSize(allocator, size, hit, arrays, buffers);
      buffers', steps := buffers + [b], [Machine.NewSize(|buffers|, size, id)];
    case WrapAs(k, len) =>
      if k < |foreign| && len <= foreign[k].Length {
        var b := TrackedAs(arrays, allocator.Pooled(), buffers, foreign[k], len);
        buffers', steps := buffers + [b], [Machine.Wrap(|buffers|, SliceOf(arrays, foreign[k], len))];
      }
    case WrapWith(k, len) =>
      if k < |foreign| && len <= foreign[k].Length {
        var b := TrackedWith(arrays, allocator.Pooled(), buffers, foreign[k], len);
        buffers', steps := buffers + [b], [Machine.Wrap(|buffers|, SliceOf(arrays, foreign[k], len))];
      }
    case Alias(i) =>
      if i < |buffers| {
        KnownThere(arrays, allocator.Pooled(), buffers, i);
        assert buffers[i] in buffers;
        var b := TrackedAs(arrays, allocator.Pooled(), buffers, buffers[i].data, buffers[i].len);
        steps := [Machine.Wrap(|buffers|, SliceOf(arrays, buffers[i].data, buffers[i].len))];
        buffers' := buffers + [b];
      }
    case Copy(i, hit) =>
      if i < |buffers| {
        var n;
        ghost var id;
        n, arrays', id := TrackedToOwned(allocator, hit, arrays, buffers, i);
        buffers', steps := buffers + [n], [Machine.ToOwned(|buffers|, i, id)];
      }
    case Share(i) =>
      if i < |buffers| {
        TrackedIncRef(arrays, allocator.Pooled(), buffers, i);
        steps := [Machine.IncRef(i)];
      }
    case Unshare(i) =>
      if i < |buffers| {
        TrackedDecRef(arrays, allocator.Pooled(), buffers, i);
        steps := [Machine.DecRef(i)];
      }
    case GiveBack(i) =>
      if i < |buffers| {
        TrackedRelease(allocator, arrays, buffers, i);
        steps := [Machine.Release(i)];
      }
  }

  lemma KnownThere(arrays: seq<array<byte>>, pooled: set<array<byte>>, buffers: seq<Buffer>, i: nat)
    requires Known(arrays, pooled, buffers) && i < |buffers|
    ensures KnownData(arrays, buffers[i].data)
  {
  }

  lemma PooledKnown(arrays: seq<array<byte>>, pooled: set<array<byte>>, buffers: seq<Buffer>)
    requires Known(arrays, pooled, buffers)
    ensures forall a :: a in pooled ==> a in arrays
  {
  }

  /** A new allocator and no buffers, beside any arrays of others, are an initial state of the machine. */
  lemma FreshStart(foreign: seq<array<byte>>)
    requires DistinctArrays(foreign)
    ensures Known(foreign, {}, []) && Machine.Initial(StateOf(foreign, {}, []))
  {
    assert forall k :: 0 <= k < CLASSES ==> Ids(foreign, {}, k) == {};
  }

  lemma NoStep(s: Machine.State, s': Machine.State)
    requires Leads(s, [], s')
    ensures s' == s
  {
  }

  lemma StartOf(s: Machine.State)
    requires Machine.Initial(s)
    ensures Machine.IsRun([s], []) && Machine.Inv(s)
  {
    Machine.InvInitial(s);
  }

  lemma Longer(states: seq<Machine.State>, steps: seq<Machine.Step>, more: seq<Machine.Step>, s: Machine.State)
    requires Machine.IsRun(states, steps) && Leads(states[|steps|], more, s) && more != []
    ensures Machine.IsRun(states + [s], steps + more) && forall step :: step in more ==> Machine.SizeFits(step)
    ensures |states + [s]| == |steps + more| + 1
  {
    hide Machine.Enabled, Machine.Take, Machine.Initial;
  }

  lemma TrackedFromStart(allocator: Allocator, foreign: seq<array<byte>>)
    requires allocator.Valid() && allocator.Pooled() == {} && Known(foreign, {}, [])
    requires Machine.Inv(StateOf(foreign, {}, []))
    ensures Tracked(allocator, foreign, [])
  {
    hide Machine.Inv, StateOf, Known;
  }

  /** Whatever a caller does from the start, the objects go through a run of the machine. */
  method Run(commands: seq<Command>, foreign: seq<array<byte>>)
    returns (allocator: Allocator, buffers: seq<Buffer>, ghost arrays: seq<array<byte>>,
             ghost states: seq<Machine.State>, ghost steps: seq<Machine.Step>)
    requires DistinctArrays(foreign)
    modifies foreign
    ensures Tracked(allocator, arrays, buffers) && Machine.IsRun(states, steps)
    ensures forall step :: step in steps ==> Machine.SizeFits(step)
    ensures states[|steps|] == StateOf(arrays, allocator.Pooled(), buffers)
  {
    hide Machine.Enabled, Machine.Take, Machine.Initial, Machine.Inv, Machine.IsRun, Leads, StateOf, Known;
    allocator := new Allocator();
    buffers, arrays, steps := [], foreign, [];
    FreshStart(foreign);
    states := [StateOf(foreign, {}, [])];
    StartOf(states[0]);
    assert Tracked(allocator, arrays, buffers) by {
      TrackedFromStart(allocator, foreign);
    }
    assert [states[0]] == states;
    for n := 0 to |commands|
      invariant fresh(allocator) && Tracked(allocator, arrays, buffers) && Machine.IsRun(states, steps)
      invariant forall b :: b in buffers ==> fresh(b)
      invariant forall a :: a in arrays ==> a in foreign || fresh(a)
      invariant forall a :: a in foreign ==> a in arrays
      invariant |states| == |steps| + 1 && forall step :: step in steps ==> Machine.SizeFits(step)
      invariant states[|steps|] == StateOf(arrays, allocator.Pooled(), buffers)
    {
      ghost var more;
      PooledKnown(arrays, allocator.Pooled(), buffers);
      assert forall a :: a in allocator.Pooled() ==> a in foreign || fresh(a);
      assert forall b :: b in buffers ==> fresh(b);
      ghost var before := StateOf(arrays, allocator.Pooled(), buffers);
      buffers, arrays, more := Do(commands[n], allocator, foreign, buffers, arrays);
      if more != [] {
        Longer(states, steps, more, StateOf(arrays, allocator.Pooled(), buffers));
        states, steps := states + [StateOf(arrays, allocator.Pooled(), buffers)], steps + more;
      } else {
        NoStep(before, StateOf(arrays, allocator.Pooled(), buffers));
      }
    }
  }

  /** From there on every step keeps the machine's invariant, and with it what gather writes ask of their
      lists: that managed buffers hold arrays of their own. What foreign slices alias is up to their makers. */
  lemma ListIsOwned(allocator: Allocator, arrays: seq<array<byte>>, buffers: seq<Buffer>, list: seq<Buffer>)
    requires allocator.Valid() && Known(arrays, allocator.Pooled(), buffers)
    requires Machine.Inv(StateOf(arrays, allocator.Pooled(), buffers))
    requires forall b :: b in list ==> b in buffers && b.Valid() && (!b.managed ==> b.data !in allocator.Pooled())
    ensures Owned(allocator, list)
  {
    hide StateOf, Machine.Inv, PutClass, ClassSize;
    HeldApart(allocator, arrays, buffers);
    forall b, c | b in list && c in list && b != c && b.managed && c.managed
      ensures b.data != c.data
    {
      var i :| 0 <= i < |buffers| && buffers[i] == b;
      var j :| 0 <= j < |buffers| && buffers[j] == c;
      assert i < j ==> buffers[i].data != buffers[j].data;
      assert j < i ==> buffers[j].data != buffers[i].data;
    }
  }
}
