/** The buffer: a window [start, end) of an array, limited by a capacity, over arrays from a pool. */
module Buffers {
  import opened Words
  import opened Pool
  import opened ByteQueue

  /** The free lists of the pool. */
  class Allocator {
    var lists: seq<seq<array<byte>>>

    /** Every list holds arrays of its own size, each of them once. */
    ghost predicate Valid()
      reads this
    {
      && |lists| == CLASSES
      && (forall k, i :: 0 <= k < CLASSES && 0 <= i < |lists[k]| ==> lists[k][i].Length == ClassSize(k))
      && (forall k, i, j :: 0 <= k < CLASSES && 0 <= i < j < |lists[k]| ==> lists[k][i] != lists[k][j])
    }

    ghost function Pooled(): set<array<byte>>
      reads this
    {
      set k, a | 0 <= k < |lists| && a in lists[k] :: a
    }

    constructor ()
      ensures Valid() && Pooled() == {}
    {
      lists := seq(CLASSES, _ => []);
    }

    /** An array of the best fitting size: one of the free list if the pool has one to give, else a new
        one. There is no array for a size out of range. */
    method Get(size: int, hit: bool) returns (found: bool, data: array<byte>)
      requires Valid()
      modifies this
      ensures Valid()
      ensures found <==> 0 < size <= LARGEST
      ensures found ==> GetClass(size).Class? && data.Length == ClassSize(GetClass(size).index) >= size
      ensures found ==> (fresh(data) || data in old(Pooled())) && Pooled() == old(Pooled()) - {data}
      ensures !found ==> Pooled() == old(Pooled()) && fresh(data) && data.Length == 0
    {
      hide ClassSize, GetClass;
      GetIsBestFit(size);
      match GetClass(size)
      case NoClass =>
        data := new byte[0];
        return false, data;
      case Class(k) =>
        if hit && lists[k] != [] {
          data := TakeFrom(k);
        } else {
          data := new byte[ClassSize(k)];
        }
        return true, data;
    }

    method TakeFrom(k: nat) returns (data: array<byte>)
      requires Valid() && k < CLASSES && lists[k] != []
      modifies this
      ensures Valid()
      ensures data.Length == ClassSize(k) && data in old(Pooled()) && Pooled() == old(Pooled()) - {data}
    {
      hide ClassSize;
      var n := |lists[k]| - 1;
      data := lists[k][n];
      ghost var before := lists;
      assert before[k] == before[k][..n] + [data] && data in before[k];
      forall j | 0 <= j < CLASSES && data in before[j]
        ensures j == k
      {
        SameClass(j, k);
      }
      lists := lists[k := lists[k][..n]];
      assert forall j :: 0 <= j < CLASSES && j != k ==> lists[j] == before[j];
      assert forall a :: a in lists[k] <==> a in before[k] && a != data;
    }

    /** Files the array under its size. */
    method Put(data: array<byte>) returns (outcome: PutOutcome)
      requires Valid() && data !in Pooled()
      modifies this
      ensures Valid()
      ensures outcome == PutClass(data.Length)
      ensures Pooled() == if outcome.Stored? then old(Pooled()) + {data} else old(Pooled())
    {
      hide ClassSize, PutClass;
      outcome := PutClass(data.Length);
      PutExact(data.Length);
      if outcome.Stored? {
        var k := outcome.index;
        ghost var before := lists;
        assert PutClass(data.Length) == Stored(k);
        assert data !in before[k];
        lists := lists[k := lists[k] + [data]];
        assert forall j :: 0 <= j < CLASSES && j != k ==> lists[j] == before[j];
        assert forall a :: a in lists[k] <==> a in before[k] || a == data;
      }
    }
  }

  class Buffer {
    var data: array<byte>
    var len: nat        // length of the slice; data.Length is its capacity
    var start: nat
    var end: nat
    var capacity: int
    var refs: int
    var managed: bool

    ghost predicate Valid()
      reads this
    {
      && start <= end <= capacity <= len <= data.Length
      && (managed ==> PutClass(data.Length).Stored?)
    }

    function Bytes(): (b: Bytes)
      requires Valid()
      reads this, data
      ensures |b| == end - start
    {
      data[start..end]
    }

    ghost function View(): Queue
      requires Valid()
      reads this, data
    {
      Queue(Bytes(), capacity - end)
    }

    /** The bytes have been put behind the window, and nothing else has changed. */
    twostate predicate Wrote(bytes: Bytes)
      requires old(end) + |bytes| <= old(data.Length)
      reads this, data
    {
      && data == old(data) && end == old(end) + |bytes|
      && data[..] == Splice(old(data[..]), old(end), bytes)
      && start == old(start) && capacity == old(capacity) && len == old(len) && managed == old(managed)
      && refs == old(refs)
    }

    /** Seen as a queue, the bytes have been added at its end. */
    twostate lemma WroteAdds(bytes: Bytes)
      requires old(Valid()) && |bytes| <= old(capacity - end) && Wrote(bytes)
      ensures Valid() && View() == Queue(old(Bytes()) + bytes, old(capacity - end) - |bytes|)
    {
      var m := old(data[..]);
      FieldAfterSplice(m, old(end), bytes, start, old(end) - start);
      assert data[..][start..old(end)] == old(data[start..end]);
      assert data[start..end] == data[..][start..old(end)] + data[..][old(end)..end];
    }

    /** What NewSize, New and NewPacket make of an array of the pool. */
    constructor FromPool(data: array<byte>, size: int)
      requires size <= data.Length && (size >= 0 ==> PutClass(data.Length).Stored?)
      ensures size >= 0 ==> Valid() && len == size
      ensures this.data == data && capacity == size && start == end == 0 && managed && refs == 0
    {
      this.data, len, start, end, capacity, refs, managed := data, if size < 0 then 0 else size, 0, 0, size, 0, true;
    }

    constructor With(data: array<byte>, len: nat)
      requires len <= data.Length
      ensures Valid() && View() == Queue([], len)
      ensures this.data == data && this.len == capacity == len && start == end == 0 && !managed && refs == 0
    {
      this.data, this.len, start, end, capacity, refs, managed := data, len, 0, 0, len, 0, false;
    }

    constructor As(data: array<byte>, len: nat)
      requires len <= data.Length
      ensures Valid() && View() == Queue(data[..len], 0)
      ensures this.data == data && this.len == capacity == end == len && start == 0 && !managed && refs == 0
    {
      this.data, this.len, start, end, capacity, refs, managed := data, len, 0, len, len, 0, false;
    }

    function IsFull(): bool
      reads this
    {
      end == capacity
    }

    function IsEmpty(): bool
      reads this
    {
      end == start
    }

    // -------------------------------------------------------------- writing

    /** Puts the bytes into the free space, as a copy or a reader does. */
    method Append(bytes: Bytes)
      requires Valid() && |bytes| <= capacity - end
      modifies this`end, data
      ensures Wrote(bytes)
      ensures Valid() && View() == Queue(old(Bytes()) + bytes, old(capacity - end) - |bytes|)
    {
      Poke(data, end, bytes);
      end := end + |bytes|;
      WroteAdds(bytes);
    }

    method Write(bytes: Bytes) returns (n: nat, short: bool)
      requires Valid()
      modifies this`end, data
      ensures Valid() && View() == Do(old(View()), Put(bytes)).queue
      ensures n == |Do(old(View()), Put(bytes)).accepted| && Wrote(bytes[..n])
      ensures short <==> bytes != [] && old(IsFull())
    {
      assert Splice(data[..], end, []) == data[..];
      if bytes == [] {
        return 0, false;
      }
      if IsFull() {
        return 0, true;
      }
      n := Min(|bytes|, capacity - end);
      Append(bytes[..n]);
      short := false;
    }

    method WriteByte(d: byte) returns (short: bool)
      requires Valid()
      modifies this`end, data
      ensures Valid() && View() == Do(old(View()), Put([d])).queue
      ensures short <==> old(IsFull())
      ensures Wrote(if short then [] else [d])
    {
      assert Splice(data[..], end, []) == data[..];
      if IsFull() {
        return true;
      }
      Append([d]);
      return false;
    }

    /** Makes n bytes behind the window part of it; ok is false if there is no room for them, where the code panics. */
    method Extend(n: nat) returns (ok: bool)
      requires Valid()
      modifies this`end
      ensures Valid()
      ensures ok <==> old(end) + n <= capacity
      ensures end == (if ok then old(end) + n else old(end))
      ensures ok ==> Bytes() == old(Bytes()) + data[old(end)..old(end) + n]
    {
      if end + n > capacity {
        return false;
      }
      end := end + n;
      return true;
    }

    method ExtendHeader(n: nat) returns (ok: bool)
      requires Valid()
      modifies this`start
      ensures Valid()
      ensures ok <==> n <= old(start)
      ensures start == (if ok then old(start) - n else old(start))
      ensures ok ==> Bytes() == data[start..start + n] + old(Bytes())
    {
      if start < n {
        return false;
      }
      start := start - n;
      return true;
    }

    // -------------------------------------------------------------- reading

    method Read(n: nat) returns (bytes: Bytes, eof: bool)
      requires Valid()
      modifies this`start
      ensures Valid() && View() == Do(old(View()), TakeUpTo(n)).queue
      ensures bytes == Do(old(View()), TakeUpTo(n)).taken
      ensures eof <==> old(Bytes()) == []
    {
      if IsEmpty() {
        return [], true;
      }
      var m := Min(n, end - start);
      bytes := data[start..start + m];
      start := start + m;
      eof := false;
      Splits(old(data[..]), old(start), start, end);
    }

    method ReadByte() returns (bytes: Bytes, eof: bool)
      requires Valid()
      modifies this`start
      ensures Valid() && View() == Do(old(View()), TakeUpTo(1)).queue
      ensures bytes == Do(old(View()), TakeUpTo(1)).taken
      ensures eof <==> old(Bytes()) == []
    {
      if IsEmpty() {
        return [], true;
      }
      bytes := [data[start]];
      start := start + 1;
      eof := false;
      Splits(old(data[..]), old(start), start, end);
    }

    method ReadBytes(n: nat) returns (bytes: Bytes, eof: bool)
      requires Valid()
      modifies this`start
      ensures Valid() && View() == Do(old(View()), TakeExactly(n)).queue
      ensures bytes == Do(old(View()), TakeExactly(n)).taken
      ensures eof <==> n > |old(Bytes())|
    {
      if end - start < n {
        return [], true;
      }
      bytes := data[start..start + n];
      start := start + n;
      eof := false;
      Splits(old(data[..]), old(start), start, end);
    }

    // -------------------------------------------------------------- moving the window

    method Advance(n: nat)
      requires Valid() && start + n <= end
      modifies this`start
      ensures Valid() && View() == Queue(old(Bytes())[n..], old(capacity - end))
    {
      start := start + n;
    }

    method Truncate(n: nat)
      requires Valid() && start + n <= capacity
      modifies this`end
      ensures Valid() && end == start + n
      ensures n <= |old(Bytes())| ==> Bytes() == old(Bytes())[..n]
    {
      end := start + n;
    }

    method Resize(start: nat, n: nat)
      requires Valid() && start + n <= capacity
      modifies this`start, this`end
      ensures Valid() && Bytes() == data[start..start + n] && this.start == start
    {
      this.start := start;
      end := start + n;
    }

    /** Sets n bytes of the capacity aside; OverCap gives them back. */
    method Reserve(n: nat) returns (ok: bool)
      requires Valid() && (n <= capacity ==> end <= capacity - n)
      modifies this`capacity
      ensures Valid()
      ensures ok <==> n <= old(capacity)
      ensures capacity == (if ok then old(capacity) - n else old(capacity))
    {
      if n > capacity {
        return false;
      }
      capacity := capacity - n;
      return true;
    }

    method OverCap(n: nat) returns (ok: bool)
      requires Valid()
      modifies this`capacity
      ensures Valid()
      ensures ok <==> old(capacity) + n <= len
      ensures capacity == (if ok then old(capacity) + n else old(capacity))
    {
      if capacity + n > len {
        return false;
      }
      capacity := capacity + n;
      return true;
    }

    method Reset()
      requires Valid()
      modifies this`start, this`end, this`capacity
      ensures Valid() && View() == Queue([], len)
    {
      start, end, capacity := 0, 0, len;
    }

    // -------------------------------------------------------------- filling from a reader

    method ReadOnceFrom(reader: Reader) returns (n: nat, short: bool, status: Status)
      requires Valid() && FitsRoom(reader)
      modifies this`end, data
      ensures Valid()
      ensures short <==> old(IsFull())
      ensures View() == if short then old(View()) else Do(old(View()), Put(reader(0, old(capacity - end)).bytes)).queue
      ensures !short ==> n == |reader(0, old(capacity - end)).bytes| && status == reader(0, old(capacity - end)).status
    {
      if IsFull() {
        return 0, true, More;
      }
      var c := reader(0, capacity - end);
      assert |c.bytes| <= capacity - end;
      Append(c.bytes);
      assert c.bytes[..|c.bytes|] == c.bytes;
      return |c.bytes|, false, c.status;
    }

    /** One answer of the reader; `added` has been put into the array m before. */
    method ReadTurn(reader: Reader, k: nat, ghost m: Bytes, ghost added: Bytes) returns (c: Chunk)
      requires Valid() && FitsRoom(reader)
      requires |added| <= end && end <= |m| && data[..] == Splice(m, end - |added|, added)
      modifies this`end, data
      ensures Valid() && c == reader(k, old(capacity - end)) && |c.bytes| <= old(capacity - end)
      ensures end == old(end) + |c.bytes| && end <= |m|
      ensures data[..] == Splice(m, old(end) - |added|, added + c.bytes)
    {
      c := reader(k, capacity - end);
      assert |c.bytes| <= capacity - end;
      SpliceMore(m, end - |added|, added, c.bytes);
      Append(c.bytes);
    }

    /** Adds exactly the bytes delivered until the reader or the space ends. It is the space iff the
        answers fill it while the reader is open; the count then says zero although the bytes are there. */
    method ReadFrom(reader: Reader, stops: nat) returns (n: nat, short: bool, failed: bool)
      requires Valid() && FitsRoom(reader) && StopsBy(reader, stops)
      modifies this`end, data
      ensures Valid()
      ensures var r := ReadAll(reader, 0, old(capacity - end), stops);
              && |r.bytes| <= old(capacity - end)
              && View() == Queue(old(Bytes()) + r.bytes, old(capacity - end) - |r.bytes|)
              && failed == r.failed
              && n == (if short then 0 else |r.bytes|)
      ensures short <==> FillsWhileOpen(reader, old(capacity - end))
    {
      hide ReadAll, Splice, PutClass, FitsRoom, StopsBy, Wrote, FillsWhileOpen;
      ghost var added;
      ShortExactly(reader, capacity - end, stops);
      n, short, failed, added := ReadLoop(reader, stops);
      WroteAdds(added);
    }

    method ReadLoop(reader: Reader, stops: nat) returns (n: nat, short: bool, failed: bool, ghost added: Bytes)
      requires Valid() && FitsRoom(reader) && StopsBy(reader, stops)
      modifies this`end, data
      ensures ReadAll(reader, 0, old(capacity - end), stops) == ReadResult(added, short, failed)
      ensures |added| <= old(capacity - end) && Wrote(added)
      ensures n == (if short then 0 else |added|)
    {
      hide ReadAll, Splice, PutClass, FitsRoom, StopsBy;
      ghost var room, m := capacity - end, data[..];
      ghost var goal := ReadAll(reader, 0, room, stops);
      added := [];
      SpliceNothing(m, end);
      var k := 0;
      n := 0;
      while true
        invariant k <= stops && n == |added| <= room
        invariant Wrote(added)
        invariant goal == Prefixed(added, ReadAll(reader, k, room - |added|, stops))
        decreases stops - k
      {
        ReadStep(reader, k, room, added, stops);
        if IsFull() {
          return 0, true, false, added;
        }
        var c := ReadTurn(reader, k, m, added);
        n := n + |c.bytes|;
        added := added + c.bytes;
        if c.status != More {
          return n, false, c.status == Failed, added;
        }
        k := k + 1;
      }
    }

    // -------------------------------------------------------------- sharing and releasing

    method IncRef()
      modifies this`refs
      ensures refs == old(refs) + 1
    {
      refs := refs + 1;
    }

    method DecRef()
      modifies this`refs
      ensures refs == old(refs) - 1
    {
      refs := refs - 1;
    }

    /** Gives the array back to the pool, unless the buffer does not own one or is referenced. */
    method Release(allocator: Allocator)
      requires Valid() && allocator.Valid() && (managed ==> data !in allocator.Pooled())
      modifies this, allocator
      ensures Valid() && allocator.Valid()
      ensures if old(managed && refs <= 0) then
                && View() == Queue([], 0) && !managed && fresh(data) && data.Length == len == 0 && refs == 0
                && allocator.Pooled() == old(allocator.Pooled()) + {old(data)}
              else
                && unchanged(this) && unchanged(allocator)
    {
      if !managed || refs > 0 {
        return;
      }
      var outcome := allocator.Put(data);
      assert outcome.Stored?;
      data := new byte[0];
      len, start, end, capacity, refs, managed := 0, 0, 0, 0, 0, false;
    }
  }

  /** A buffer with room for size bytes: without an array for zero, with one of the pool up to 65535, and
      with one of its own above. A negative size passes for a small one: the buffer is managed but has no
      array, and is of no use. */
  method NewSize(allocator: Allocator, size: int, hit: bool) returns (b: Buffer)
    requires allocator.Valid()
    modifies allocator
    ensures allocator.Valid() && fresh(b)
    ensures size >= 0 ==> b.Valid() && b.View() == Queue([], size) && b.len == size
    ensures size < 0 ==> !b.Valid() && b.data.Length == 0 && fresh(b.data)
    ensures b.start == b.end == 0 && b.capacity == size && b.refs == 0
    ensures b.managed <==> size != 0 && size <= 65535
    ensures size == 0 || size > 65535 ==> fresh(b.data) && b.data.Length == size
    ensures 0 < size <= 65535 ==> GetClass(size).Class? && b.data.Length == ClassSize(GetClass(size).index)
    ensures (fresh(b.data) || b.data in old(allocator.Pooled()))
            && allocator.Pooled() == old(allocator.Pooled()) - {b.data}
  {
    hide ClassSize, PutClass, GetClass;
    if size == 0 || size > 65535 {
      var own := new byte[size];
      b := new Buffer.With(own, size);
    } else {
      var found, data := allocator.Get(size, hit);
      if found {
        PutUndoesGet(size);
      }
      b := new Buffer.FromPool(data, size);
    }
  }

  /** A copy with the same window, in an array of its own unless the one copied lies in the pool. */
  method ToOwned(b: Buffer, allocator: Allocator, hit: bool) returns (n: Buffer)
    requires b.Valid() && allocator.Valid()
    modifies allocator, allocator.Pooled()
    ensures allocator.Valid() && fresh(n) && n.Valid()
    ensures b.data !in old(allocator.Pooled()) ==> n.data != b.data
    ensures b.Valid() && b.Bytes() == old(b.Bytes()) && n.View() == b.View()
    ensures n.start == b.start && n.end == b.end && n.capacity == b.capacity && n.len == b.len
    ensures n.refs == 0 && (n.managed <==> 0 < b.len <= 65535)
    ensures b.len == 0 || b.len > 65535 ==> fresh(n.data) && n.data.Length == b.len
    ensures 0 < b.len <= 65535 ==> GetClass(b.len).Class? && n.data.Length == ClassSize(GetClass(b.len).index)
    ensures fresh(n.data) || n.data in old(allocator.Pooled())
    ensures allocator.Pooled() == old(allocator.Pooled()) - {n.data}
  {
    hide PutClass, ClassSize, GetClass, Splice;
    n := NewSize(allocator, b.len, hit);
    CopyWindow(b, n);
  }

  /** Copies the window and its place from one array to another. */
  method CopyWindow(b: Buffer, n: Buffer)
    requires b.Valid() && n.Valid() && b != n && n.len == b.len
    modifies n`start, n`end, n`capacity, n.data
    ensures n.Valid() && n.start == b.start && n.end == b.end && n.capacity == b.capacity
    ensures b.Valid() && b.Bytes() == old(b.Bytes()) && n.Bytes() == b.Bytes()
  {
    hide PutClass, ClassSize, Splice;
    Poke(n.data, b.start, b.Bytes());
    n.start, n.end, n.capacity := b.start, b.end, b.capacity;
    assert n.data[..][b.start..b.end] == b.Bytes();
  }

  function Prefixed(added: Bytes, r: ReadResult): ReadResult {
    r.(bytes := added + r.bytes)
  }

  /** The front and the rest of a stretch of the array. */
  lemma Splits(m: Bytes, a: nat, b: nat, c: nat)
    requires a <= b <= c <= |m|
    ensures m[a..c][..b - a] == m[a..b] && m[a..c][b - a..] == m[b..c]
  {
  }

  /** One turn of the loop: the space has ended, or the reader answers once more. */
  lemma ReadStep(reader: Reader, k: nat, room: nat, added: Bytes, stops: nat)
    requires |added| <= room && FitsRoom(reader) && StopsBy(reader, stops) && k <= stops
    ensures var now := Prefixed(added, ReadAll(reader, k, room - |added|, stops));
            if |added| == room then now == ReadResult(added, true, false)
            else
              var c := reader(k, room - |added|);
              && |c.bytes| <= room - |added|
              && (c.status == More ==> k < stops)
              && now == if c.status != More then ReadResult(added + c.bytes, false, c.status == Failed)
                        else Prefixed(added + c.bytes, ReadAll(reader, k + 1, room - |added| - |c.bytes|, stops))
  {
    if |added| < room {
      var c := reader(k, room - |added|);
      assert |c.bytes| <= room - |added|;
      if c.status == More {
        var rest := ReadAll(reader, k + 1, room - |added| - |c.bytes|, stops);
        assert added + (c.bytes + rest.bytes) == (added + c.bytes) + rest.bytes;
      }
    } else {
      assert added + [] == added;
    }
  }
}
