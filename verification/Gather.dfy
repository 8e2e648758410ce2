/** Writing a list of buffers as one: the bytes handed on are the contents of the buffers, one after the
    other, as they were before any of them is released. */
module Gather {
  import opened Words
  import opened Pool
  import opened ByteQueue
  import opened Buffers

  ghost predicate AllValid(buffers: seq<Buffer>)
    reads buffers
  {
    forall b :: b in buffers ==> b.Valid()
  }

  ghost function Arrays(buffers: seq<Buffer>): set<array<byte>>
    reads buffers
  {
    set b | b in buffers :: b.data
  }

  /** The contents of all buffers, in the order of the list; a buffer may occur more than once. */
  ghost function Contents(buffers: seq<Buffer>): Bytes
    requires AllValid(buffers)
    reads buffers, Arrays(buffers)
  {
    if buffers == [] then []
    else
      assert buffers[0] in buffers;
      assert forall b :: b in buffers[1..] ==> b in buffers;
      assert Arrays(buffers[1..]) <= Arrays(buffers);
      buffers[0].Bytes() + Contents(buffers[1..])
  }

  /** The list without its first i buffers. */
  lemma Suffix(buffers: seq<Buffer>, i: nat)
    requires AllValid(buffers) && i <= |buffers|
    ensures AllValid(buffers[i..]) && Arrays(buffers[i..]) <= Arrays(buffers)
    ensures if i == |buffers| then Contents(buffers[i..]) == []
            else
              && buffers[i].Valid() && buffers[i].data in Arrays(buffers) && AllValid(buffers[i + 1..])
              && Contents(buffers[i..]) == buffers[i].Bytes() + Contents(buffers[i + 1..])
  {
    assert forall b :: b in buffers[i..] ==> b in buffers;
    if i < |buffers| {
      assert buffers[i..][1..] == buffers[i + 1..] && buffers[i] in buffers;
      assert forall b :: b in buffers[i + 1..] ==> b in buffers;
    }
  }

  method LenMulti(buffers: seq<Buffer>) returns (n: nat)
    requires AllValid(buffers)
    ensures n == |Contents(buffers)|
  {
    hide Contents;
    n := 0;
    var i := 0;
    assert buffers[0..] == buffers;
    while i < |buffers|
      invariant 0 <= i <= |buffers|
      invariant AllValid(buffers[i..]) && n + |Contents(buffers[i..])| == |Contents(buffers)|
    {
      Suffix(buffers, i);
      n := n + |buffers[i].Bytes()|;
      i := i + 1;
    }
    Suffix(buffers, i);
  }

  /** Copies the contents one after the other to the front of the target, as far as they fit. */
  method CopyMulti(target: array<byte>, buffers: seq<Buffer>) returns (n: nat)
    requires AllValid(buffers) && target !in Arrays(buffers)
    modifies target
    ensures AllValid(buffers) && Contents(buffers) == old(Contents(buffers))
            && n == Min(|Contents(buffers)|, target.Length)
    ensures target[..] == Splice(old(target[..]), 0, Contents(buffers)[..n])
  {
    hide Contents, Splice, Arrays;
    ghost var all, rest := Contents(buffers), target[..];
    ghost var done: Bytes := [];
    n := 0;
    var i := 0;
    assert buffers[0..] == buffers;
    SpliceNothing(rest, 0);
    while i < |buffers|
      invariant 0 <= i <= |buffers|
      invariant AllValid(buffers) && AllValid(buffers[i..]) && Contents(buffers) == all
      invariant done + Contents(buffers[i..]) == all
      invariant n == Min(|done|, target.Length) && target[..] == Splice(rest, 0, done[..n])
    {
      Suffix(buffers, i);
      ghost var bytes, later := buffers[i].Bytes(), Contents(buffers[i + 1..]);
      assert done + (bytes + later) == (done + bytes) + later;
      ghost var before := n;
      n := CopyOne(target, buffers, i, n);
      CopiedMore(rest, done, before, bytes, n);
      done := done + bytes;
      i := i + 1;
    }
    Suffix(buffers, i);
  }

  /** Copying one more after as much as fits is copying as much as fits of both. */
  lemma CopiedMore(m: Bytes, done: Bytes, before: nat, bytes: Bytes, n: nat)
    requires before == Min(|done|, |m|) && n == before + Min(|bytes|, |m| - before)
    ensures n == Min(|done + bytes|, |m|)
    ensures Splice(Splice(m, 0, done[..before]), before, bytes[..n - before]) == Splice(m, 0, (done + bytes)[..n])
  {
    hide Splice;
    SpliceMore(m, 0, done[..before], bytes[..n - before]);
    assert done[..before] + bytes[..n - before] == (done + bytes)[..n];
  }

  /** Copies the contents of one of them to the given place, as far as they fit. */
  method CopyOne(target: array<byte>, buffers: seq<Buffer>, i: nat, at: nat) returns (n: nat)
    requires AllValid(buffers) && target !in Arrays(buffers) && i < |buffers|
    requires buffers[i].Valid() && at <= target.Length
    modifies target
    ensures AllValid(buffers) && Contents(buffers) == old(Contents(buffers))
    ensures AllValid(buffers[i + 1..]) && Contents(buffers[i + 1..]) == old(Contents(buffers[i + 1..]))
    ensures n == at + Min(|old(buffers[i].Bytes())|, target.Length - at)
    ensures target[..] == Splice(old(target[..]), at, old(buffers[i].Bytes())[..n - at])
  {
    hide Contents, Splice;
    Suffix(buffers, i + 1);
    var bytes := buffers[i].Bytes();
    n := at + Min(|bytes|, target.Length - at);
    Poke(target, at, bytes[..n - at]);
  }

  // ---------------------------------------------------------------- releasing

  /** No two managed buffers share an array, and nothing in the list lies in the pool. */
  ghost predicate Owned(allocator: Allocator, buffers: seq<Buffer>)
    reads allocator, buffers
  {
    && allocator.Valid() && AllValid(buffers)
    && (forall b :: b in buffers ==> b.data !in allocator.Pooled())
    && (forall b, c :: b in buffers && c in buffers && b != c && b.managed && c.managed ==> b.data != c.data)
  }

  /** The arrays that a release of the whole list gives back. */
  ghost function GivenUp(buffers: seq<Buffer>): set<array<byte>>
    reads buffers
  {
    set b | b in buffers && b.managed && b.refs <= 0 :: b.data
  }

  method ReleaseMulti(allocator: Allocator, buffers: seq<Buffer>)
    requires Owned(allocator, buffers)
    modifies allocator, buffers
    ensures allocator.Valid() && AllValid(buffers)
    ensures allocator.Pooled() == old(allocator.Pooled()) + old(GivenUp(buffers))
    ensures forall b :: b in buffers ==> (b.managed <==> old(b.managed && b.refs > 0))
  {
    var i := 0;
    while i < |buffers|
      invariant 0 <= i <= |buffers|
      invariant allocator.Valid() && AllValid(buffers)
      invariant allocator.Pooled()
                == old(allocator.Pooled())
                   + (set b | b in buffers[..i] && old(b.managed && b.refs <= 0) :: old(b.data))
      invariant forall b :: b in buffers && (b !in buffers[..i] || !old(b.managed && b.refs <= 0)) ==>
                  b.managed == old(b.managed) && b.refs == old(b.refs) && b.data == old(b.data)
      invariant forall b :: b in buffers[..i] && old(b.managed && b.refs <= 0) ==> !b.managed
    {
      var b := buffers[i];
      assert buffers[..i + 1] == buffers[..i] + [b];
      b.Release(allocator);
      i := i + 1;
    }
    assert buffers[..i] == buffers;
  }

  // ---------------------------------------------------------------- the buffered writer

  lemma OneBuffer(buffers: seq<Buffer>)
    requires AllValid(buffers) && |buffers| == 1
    ensures buffers[0].Valid() && Contents(buffers) == buffers[0].Bytes()
  {
    assert buffers[0] in buffers && buffers[1..] == [];
    assert Contents(buffers[1..]) == [];
  }

  lemma WholeSplice(m: Bytes, b: Bytes)
    requires |b| <= |m|
    ensures Splice(m, 0, b)[..|b|] == b
  {
  }

  /** One Write upstream, of the contents of all buffers; then all of them are released. The scratch array
      may come from the pool, with whatever it last held; none of that is written. */
  method WriteVectorised(allocator: Allocator, buffers: seq<Buffer>, hit: bool) returns (written: Bytes)
    requires Owned(allocator, buffers)
    modifies allocator, buffers, allocator.Pooled()
    ensures written == old(Contents(buffers))
    ensures allocator.Valid() && AllValid(buffers)
    ensures forall b :: b in buffers ==> (b.managed <==> old(b.managed && b.refs > 0))
    ensures forall a :: a in old(GivenUp(buffers)) ==> a in allocator.Pooled()
  {
    hide Splice, PutClass;
    assert forall a :: a in Arrays(buffers) ==> allocated(a);
    var bufferLen := LenMulti(buffers);
    assert Contents(buffers) == old(Contents(buffers));
    if bufferLen == 0 {
      assert |Contents(buffers)| == 0;
      written := [];
    } else if |buffers| == 1 {
      OneBuffer(buffers);
      written := buffers[0].Bytes();
    } else {
      written := Flatten(allocator, buffers, bufferLen, hit);
    }
    ReleaseMulti(allocator, buffers);
  }

  method Flatten(allocator: Allocator, buffers: seq<Buffer>, bufferLen: nat, hit: bool) returns (written: Bytes)
    requires Owned(allocator, buffers) && 0 < bufferLen == |Contents(buffers)|
    modifies allocator, allocator.Pooled()
    ensures written == old(Contents(buffers))
    ensures Owned(allocator, buffers)
  {
    hide Contents, Splice, PutClass;
    if bufferLen > 65535 {
      var own := new byte[bufferLen];
      var _ := CopyMulti(own, buffers);
      WholeSplice(own[..], Contents(buffers));
      written := own[..];
    } else {
      var scratch := NewSize(allocator, bufferLen, hit);
      ghost var m := scratch.data[..];
      var _ := CopyMulti(scratch.data, buffers);
      WholeSplice(m, Contents(buffers));
      written := scratch.data[scratch.end..scratch.capacity];
      scratch.Release(allocator);
    }
  }

  ghost function Joined(data: seq<array<byte>>): Bytes
    reads data
  {
    if data == [] then [] else data[0][..] + Joined(data[1..])
  }

  lemma {:induction false} Appended(buffers: seq<Buffer>, b: Buffer)
    requires b.Valid() && AllValid(buffers)
    ensures AllValid(buffers + [b]) && Contents(buffers + [b]) == Contents(buffers) + b.Bytes()
  {
    if buffers == [] {
      OneBuffer([b]);
      assert buffers + [b] == [b];
    } else {
      assert forall c :: c in buffers[1..] ==> c in buffers;
      Appended(buffers[1..], b);
      assert (buffers + [b])[1..] == buffers[1..] + [b];
      assert buffers[0].Bytes() + (Contents(buffers[1..]) + b.Bytes()) == Contents(buffers) + b.Bytes();
    }
  }

  lemma {:induction false} JoinedAppended(data: seq<array<byte>>, a: array<byte>)
    ensures Joined(data + [a]) == Joined(data) + a[..]
  {
    if data == [] {
      assert [a][1..] == [] && data + [a] == [a];
    } else {
      JoinedAppended(data[1..], a);
      assert (data + [a])[1..] == data[1..] + [a];
      assert data[0][..] + (Joined(data[1..]) + a[..]) == Joined(data) + a[..];
    }
  }

  /** Wraps the arrays in buffers that do not own them. */
  method WrapAll(data: seq<array<byte>>) returns (buffers: seq<Buffer>, dataLen: nat)
    ensures fresh(buffers) && AllValid(buffers) && Contents(buffers) == Joined(data) && dataLen == |Joined(data)|
    ensures forall b :: b in buffers ==> !b.managed && b.data in data
  {
    hide Contents, Joined, Arrays;
    buffers, dataLen := [], 0;
    var i := 0;
    NothingJoined(buffers, data[..0]);
    while i < |data|
      invariant 0 <= i <= |data| && fresh(buffers) && AllValid(buffers)
      invariant forall b :: b in buffers ==> !b.managed && b.data in data
      invariant Contents(buffers) == Joined(data[..i]) && dataLen == |Joined(data[..i])|
    {
      var b := WrapOne(buffers, data[i]);
      JoinedAppended(data[..i], data[i]);
      assert data[..i + 1] == data[..i] + [data[i]];
      buffers := buffers + [b];
      dataLen := dataLen + data[i].Length;
      i := i + 1;
    }
    assert data[..i] == data;
  }

  method WrapOne(buffers: seq<Buffer>, a: array<byte>) returns (b: Buffer)
    requires AllValid(buffers)
    ensures fresh(b) && !b.managed && b.data == a
    ensures AllValid(buffers + [b]) && Contents(buffers + [b]) == old(Contents(buffers)) + a[..]
  {
    assert forall x :: x in Arrays(buffers) ==> allocated(x);
    b := new Buffer.As(a, a.Length);
    assert Contents(buffers) == old(Contents(buffers));
    assert b.Bytes() == a[..];
    Appended(buffers, b);
  }

  lemma NothingJoined(buffers: seq<Buffer>, data: seq<array<byte>>)
    requires buffers == [] && data == []
    ensures AllValid(buffers) && Contents(buffers) == [] == Joined(data)
  {
  }

  /** Writes the given arrays as one; the count is theirs, or zero when the write fails. */
  method WriteSlices(allocator: Allocator, data: seq<array<byte>>, hit: bool, ok: bool) returns (n: nat, written: Bytes)
    requires allocator.Valid() && forall a :: a in data ==> a !in allocator.Pooled()
    modifies allocator, allocator.Pooled()
    ensures written == old(Joined(data))
    ensures n == if ok then |written| else 0
  {
    hide Contents, Joined;
    var buffers, dataLen := WrapAll(data);
    written := WriteVectorised(allocator, buffers, hit);
    n := if ok then dataLen else 0;
  }

  // ---------------------------------------------------------------- the tun device

  function Concat(elements: seq<Bytes>): Bytes {
    if elements == [] then [] else elements[0] + Concat(elements[1..])
  }

  /** What the driver answers to a request for a packet. */
  datatype Allocation = Allocated | HandleEof | BufferOverflow | OtherError

  datatype WriteResult = Sent(packet: Bytes) | Dropped | Closed | WriteFailed

  /** One packet made of all elements; a full ring drops it without an error. */
  method Write(elements: seq<Bytes>, closed: bool, allocation: Allocation) returns (n: nat, r: WriteResult)
    ensures n == 0
    ensures r == if closed then Closed
                 else match allocation
                   case Allocated => Sent(Concat(elements))
                   case HandleEof => Closed
                   case BufferOverflow => Dropped
                   case OtherError => WriteFailed
  {
    if closed {
      return 0, Closed;
    }
    var packetSize := TotalLength(elements);
    match allocation
    case Allocated =>
      var packet := new byte[packetSize];
      Fill(packet, elements);
      return 0, Sent(packet[..]);
    case HandleEof => return 0, Closed;
    case BufferOverflow => return 0, Dropped;
    case OtherError => return 0, WriteFailed;
  }

  method TotalLength(elements: seq<Bytes>) returns (packetSize: nat)
    ensures packetSize == |Concat(elements)|
  {
    packetSize := 0;
    var i := 0;
    assert elements[0..] == elements;
    while i < |elements|
      invariant 0 <= i <= |elements|
      invariant packetSize + |Concat(elements[i..])| == |Concat(elements)|
    {
      assert elements[i..][1..] == elements[i + 1..];
      packetSize := packetSize + |elements[i]|;
      i := i + 1;
    }
  }

  /** Fills a packet of the right size with the elements, one after the other. */
  method Fill(packet: array<byte>, elements: seq<Bytes>)
    requires packet.Length == |Concat(elements)|
    modifies packet
    ensures packet[..] == Concat(elements)
  {
    hide Concat, Splice;
    ghost var all, m := Concat(elements), packet[..];
    ghost var done: Bytes := [];
    var index, i := 0, 0;
    assert elements[0..] == elements;
    SpliceNothing(m, 0);
    while i < |elements|
      invariant 0 <= i <= |elements| && index == |done|
      invariant done + Concat(elements[i..]) == all
      invariant packet[..] == Splice(m, 0, done)
    {
      ConcatStep(elements, i);
      assert done + (elements[i] + Concat(elements[i + 1..])) == (done + elements[i]) + Concat(elements[i + 1..]);
      Poke(packet, index, elements[i]);
      SpliceMore(m, 0, done, elements[i]);
      done := done + elements[i];
      index := index + |elements[i]|;
      i := i + 1;
    }
    ConcatStep(elements, i);
    WholeSplice(m, done);
  }

  lemma ConcatStep(elements: seq<Bytes>, i: nat)
    requires i <= |elements|
    ensures Concat(elements[i..]) == if i == |elements| then [] else elements[i] + Concat(elements[i + 1..])
  {
    assert i < |elements| ==> elements[i..][1..] == elements[i + 1..];
  }

  lemma {:induction false} ConcatSnoc(elements: seq<Bytes>, last: Bytes)
    ensures Concat(elements + [last]) == Concat(elements) + last
  {
    if elements == [] {
      assert [last][1..] == [];
      assert Concat([last]) == last;
    } else {
      assert (elements + [last])[1..] == elements[1..] + [last];
      ConcatSnoc(elements[1..], last);
      assert elements[0] + (Concat(elements[1..]) + last) == (elements[0] + Concat(elements[1..])) + last;
    }
  }

  method ToSliceMulti(buffers: seq<Buffer>) returns (slices: seq<Bytes>)
    requires AllValid(buffers)
    ensures Concat(slices) == Contents(buffers)
  {
    hide Contents, Concat;
    slices := [];
    var i := 0;
    assert buffers[0..] == buffers;
    ConcatNothing();
    while i < |buffers|
      invariant 0 <= i <= |buffers|
      invariant AllValid(buffers[i..]) && Concat(slices) + Contents(buffers[i..]) == Contents(buffers)
    {
      Suffix(buffers, i);
      ConcatSnoc(slices, buffers[i].Bytes());
      assert Concat(slices) + (buffers[i].Bytes() + Contents(buffers[i + 1..]))
          == (Concat(slices) + buffers[i].Bytes()) + Contents(buffers[i + 1..]);
      slices := slices + [buffers[i].Bytes()];
      i := i + 1;
    }
    Suffix(buffers, i);
  }

  lemma ConcatNothing()
    ensures Concat([]) == []
  {
  }

  /** A packet that is sent is the contents of all buffers; sent or not, all of them are released. */
  method TunWriteVectorised(allocator: Allocator, buffers: seq<Buffer>, closed: bool, allocation: Allocation)
    returns (r: WriteResult)
    requires Owned(allocator, buffers)
    modifies allocator, buffers
    ensures r.Sent? <==> !closed && allocation == Allocated
    ensures r.Sent? ==> r.packet == old(Contents(buffers))
    ensures allocator.Valid() && AllValid(buffers)
    ensures forall b :: b in buffers ==> (b.managed <==> old(b.managed && b.refs > 0))
    ensures allocator.Pooled() == old(allocator.Pooled()) + old(GivenUp(buffers))
  {
    hide Concat;
    assert forall a :: a in Arrays(buffers) ==> allocated(a);
    var slices := ToSliceMulti(buffers);
    assert Concat(slices) == old(Contents(buffers));
    var _, result := Write(slices, closed, allocation);
    r := result;
    ReleaseMulti(allocator, buffers);
  }
}
