/** What a buffer is to its users: a queue of bytes with room for so many more. Taking bytes out does
    not make room again. */
module ByteQueue {
  import opened Words

  datatype Queue = Queue(contents: Bytes, room: nat)

  datatype Op =
    | Put(bytes: Bytes)      // Write, WriteByte, WriteZero, WriteString, WriteRune, and what a reader delivers
    | TakeUpTo(n: nat)       // Read, and ReadByte for n == 1
    | TakeExactly(n: nat)    // ReadBytes

  datatype Outcome = Outcome(queue: Queue, accepted: Bytes, taken: Bytes)

  function Min(a: nat, b: nat): (m: nat)
    ensures m <= a && m <= b && (m == a || m == b)
  {
    if a <= b then a else b
  }

  function Do(q: Queue, op: Op): Outcome {
    match op
    case Put(bytes) =>
      var n := Min(|bytes|, q.room);
      Outcome(Queue(q.contents + bytes[..n], q.room - n), bytes[..n], [])
    case TakeUpTo(n) =>
      var m := Min(n, |q.contents|);
      Outcome(q.(contents := q.contents[m..]), [], q.contents[..m])
    case TakeExactly(n) =>
      if n > |q.contents| then Outcome(q, [], [])
      else Outcome(q.(contents := q.contents[n..]), [], q.contents[..n])
  }

  /** Something is left out only if the room is used up, and fewer bytes than asked for come out only if
      nothing is left; an exact number comes out whole or not at all. */
  lemma AsMuchAsPossible(q: Queue, bytes: Bytes, n: nat)
    ensures var put := Do(q, Put(bytes));
            && put.accepted == bytes[..|put.accepted|]
            && (|put.accepted| < |bytes| ==> put.queue.room == 0)
            && put.queue.contents == q.contents + put.accepted && put.taken == []
    ensures var take := Do(q, TakeUpTo(n));
            && |take.taken| <= n && take.taken + take.queue.contents == q.contents
            && (|take.taken| < n ==> take.queue.contents == [])
            && take.queue.room == q.room && take.accepted == []
    ensures var take := Do(q, TakeExactly(n));
            && (|take.taken| == n || take.taken == [])
            && (|take.taken| < n ==> |q.contents| < n) && (n > |q.contents| ==> take.queue == q)
            && take.taken + take.queue.contents == q.contents
  {
  }

  /** A whole run: the bytes that went in and those that came out, each in order. */
  function Run(q: Queue, ops: seq<Op>): Outcome
    decreases |ops|
  {
    if ops == [] then Outcome(q, [], [])
    else
      var first := Do(q, ops[0]);
      var rest := Run(first.queue, ops[1..]);
      Outcome(rest.queue, first.accepted + rest.accepted, first.taken + rest.taken)
  }

  /** First in, first out, over every run: what came out, followed by what is left, is what was there,
      followed by what went in; and no more goes in than there was room for. */
  lemma {:induction false} FirstInFirstOut(q: Queue, ops: seq<Op>)
    ensures var r := Run(q, ops);
            && r.taken + r.queue.contents == q.contents + r.accepted
            && r.queue.room + |r.accepted| == q.room
    decreases |ops|
  {
    hide Do;
    if ops != [] {
      var first := Do(q, ops[0]);
      StepConserves(q, ops[0]);
      FirstInFirstOut(first.queue, ops[1..]);
      var rest := Run(first.queue, ops[1..]);
      Chained(first.taken, rest.taken, rest.queue.contents, first.queue.contents, q.contents, first.accepted,
              rest.accepted);
    }
  }

  lemma Chained(t1: Bytes, t2: Bytes, c2: Bytes, c1: Bytes, c0: Bytes, a1: Bytes, a2: Bytes)
    requires t1 + c1 == c0 + a1 && t2 + c2 == c1 + a2
    ensures (t1 + t2) + c2 == c0 + (a1 + a2)
  {
    assert (t1 + t2) + c2 == t1 + (t2 + c2);
    assert (t1 + c1) + a2 == t1 + (c1 + a2);
    assert (c0 + a1) + a2 == c0 + (a1 + a2);
  }

  lemma StepConserves(q: Queue, op: Op)
    ensures var r := Do(q, op);
            && r.taken + r.queue.contents == q.contents + r.accepted
            && r.queue.room + |r.accepted| == q.room
  {
  }

  // ---------------------------------------------------------------- reading from elsewhere

  datatype Status = More | EndOfFile | Failed

  /** What one call of Read answers: the bytes it has put into the free space, and how it ends. */
  datatype Chunk = Chunk(bytes: Bytes, status: Status)

  datatype ReadResult = ReadResult(bytes: Bytes, short: bool, failed: bool)

  /** The answers of a reader to its k-th call with the given amount of free space. */
  type Reader = (nat, nat) -> Chunk

  ghost predicate FitsRoom(reader: Reader) {
    forall k: nat, room: nat :: |reader(k, room).bytes| <= room
  }

  /** The reader ends by its stops-th call at the latest. */
  ghost predicate StopsBy(reader: Reader, stops: nat) {
    forall room: nat :: reader(stops, room).status != More
  }

  /** Reading until the reader ends or the free space does, from the k-th call on. */
  function ReadAll(reader: Reader, k: nat, room: nat, stops: nat): ReadResult
    decreases stops - k
  {
    if room == 0 then ReadResult([], true, false)
    else
      var c := reader(k, room);
      if c.status != More || k >= stops || |c.bytes| > room then ReadResult(c.bytes, false, c.status == Failed)
      else
        var rest := ReadAll(reader, k + 1, room - |c.bytes|, stops);
        rest.(bytes := c.bytes + rest.bytes)
  }

  /** The free space before the n-th call, if the reader is asked each time with what is left. */
  function RoomBefore(reader: Reader, room: nat, n: nat): nat {
    if n == 0 then room
    else
      var before := RoomBefore(reader, room, n - 1);
      var got := |reader(n - 1, before).bytes|;
      if got <= before then before - got else 0
  }

  /** The first n answers leave the reader open. */
  predicate OpenUntil(reader: Reader, room: nat, n: nat) {
    forall i :: 0 <= i < n ==> reader(i, RoomBefore(reader, room, i)).status == More
  }

  /** The answers fill the space while the reader is still open. */
  ghost predicate FillsWhileOpen(reader: Reader, room: nat) {
    exists n: nat :: RoomBefore(reader, room, n) == 0 && OpenUntil(reader, room, n)
  }

  lemma {:induction false} ShortFrom(reader: Reader, room: nat, k: nat, stops: nat)
    requires FitsRoom(reader) && StopsBy(reader, stops) && k <= stops && OpenUntil(reader, room, k)
    ensures var left := RoomBefore(reader, room, k);
            var r := ReadAll(reader, k, left, stops);
            && |r.bytes| <= left
            && (r.short ==> |r.bytes| == left && !r.failed)
            && (r.short <==> FillsWhileOpen(reader, room))
    decreases stops - k
  {
    var left := RoomBefore(reader, room, k);
    if left == 0 {
      assert RoomBefore(reader, room, k) == 0 && OpenUntil(reader, room, k);
    } else {
      var c := reader(k, left);
      assert |c.bytes| <= left;
      if c.status == More {
        assert RoomBefore(reader, room, k + 1) == left - |c.bytes|;
        ShortFrom(reader, room, k + 1, stops);
      } else {
        NotFilled(reader, room, k);
      }
    }
  }

  /** A reader that closes before the space is full never fills it while open. */
  lemma NotFilled(reader: Reader, room: nat, k: nat)
    requires FitsRoom(reader) && OpenUntil(reader, room, k)
    requires RoomBefore(reader, room, k) > 0 && reader(k, RoomBefore(reader, room, k)).status != More
    ensures !FillsWhileOpen(reader, room)
  {
    forall n: nat | OpenUntil(reader, room, n)
      ensures RoomBefore(reader, room, n) > 0
    {
      assert k < n ==> reader(k, RoomBefore(reader, room, k)).status == More;
      RoomShrinks(reader, room, n, k);
    }
  }

  lemma {:induction false} RoomShrinks(reader: Reader, room: nat, n: nat, k: nat)
    requires n <= k
    ensures RoomBefore(reader, room, k) <= RoomBefore(reader, room, n)
    decreases k
  {
    if n < k {
      RoomShrinks(reader, room, n, k - 1);
    }
  }

  /** Reading stops short exactly when the answers fill the space while the reader is still open; then
      every byte of the space has been filled. */
  lemma ShortExactly(reader: Reader, room: nat, stops: nat)
    requires FitsRoom(reader) && StopsBy(reader, stops)
    ensures var r := ReadAll(reader, 0, room, stops);
            && |r.bytes| <= room
            && (r.short ==> |r.bytes| == room && !r.failed)
            && (r.short <==> FillsWhileOpen(reader, room))
  {
    ShortFrom(reader, room, 0, stops);
  }
}
