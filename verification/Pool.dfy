/** The size classes of the buffer pool: arrays of 64, 128, ... 65536 bytes, one free list for each. */
module Pool {
  import opened Bits

  const CLASSES: nat := 11
  const SMALLEST_BITS: nat := 6
  const LARGEST: nat := 65536

  /** bits.Len32 */
  function BitLength(x: nat): (n: nat)
    ensures x < Pow2(n)
    ensures x > 0 ==> n > 0 && Pow2(n - 1) <= x
  {
    if x == 0 then 0 else 1 + BitLength(x / 2)
  }

  /** Position of the most significant bit as a 16-bit number; zero has none and wraps around. */
  function Msb(size: nat): nat {
    (BitLength(size % U32) + 65535) % 65536
  }

  lemma {:induction false} BitLengthBound(x: nat, n: nat)
    requires x < Pow2(n)
    ensures BitLength(x) <= n
  {
    if x > 0 {
      if n > 0 {
        BitLengthBound(x / 2, n - 1);
      }
    }
  }

  lemma {:induction false} Pow2Monotone(a: nat, b: nat)
    ensures a <= b <==> Pow2(a) <= Pow2(b)
  {
    if a > 0 && b > 0 {
      Pow2Monotone(a - 1, b - 1);
    }
  }

  /** The free list that Get looks in; none for a size it does not serve. */
  datatype Class = Class(index: nat) | NoClass

  function GetClass(size: int): Class {
    if size <= 0 || size > LARGEST then NoClass
    else if size <= 64 then Class(0)
    else
      var m := Msb(size);
      var index := if size != Pow2(m) then m + 1 else m;
      if index >= SMALLEST_BITS then Class(index - SMALLEST_BITS) else NoClass
  }

  function ClassSize(index: nat): nat {
    Pow2(index + SMALLEST_BITS)
  }

  /** The sizes of the eleven lists. */
  lemma ClassSizes()
    ensures CLASSES == 11
    ensures ClassSize(0) == 64 && ClassSize(1) == 128 && ClassSize(2) == 256 && ClassSize(3) == 512
    ensures ClassSize(4) == 1024 && ClassSize(5) == 2048 && ClassSize(6) == 4096 && ClassSize(7) == 8192
    ensures ClassSize(8) == 16384 && ClassSize(9) == 32768 && ClassSize(10) == 65536
  {
    hide Pow2;
    Pow2Values();
    Pow2Add(6, 1);
    Pow2Add(8, 1);
    Pow2Add(12, 1);
    Pow2Add(12, 2);
    Pow2Add(12, 3);
  }

  datatype PutOutcome = Stored(index: nat) | IncorrectSize | InvalidPoolIndex

  /** What Put makes of an array of this capacity. The subtraction is one of 16-bit numbers. */
  function PutClass(capacity: nat): PutOutcome {
    var bits := Msb(capacity);
    if capacity == 0 || capacity > LARGEST || capacity != Pow2(bits) then IncorrectSize
    else
      var index := (bits + 65536 - SMALLEST_BITS) % 65536;
      if index < CLASSES then Stored(index) else InvalidPoolIndex
  }

  lemma MsbIs(size: nat, n: nat)
    requires 0 < size < Pow2(n) && n <= 32
    ensures Pow2(Msb(size)) <= size < Pow2(Msb(size) + 1) && Msb(size) < n
  {
    hide Pow2, BitLength;
    Below32(size, n);
    BitLengthBound(size, n);
    MsbIsBelowLength(size, BitLength(size));
  }

  lemma MsbIsBelowLength(size: nat, b: nat)
    requires 0 < size < U32 && b == BitLength(size) && b <= 32
    ensures b > 0 && Msb(size) == b - 1 && Pow2(b - 1) <= size < Pow2(b)
  {
    hide Pow2;
    assert size % U32 == size;
    assert (b + 65535) % 65536 == b - 1;
  }

  lemma Below32(x: nat, n: nat)
    requires x < Pow2(n) && n <= 32
    ensures x < U32
  {
    hide Pow2;
    Pow2Values();
    Pow2Monotone(n, 32);
  }

  lemma MsbOfPow2(k: nat)
    requires k < 32
    ensures Msb(Pow2(k)) == k
  {
    hide Msb;
    var m := Msb(Pow2(k));
    Pow2Monotone(k + 1, k);
    MsbIs(Pow2(k), k + 1);
    Pow2Monotone(k, m + 1);
    Pow2Monotone(m + 1, k);
  }

  /** Get serves exactly the sizes from 1 to 65536, each from the smallest class that holds it; above 64
      bytes less than half of the array goes unused. */
  lemma GetIsBestFit(size: int)
    ensures GetClass(size) == NoClass <==> size <= 0 || size > LARGEST
    ensures GetClass(size).Class? ==>
              var k := GetClass(size).index;
              && k < CLASSES
              && size <= ClassSize(k)
              && (forall j: nat :: size <= ClassSize(j) ==> k <= j)
              && (size > 64 ==> ClassSize(k) < 2 * size)
  {
    hide Pow2, Msb;
    Pow2Values();
    if 0 < size <= 64 {
    } else if 64 < size <= LARGEST {
      var m := Msb(size);
      Pow2Monotone(17, 16);
      MsbIs(size, 17);
      DoublesEachTime(m);
      Pow2Monotone(m + 1, SMALLEST_BITS);
      Pow2Monotone(17, m);
      Pow2Monotone(m + 1, 17);
      var k := GetClass(size).index;
      forall j: nat | size <= ClassSize(j)
        ensures k <= j
      {
        Pow2Monotone(j + SMALLEST_BITS, m);
        Pow2Monotone(m, j + SMALLEST_BITS);
      }
    }
  }

  /** The promise that at most half of an array goes unused holds for exactly the sizes from 32 on: up to
      64 bytes the array has 64. */
  lemma HalfWastedAtMost(size: int)
    requires 0 < size <= LARGEST
    ensures GetClass(size).Class?
    ensures ClassSize(GetClass(size).index) <= 2 * size <==> size >= 32
  {
    hide Pow2, Msb;
    Pow2Values();
    GetIsBestFit(size);
  }

  lemma DoublesEachTime(m: nat)
    ensures Pow2(m + 1) == 2 * Pow2(m)
  {
  }

  /** Put files an array under its size exactly when that is one of the eleven sizes of the pool; smaller
      powers of two find no free list, and anything else is turned away. */
  lemma PutExact(capacity: nat)
    ensures forall k: nat :: PutClass(capacity) == Stored(k) <==> k < CLASSES && capacity == ClassSize(k)
    ensures PutClass(capacity) == InvalidPoolIndex <==> exists k: nat :: k < SMALLEST_BITS && capacity == Pow2(k)
  {
    hide Pow2, Msb;
    Pow2Values();
    forall k: nat | k < CLASSES && capacity == ClassSize(k)
      ensures PutClass(capacity) == Stored(k)
    {
      PutOfPow2(capacity, k + SMALLEST_BITS);
    }
    forall k: nat | k < SMALLEST_BITS && capacity == Pow2(k)
      ensures PutClass(capacity) == InvalidPoolIndex
    {
      PutOfPow2(capacity, k);
    }
    if 0 < capacity <= LARGEST && capacity == Pow2(Msb(capacity)) {
      Pow2Monotone(Msb(capacity), 16);
      PutOfPow2(capacity, Msb(capacity));
    }
  }

  lemma PutOfPow2(capacity: nat, k: nat)
    requires k <= 16 && capacity == Pow2(k)
    ensures Msb(capacity) == k
    ensures PutClass(capacity) == if k < SMALLEST_BITS then InvalidPoolIndex else Stored(k - SMALLEST_BITS)
  {
    hide Pow2, Msb;
    Pow2Values();
    Pow2Monotone(k, 16);
    MsbOfPow2(k);
  }

  /** Put returns an array to the free list that Get took it from. */
  lemma PutUndoesGet(size: int)
    requires 0 < size <= LARGEST
    ensures GetClass(size).Class?
    ensures PutClass(ClassSize(GetClass(size).index)) == Stored(GetClass(size).index)
  {
    hide GetClass, PutClass, ClassSize;
    GetIsBestFit(size);
    PutExact(ClassSize(GetClass(size).index));
  }

  /** Different free lists have arrays of different sizes. */
  lemma SameClass(j: nat, k: nat)
    ensures ClassSize(j) == ClassSize(k) ==> j == k
  {
    Pow2Monotone(j + SMALLEST_BITS, k + SMALLEST_BITS);
    Pow2Monotone(k + SMALLEST_BITS, j + SMALLEST_BITS);
  }
}
