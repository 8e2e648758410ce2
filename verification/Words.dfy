/** Little-endian machine words over byte sequences, and byte ranges ("fields") of a memory image.
    The loader works on raw memory; here an image is a sequence of bytes indexed from its base. */
module Words {

  type byte = x: nat | x < 0x100
  type Bytes = seq<byte>

  /** Number of values a word of n bytes has. */
  function Span(n: nat): (m: nat)
    ensures m >= 1
  {
    if n == 0 then 1 else 0x100 * Span(n - 1)
  }

  function Decode(b: Bytes): (v: nat)
    ensures v < Span(|b|)
  {
    if b == [] then 0 else b[0] + 0x100 * Decode(b[1..])
  }

  function Zeros(n: nat): (z: Bytes)
    ensures |z| == n
  {
    seq(n, _ => 0)
  }

  /** The low n bytes of v, least significant first. */
  function Encode(v: nat, n: nat): (b: Bytes)
    ensures |b| == n
  {
    if n == 0 then [] else [v % 0x100] + Encode(v / 0x100, n - 1)
  }

  /** Byte k of a stored word is the k-th from the low end. */
  lemma {:induction false} ByteOfWord(v: nat, n: nat, k: nat)
    requires k < n
    ensures Encode(v, n)[k] == v / Span(k) % 256
  {
    if k > 0 {
      ByteOfWord(v / 256, n - 1, k - 1);
      DivideTwice(v, Span(k - 1));
    }
  }

  lemma DivideTwice(v: nat, m: nat)
    requires m > 0
    ensures v / 256 / m == v / (256 * m)
  {
    var q, r := v / 256 / m, v / 256 % m;
    assert v / 256 == q * m + r;
    assert q * (256 * m) == 256 * (q * m);
    QuotientUnique(v, 256 * m, q, 256 * r + v % 256);
  }

  lemma QuotientUnique(v: nat, d: nat, q: nat, r: nat)
    requires d > 0 && v == q * d + r && r < d
    ensures v / d == q
  {
    RemainderUnique(v, d, q, r);
    var q' := v / d;
    assert (q' - q) * d == 0;
    assert q' - q >= 1 ==> (q' - q) * d >= d;
    assert q - q' >= 1 ==> (q - q') * d >= d;
    assert (q' - q) * d == -((q - q') * d);
  }

  /** Four bytes as a number, the first one lowest. */
  lemma FourBytes(a: byte, b: byte, c: byte, d: byte)
    ensures Decode([a, b, c, d]) == a + 256 * b + 65536 * c + 16777216 * d
  {
    assert [a, b, c, d][1..] == [b, c, d] && [b, c, d][1..] == [c, d] && [c, d][1..] == [d] && [d][1..] == [];
    assert Decode([d]) == d && Decode([c, d]) == c + 256 * d;
  }

  lemma LowByte(b: byte, rest: nat)
    ensures (b + 0x100 * rest) % 0x100 == b && (b + 0x100 * rest) / 0x100 == rest
  {
  }

  lemma {:induction false} EncodeOfDecode(b: Bytes)
    ensures Encode(Decode(b), |b|) == b
  {
    if b != [] {
      EncodeOfDecode(b[1..]);
      LowByte(b[0], Decode(b[1..]));
      assert b == [b[0]] + b[1..];
    }
  }

  /** Storing keeps exactly what fits: the value modulo the width of the word. */
  lemma {:induction false} DecodeOfEncode(v: nat, n: nat)
    ensures Decode(Encode(v, n)) == v % Span(n)
  {
    if n > 0 {
      DecodeOfEncode(v / 0x100, n - 1);
      ModStep(v, Span(n - 1));
    }
  }

  lemma ModStep(v: nat, m: nat)
    requires m > 0
    ensures v % 0x100 + 0x100 * (v / 0x100 % m) == v % (0x100 * m)
  {
    var q, r := v / 0x100 / m, v / 0x100 % m;
    var low := v % 0x100 + 0x100 * r;
    assert q * (0x100 * m) == 0x100 * (q * m);
    assert v == q * (0x100 * m) + low;
    assert low < 0x100 * m;
    RemainderUnique(v, 0x100 * m, q, low);
  }

  lemma RemainderUnique(v: nat, d: nat, q: nat, r: nat)
    requires d > 0 && v == q * d + r && r < d
    ensures v % d == r
  {
    var q' := v / d;
    assert (q' - q) * d == r - v % d;
    assert q' - q >= 1 ==> (q' - q) * d >= d;
    assert q - q' >= 1 ==> (q - q') * d >= d;
    assert (q' - q) * d == -((q - q') * d);
  }

  lemma Spans()
    ensures Span(2) == 0x1_0000 && Span(4) == 0x1_0000_0000 && Span(8) == 0x1_0000_0000_0000_0000
  {
    assert Span(3) == 0x100 * Span(2);
    assert Span(5) == 0x100 * Span(4);
    assert Span(7) == 0x100 * Span(6);
  }

  /** The image with the bytes at `at` replaced by `b`. */
  function Splice(m: Bytes, at: nat, b: Bytes): (r: Bytes)
    requires at + |b| <= |m|
    ensures |r| == |m|
    ensures r[at..at + |b|] == b
    ensures forall k :: 0 <= k < |m| && (k < at || at + |b| <= k) ==> r[k] == m[k]
  {
    m[..at] + b + m[at + |b|..]
  }

  lemma FieldAfterSplice(m: Bytes, at: nat, b: Bytes, o: nat, n: nat)
    requires at + |b| <= |m| && o + n <= |m|
    requires o + n <= at || at + |b| <= o
    ensures Splice(m, at, b)[o..o + n] == m[o..o + n]
  {
    var r := Splice(m, at, b);
    assert forall k :: o <= k < o + n ==> r[k] == m[k];
  }

  lemma SpliceNothing(m: Bytes, at: nat)
    requires at <= |m|
    ensures Splice(m, at, []) == m
  {
  }

  lemma SpliceMore(m: Bytes, at: nat, a: Bytes, b: Bytes)
    requires at + |a| + |b| <= |m|
    ensures Splice(Splice(m, at, a), at + |a|, b) == Splice(m, at, a + b)
  {
  }

  /** Stores `b` into the image, in place. */
  method Poke(image: array<byte>, at: nat, b: Bytes)
    requires at + |b| <= image.Length
    modifies image
    ensures image[..] == Splice(old(image[..]), at, b)
  {
    forall k | 0 <= k < |b| {
      image[at + k] := b[k];
    }
    ghost var r := Splice(old(image[..]), at, b);
    forall k | 0 <= k < image.Length
      ensures image[k] == r[k]
    {
      if at <= k < at + |b| {
        assert r[k] == r[at..at + |b|][k - at];
      }
    }
  }
}
