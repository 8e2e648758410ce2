/** Bitwise operations on non-negative integers, defined one bit at a time, and the arithmetic
    meaning of the masks the loader uses. */
module Bits {

  type u16 = x: nat | x < 0x1_0000
  type u32 = x: nat | x < 0x1_0000_0000
  type u64 = x: nat | x < 0x1_0000_0000_0000_0000

  const U32: nat := 0x1_0000_0000
  const U64: nat := 0x1_0000_0000_0000_0000

  function Bit(x: nat): nat {
    x % 2
  }

  function And(x: nat, y: nat): nat {
    if x == 0 || y == 0 then 0
    else (if Bit(x) == 1 && Bit(y) == 1 then 1 else 0) + 2 * And(x / 2, y / 2)
  }

  function Or(x: nat, y: nat): nat {
    if x == 0 then y
    else if y == 0 then x
    else (if Bit(x) == 1 || Bit(y) == 1 then 1 else 0) + 2 * Or(x / 2, y / 2)
  }

  function Pow2(n: nat): (p: nat)
    ensures p >= 1
  {
    if n == 0 then 1 else 2 * Pow2(n - 1)
  }

  /** y moved up by n bits. */
  function Shl(y: nat, n: nat): nat {
    if n == 0 then y else 2 * Shl(y, n - 1)
  }

  /** x without its n low bits. */
  function Shr(x: nat, n: nat): nat {
    if n == 0 then x else Shr(x / 2, n - 1)
  }

  /** The n low bits of x. */
  function Low(x: nat, n: nat): nat {
    if n == 0 then 0 else Bit(x) + 2 * Low(x / 2, n - 1)
  }

  lemma {:induction false} ShlIsProduct(y: nat, n: nat)
    ensures Shl(y, n) == y * Pow2(n)
  {
    if n > 0 {
      ShlIsProduct(y, n - 1);
      assert 2 * (y * Pow2(n - 1)) == y * (2 * Pow2(n - 1));
    }
  }

  lemma {:induction false} LowShrRebuild(x: nat, n: nat)
    ensures x == Low(x, n) + Shl(Shr(x, n), n)
    ensures Low(x, n) < Pow2(n)
  {
    if n > 0 {
      LowShrRebuild(x / 2, n - 1);
    }
  }

  lemma DifferOnlyByLess(a: int, b: int, d: int)
    requires d > 0 && -d < (a - b) * d < d
    ensures a == b
  {
    assert a - b >= 1 ==> (a - b) * d >= d;
    assert b - a >= 1 ==> (b - a) * d >= d;
    assert (a - b) * d == -((b - a) * d);
  }

  lemma QuotientAndRemainder(x: int, d: nat, q: int, r: int)
    requires d > 0 && x == q * d + r && 0 <= r < d
    ensures x / d == q && x % d == r
  {
    var q', r' := DivMod(x, d);
    SameDivision(x, d, q, r, q', r');
  }

  lemma SameDivision(x: int, d: nat, q: int, r: int, q': int, r': int)
    requires d > 0 && x == q * d + r && 0 <= r < d && x == q' * d + r' && 0 <= r' < d
    ensures q == q' && r == r'
  {
    assert (q' - q) * d == r - r';
    DifferOnlyByLess(q', q, d);
  }

  lemma DivMod(x: int, d: nat) returns (q: int, r: int)
    requires d > 0
    ensures q == x / d && r == x % d && x == q * d + r && 0 <= r < d
    ensures x >= 0 ==> q >= 0
  {
    q, r := x / d, x % d;
  }

  lemma Regroup(x: nat, a: nat, n: nat, m: nat, q: nat, r: nat, t: nat, u: nat)
    requires m == a * n && x == q * m + r && r == t * a + u
    ensures x == (q * n + t) * a + u
  {
    assert (q * n + t) * a == q * (a * n) + t * a;
  }

  lemma Positive(a: nat, n: nat)
    requires a > 0 && n > 0
    ensures a * n > 0
  {
  }

  /** Dividing twice, seen from the two remainders. */
  lemma TwoDivisions(x: nat, a: nat, n: nat, m: nat, q: nat, r: nat, t: nat, u: nat)
    requires a > 0 && n > 0 && m == a * n && x == q * m + r && r < m && r == t * a + u && u < a
    ensures m > 0 && x % m == r && r / a == t && r % a == u && x / a % n == t && x % a == u
  {
    Positive(a, n);
    QuotientAndRemainder(x, m, q, r);
    QuotientAndRemainder(r, a, t, u);
    Regroup(x, a, n, m, q, r, t, u);
    QuotientAndRemainder(x, a, q * n + t, u);
    Below(r, a, n, t, u);
    QuotientAndRemainder(q * n + t, n, q, t);
  }

  lemma Below(r: nat, a: nat, n: nat, t: nat, u: nat)
    requires r < a * n && r == t * a + u
    ensures t < n
  {
    assert t >= n ==> t * a >= n * a;
  }

  lemma DivideUnderMod(x: nat, a: nat, n: nat)
    requires a > 0 && n > 0
    ensures a * n > 0
    ensures x % (a * n) / a == x / a % n
  {
    Positive(a, n);
    var q, r := DivMod(x, a * n);
    var t, u := DivMod(r, a);
    TwoDivisions(x, a, n, a * n, q, r, t, u);
  }

  lemma ModOfMod(y: nat, b: nat, c: nat)
    requires b > 0 && c > 0
    ensures b * c > 0
    ensures y % (b * c) % b == y % b
  {
    Positive(b, c);
    var q, r := DivMod(y, b * c);
    var v, s := DivMod(r, b);
    TwoDivisions(y, b, c, b * c, q, r, v, s);
  }

  /** A field that lies below the modulus is not affected by it. */
  lemma FieldUnderMod(x: nat, a: nat, b: nat, c: nat)
    requires a > 0 && b > 0 && c > 0
    ensures a * (b * c) > 0
    ensures x % (a * (b * c)) / a % b == x / a % b
  {
    ModOfMod(x / a, b, c);
    DivideUnderMod(x, a, b * c);
  }

  lemma QuotientBelow(x: nat, p: nat, q: nat)
    requires p > 0 && x < p * q
    ensures x / p < q
  {
    var d := x / p;
    assert d * p <= x;
    assert d >= q ==> d * p >= q * p;
  }

  /** Shr and Low are division and remainder by a power of two. */
  lemma ShrLowAreDivMod(x: nat, n: nat)
    ensures Shr(x, n) == x / Pow2(n)
    ensures Low(x, n) == x % Pow2(n)
  {
    LowShrRebuild(x, n);
    ShlIsProduct(Shr(x, n), n);
    QuotientAndRemainder(x, Pow2(n), Shr(x, n), Low(x, n));
  }

  /** A mask made of two disjoint masks selects the two parts separately. */
  lemma {:induction false} AndDisjoint(x: nat, m1: nat, m2: nat)
    requires And(m1, m2) == 0
    ensures And(x, m1 + m2) == And(x, m1) + And(x, m2)
  {
    hide And;
    AndZero(x);
    if m1 > 0 && m2 > 0 {
      AndStep(m1, m2);
      AndDisjoint(x / 2, m1 / 2, m2 / 2);
      HalvesOfSum(m1, m2);
      AndStep(x, m1 + m2);
      AndStep(x, m1);
      AndStep(x, m2);
    }
  }

  lemma AndZero(x: nat)
    ensures And(x, 0) == 0
  {
  }

  lemma HalvesOfSum(m1: nat, m2: nat)
    requires m1 % 2 == 0 || m2 % 2 == 0
    ensures (m1 + m2) / 2 == m1 / 2 + m2 / 2 && (m1 + m2) % 2 == m1 % 2 + m2 % 2
  {
  }

  lemma OrStep(x: nat, y: nat)
    ensures Or(x, y) == (if x % 2 == 1 || y % 2 == 1 then 1 else 0) + 2 * Or(x / 2, y / 2)
  {
  }

  lemma AndStep(x: nat, y: nat)
    ensures And(x, y) == (if x % 2 == 1 && y % 2 == 1 then 1 else 0) + 2 * And(x / 2, y / 2)
  {
  }

  /** Masking with n ones keeps the low n bits. */
  lemma AndLowMask(x: nat, n: nat)
    ensures And(x, Pow2(n) - 1) == x % Pow2(n)
  {
    AndOnes(x, n);
    ShrLowAreDivMod(x, n);
  }

  lemma {:induction false} AndOnes(x: nat, n: nat)
    ensures And(x, Pow2(n) - 1) == Low(x, n)
  {
    if n > 0 {
      AndOnes(x / 2, n - 1);
      AndStep(x, Pow2(n) - 1);
    }
  }

  /** Masking with w ones moved up by lo keeps that field in place. */
  lemma AndField(x: nat, lo: nat, w: nat)
    ensures And(x, Shl(Pow2(w) - 1, lo)) == Shl(x / Pow2(lo) % Pow2(w), lo)
  {
    AndFieldShl(x, lo, Pow2(w) - 1);
    AndLowMask(Shr(x, lo), w);
    ShrLowAreDivMod(x, lo);
  }

  /** The same, for a mask given by its value. */
  lemma MaskedField(x: nat, mask: nat, lo: nat, w: nat)
    requires mask == (Pow2(w) - 1) * Pow2(lo)
    ensures And(x, mask) == x / Pow2(lo) % Pow2(w) * Pow2(lo)
  {
    AndField(x, lo, w);
    ShlIsProduct(Pow2(w) - 1, lo);
    ShlIsProduct(x / Pow2(lo) % Pow2(w), lo);
  }

  /** A mask extended by a field it does not touch selects that field as well. */
  lemma AndMoreField(x: nat, m: nat, mask: nat, lo: nat, w: nat)
    requires mask == (Pow2(w) - 1) * Pow2(lo)
    requires m / Pow2(lo) % Pow2(w) == 0
    ensures And(x, m + mask) == And(x, m) + x / Pow2(lo) % Pow2(w) * Pow2(lo)
  {
    MaskedField(m, mask, lo, w);
    AndDisjoint(x, m, mask);
    MaskedField(x, mask, lo, w);
  }

  lemma {:induction false} AndFieldShl(x: nat, n: nat, k: nat)
    ensures And(x, Shl(k, n)) == Shl(And(Shr(x, n), k), n)
  {
    if n > 0 {
      AndFieldShl(x / 2, n - 1, k);
      AndStep(x, Shl(k, n));
    }
  }

  /** Within w bits, masking with the complement of n low ones clears the low n bits. */
  lemma AndHighMask(x: nat, n: nat, w: nat)
    requires n <= w && x < Pow2(w)
    ensures Pow2(w) >= Pow2(n)
    ensures And(x, Pow2(w) - Pow2(n)) == x - x % Pow2(n)
  {
    AndHighOnes(x, n, w);
    ShrLowAreDivMod(x, n);
  }

  lemma {:induction false} AndHighOnes(x: nat, n: nat, w: nat)
    requires n <= w && x < Pow2(w)
    ensures Pow2(w) >= Pow2(n)
    ensures And(x, Pow2(w) - Pow2(n)) == x - Low(x, n)
  {
    hide And;
    if n == 0 {
      AndOnes(x, w);
      LowIsAll(x, w);
    } else {
      AndHighOnes(x / 2, n - 1, w - 1);
      AndStep(x, Pow2(w) - Pow2(n));
    }
  }

  lemma {:induction false} LowIsAll(x: nat, n: nat)
    requires x < Pow2(n)
    ensures Low(x, n) == x
  {
    if n > 0 {
      LowIsAll(x / 2, n - 1);
    }
  }

  lemma {:induction false} Pow2Add(a: nat, b: nat)
    ensures Pow2(a + b) == Pow2(a) * Pow2(b)
  {
    if a > 0 {
      Pow2Add(a - 1, b);
    }
  }

  /** Or of values that share no bit position is their sum. */
  lemma OrDisjoint(lo: nat, hi: nat, n: nat)
    requires lo < Pow2(n)
    ensures Or(lo, hi * Pow2(n)) == lo + hi * Pow2(n)
  {
    OrDisjointShl(lo, hi, n);
    ShlIsProduct(hi, n);
  }

  lemma {:induction false} OrDisjointShl(lo: nat, hi: nat, n: nat)
    requires lo < Pow2(n)
    ensures Or(lo, Shl(hi, n)) == lo + Shl(hi, n)
  {
    if n > 0 {
      OrDisjointShl(lo / 2, hi, n - 1);
      OrStep(lo, Shl(hi, n));
    }
  }

  lemma Pow2Values()
    ensures Pow2(1) == 2 && Pow2(2) == 4 && Pow2(3) == 8 && Pow2(4) == 16 && Pow2(5) == 32 && Pow2(6) == 64
    ensures Pow2(8) == 0x100 && Pow2(10) == 0x400 && Pow2(11) == 0x800 && Pow2(12) == 0x1000
    ensures Pow2(16) == 0x1_0000 && Pow2(24) == 0x100_0000 && Pow2(28) == 0x1000_0000 && Pow2(31) == 0x8000_0000
    ensures Pow2(32) == U32 && Pow2(64) == U64
  {
    SmallPowers();
    Pow2Add(8, 8);
    Pow2Add(16, 8);
    Pow2Add(24, 4);
    Pow2Add(28, 3);
    Pow2Add(16, 16);
    Pow2Add(32, 32);
  }

  lemma SmallPowers()
    ensures Pow2(1) == 2 && Pow2(2) == 4 && Pow2(3) == 8 && Pow2(4) == 16 && Pow2(5) == 32 && Pow2(6) == 64
    ensures Pow2(8) == 0x100 && Pow2(10) == 0x400 && Pow2(11) == 0x800 && Pow2(12) == 0x1000
  {
    assert Pow2(3) == 2 * Pow2(2);
    assert Pow2(5) == 2 * Pow2(4);
    assert Pow2(7) == 2 * Pow2(6);
    assert Pow2(9) == 2 * Pow2(8);
    assert Pow2(11) == 2 * Pow2(10);
  }

  /** Whether bit k of x is set. */
  predicate HasBit(x: nat, k: nat) {
    Shr(x, k) % 2 == 1
  }

  /** Bit k of a number is bit k - 1 of its half. */
  lemma HasBitHalf(x: nat, half: nat, low: nat, k: nat)
    requires x == low + 2 * half && low < 2
    ensures HasBit(x, k) <==> if k == 0 then low == 1 else HasBit(half, k - 1)
  {
  }

  lemma {:induction false} HasBitAnd(x: nat, y: nat, k: nat)
    ensures HasBit(And(x, y), k) <==> HasBit(x, k) && HasBit(y, k)
  {
    hide And, HasBit;
    AndStep(x, y);
    HasBitHalf(x, x / 2, x % 2, k);
    HasBitHalf(y, y / 2, y % 2, k);
    HasBitHalf(And(x, y), And(x / 2, y / 2), if x % 2 == 1 && y % 2 == 1 then 1 else 0, k);
    if k > 0 {
      HasBitAnd(x / 2, y / 2, k - 1);
    }
  }

  lemma {:induction false} HasBitOr(x: nat, y: nat, k: nat)
    ensures HasBit(Or(x, y), k) <==> HasBit(x, k) || HasBit(y, k)
  {
    hide Or, HasBit;
    OrStep(x, y);
    HasBitHalf(x, x / 2, x % 2, k);
    HasBitHalf(y, y / 2, y % 2, k);
    HasBitHalf(Or(x, y), Or(x / 2, y / 2), if x % 2 == 1 || y % 2 == 1 then 1 else 0, k);
    if k > 0 {
      HasBitOr(x / 2, y / 2, k - 1);
    }
  }

  lemma {:induction false} HasBitComplement(m: nat, n: nat, k: nat)
    requires m < Pow2(n) && k < n
    ensures HasBit(Pow2(n) - 1 - m, k) <==> !HasBit(m, k)
  {
    if k > 0 {
      HasBitComplement(m / 2, n - 1, k - 1);
      assert (Pow2(n) - 1 - m) / 2 == Pow2(n - 1) - 1 - m / 2;
    }
  }

  lemma {:induction false} HasBitPow2(j: nat, k: nat)
    ensures HasBit(Pow2(j), k) <==> j == k
  {
    if j > 0 && k > 0 {
      HasBitPow2(j - 1, k - 1);
    } else if k > 0 {
      NoHighBit(0, k - 1);
    }
  }

  lemma {:induction false} NoHighBit(x: nat, k: nat)
    requires x < Pow2(k)
    ensures Shr(x, k) == 0
  {
    if k > 0 {
      NoHighBit(x / 2, k - 1);
    }
  }

  lemma {:induction false} ShrAdd(x: nat, a: nat, b: nat)
    ensures Shr(x, a + b) == Shr(Shr(x, a), b)
  {
    if a > 0 {
      ShrAdd(x / 2, a - 1, b);
    }
  }

  /** Testing a single-bit mask. */
  lemma AndSingleBit(x: nat, k: nat)
    ensures And(x, Pow2(k)) != 0 <==> HasBit(x, k)
  {
    MaskedField(x, Pow2(k), k, 1);
    ShrLowAreDivMod(x, k);
  }

  lemma {:induction false} AndBelow(x: nat, y: nat)
    ensures And(x, y) <= x && And(x, y) <= y
  {
    if x > 0 && y > 0 {
      AndBelow(x / 2, y / 2);
      AndStep(x, y);
    }
  }

  lemma {:induction false} OrBelow(x: nat, y: nat, n: nat)
    requires x < Pow2(n) && y < Pow2(n)
    ensures Or(x, y) < Pow2(n)
  {
    if n > 0 {
      OrBelow(x / 2, y / 2, n - 1);
      OrStep(x, y);
    }
  }
}
