/** Machine integers and bit operations, written on mathematical integers.
    A .NET `uint` or `ulong` is a `nat` below 2^32 or 2^64; `x >> k` is `x / Pow2(k)`,
    `x & (2^k - 1)` is `x % Pow2(k)`, and a truncating `x << k` is `x * Pow2(k) % 2^n`.
    Bitwise or, whose operands may share bits, is the recursive `Or` below. */
module Bits {

  type byte = x: int | 0 <= x < 0x100
  type uint16 = x: int | 0 <= x < 0x1_0000
  type uint32 = x: int | 0 <= x < 0x1_0000_0000
  type uint64 = x: int | 0 <= x < 0x1_0000_0000_0000_0000
  type int8 = x: int | -0x80 <= x < 0x80
  type int16 = x: int | -0x8000 <= x < 0x8000
  type int32 = x: int | -0x8000_0000 <= x < 0x8000_0000
  type int64 = x: int | -0x8000_0000_0000_0000 <= x < 0x8000_0000_0000_0000

  const TWO32: nat := 0x1_0000_0000
  const TWO64: nat := 0x1_0000_0000_0000_0000

  /** Array.MaxLength: `new T[n]` for a larger n throws OutOfMemoryException, however much
      memory there is. */
  const MaxArrayLength: nat := 0x7FFF_FFC7

  /** n is representable as a signed two's-complement integer of the given width. */
  predicate SignedFits(n: int, width: nat)
  {
    width >= 1 && -(Pow2(width - 1) as int) <= n < Pow2(width - 1)
  }

  function Pow2(k: nat): (r: nat)
    ensures r >= 1
  {
    if k == 0 then 1 else 2 * Pow2(k - 1)
  }

  lemma {:induction false} Pow2Add(a: nat, b: nat)
    ensures Pow2(a + b) == Pow2(a) * Pow2(b)
  {
    if a > 0 {
      Pow2Add(a - 1, b);
    }
  }

  lemma {:induction false} Pow2Monotone(a: nat, b: nat)
    requires a <= b
    ensures Pow2(a) <= Pow2(b)
    ensures a < b ==> 2 * Pow2(a) <= Pow2(b)
  {
    if a < b {
      Pow2Monotone(a, b - 1);
    }
  }

  lemma Pow2Byte()
    ensures Pow2(7) == 0x80 && Pow2(8) == 0x100
  {
  }

  lemma Pow2Words()
    ensures Pow2(15) == 0x8000 && Pow2(16) == 0x1_0000
    ensures Pow2(31) == 0x8000_0000 && Pow2(32) == TWO32
    ensures Pow2(63) == 0x8000_0000_0000_0000 && Pow2(64) == TWO64
  {
    Pow2Half();
    Pow2Word();
    Pow2Long();
  }

  lemma Pow2Half()
    ensures Pow2(15) == 0x8000 && Pow2(16) == 0x1_0000
  {
    Pow2Byte();
    Pow2Add(8, 7);
    Pow2Add(8, 8);
  }

  lemma Pow2Word()
    ensures Pow2(31) == 0x8000_0000 && Pow2(32) == TWO32
  {
    Pow2Half();
    Pow2Add(16, 15);
    Pow2Add(16, 16);
  }

  lemma Pow2Long()
    ensures Pow2(63) == 0x8000_0000_0000_0000 && Pow2(64) == TWO64
  {
    Pow2Word();
    Pow2Add(32, 31);
    Pow2Add(32, 32);
  }

  lemma MulGe(a: int, d: int)
    requires a >= 1 && d > 0
    ensures a * d >= d
  {
    if a > 1 {
      MulGe(a - 1, d);
      assert a * d == (a - 1) * d + d;
    }
  }

  /** Division and remainder are determined by any decomposition x == q * d + r with 0 <= r < d. */
  lemma DivModUnique(x: int, d: int, q: int, r: int)
    requires d > 0 && x == q * d + r && 0 <= r < d
    ensures x / d == q && x % d == r
  {
    var q', r' := x / d, x % d;
    assert x == q' * d + r';
    if q > q' {
      MulGe(q - q', d);
    } else if q < q' {
      MulGe(q' - q, d);
    }
  }

  lemma DivAtMost(x: nat, d: nat)
    requires d >= 1
    ensures 0 <= x / d <= x
  {
    var q := x / d;
    assert x == q * d + x % d;
    if q >= 1 {
      MulGe(q, d);
      MulLe(1, d, q);
    }
  }

  lemma DivPow2Step(x: nat, k: nat)
    ensures x / Pow2(k + 1) == (x / 2) / Pow2(k)
    ensures x % Pow2(k + 1) == 2 * ((x / 2) % Pow2(k)) + x % 2
  {
    var p := Pow2(k);
    var q := (x / 2) / p;
    var r := (x / 2) % p;
    assert x / 2 == q * p + r;
    assert x == q * (2 * p) + (2 * r + x % 2);
    DivModUnique(x, 2 * p, q, 2 * r + x % 2);
  }

  lemma {:induction false} DivPow2Add(x: nat, a: nat, b: nat)
    ensures x / Pow2(a + b) == (x / Pow2(a)) / Pow2(b)
  {
    if a > 0 {
      calc {
        x / Pow2(a + b);
        { DivPow2Step(x, a - 1 + b); }
        (x / 2) / Pow2(a - 1 + b);
        { DivPow2Add(x / 2, a - 1, b); }
        ((x / 2) / Pow2(a - 1)) / Pow2(b);
        { DivPow2Step(x, a - 1); }
        (x / Pow2(a)) / Pow2(b);
      }
    }
  }

  /** `x << k` on an unbounded integer, doubling k times. */
  function Shl(x: nat, k: nat): nat
  {
    if k == 0 then x else 2 * Shl(x, k - 1)
  }

  lemma {:induction false} ShlIsMul(x: nat, k: nat)
    ensures Shl(x, k) == x * Pow2(k)
  {
    if k > 0 {
      ShlIsMul(x, k - 1);
      Twice(x, Pow2(k - 1));
    }
  }

  lemma Twice(x: nat, p: nat)
    ensures 2 * (x * p) == x * (2 * p)
  {
  }

  /** The low k bits of x, `x & (2^k - 1)`, one bit at a time. */
  function Low(x: nat, k: nat): nat
  {
    if k == 0 then 0 else 2 * Low(x / 2, k - 1) + x % 2
  }

  lemma {:induction false} LowIsMod(x: nat, k: nat)
    ensures Low(x, k) == x % Pow2(k)
  {
    if k > 0 {
      LowIsMod(x / 2, k - 1);
      DivPow2Step(x, k - 1);
    } else {
      DivModUnique(x, 1, x, 0);
    }
  }

  lemma {:induction false} Shl7(x: nat, k: nat)
    ensures Shl(x, k + 7) == 0x80 * Shl(x, k)
  {
    if k == 0 {
      assert Shl(x, 1) == 2 * x;
      assert Shl(x, 2) == 4 * x;
      assert Shl(x, 3) == 8 * x;
      assert Shl(x, 4) == 16 * x;
      assert Shl(x, 5) == 32 * x;
      assert Shl(x, 6) == 64 * x;
    } else {
      Shl7(x, k - 1);
    }
  }

  /** Below 2^a, shifted by j, plus anything below 2^j: below 2^(j + a). */
  lemma {:induction false} ShlBound(lo: nat, h: nat, j: nat, a: nat)
    requires lo < Pow2(j) && h < Pow2(a)
    ensures lo + Shl(h, j) < Pow2(j + a)
  {
    if j > 0 {
      ShlBound(lo / 2, h, j - 1, a);
    }
  }

  lemma {:induction false} LowBelow(x: nat, k: nat)
    ensures Low(x, k) < Pow2(k)
    ensures x < Pow2(k) ==> Low(x, k) == x
  {
    if k > 0 {
      LowBelow(x / 2, k - 1);
    }
  }

  /** A truncating left shift by k into an n-bit register keeps the low n - k bits. */
  lemma {:induction false} LowShl(x: nat, k: nat, n: nat)
    requires k <= n
    ensures Low(Shl(x, k), n) == Shl(Low(x, n - k), k)
  {
    if k > 0 {
      LowShl(x, k - 1, n - 1);
    }
  }

  /** Truncating `lo + (y << off)`, where lo lies below bit off, truncates only y. */
  lemma {:induction false} LowAdd(lo: nat, y: nat, off: nat, n: nat)
    requires lo < Pow2(off) && off <= n
    ensures Low(lo + Shl(y, off), n) == lo + Shl(Low(y, n - off), off)
  {
    if off > 0 {
      LowAdd(lo / 2, y, off - 1, n - 1);
      HalveSum(lo, Shl(y, off - 1));
      HalveSum(lo, Shl(Low(y, n - off), off - 1));
    }
  }

  /** Halving lo + 2s splits into halving lo and s. */
  lemma HalveSum(lo: nat, s: nat)
    ensures (lo + 2 * s) / 2 == lo / 2 + s && (lo + 2 * s) % 2 == lo % 2
  {
    DivModUnique(lo + 2 * s, 2, lo / 2 + s, lo % 2);
  }

  /** Bitwise or of two non-negative integers. */
  function Or(a: nat, b: nat): nat
    decreases a + b
  {
    if a == 0 && b == 0 then 0
    else 2 * Or(a / 2, b / 2) + (if a % 2 == 1 || b % 2 == 1 then 1 else 0)
  }

  lemma OrHalf(a: nat, b: nat)
    ensures Or(a, b) == 2 * Or(a / 2, b / 2) + (if a % 2 == 1 || b % 2 == 1 then 1 else 0)
    ensures Or(a, b) / 2 == Or(a / 2, b / 2)
    ensures Or(a, b) % 2 == (if a % 2 == 1 || b % 2 == 1 then 1 else 0)
  {
  }

  lemma {:induction false} OrZero(a: nat)
    ensures Or(a, 0) == a && Or(0, a) == a
    decreases a
  {
    if a != 0 {
      OrZero(a / 2);
    }
  }

  lemma {:induction false} OrComm(a: nat, b: nat)
    ensures Or(a, b) == Or(b, a)
    decreases a + b
  {
    if a != 0 || b != 0 {
      OrComm(a / 2, b / 2);
    }
  }

  lemma {:induction false} OrBelow(a: nat, b: nat, k: nat)
    requires a < Pow2(k) && b < Pow2(k)
    ensures Or(a, b) < Pow2(k)
  {
    if k > 0 && (a != 0 || b != 0) {
      OrBelow(a / 2, b / 2, k - 1);
    }
  }

  lemma {:induction false} OrAtLeast(a: nat, b: nat)
    ensures a <= Or(a, b) && b <= Or(a, b)
    decreases a + b
  {
    if a != 0 || b != 0 {
      OrAtLeast(a / 2, b / 2);
    }
  }


  lemma Distribute(q: int, m: int, r: int, c: int)
    ensures (q * m + r) * c == q * (m * c) + r * c
  {
  }

  lemma MulLe(a: int, b: int, c: nat)
    requires a <= b
    ensures a * c <= b * c
  {
  }

  /** A truncating left shift by k into an n-bit register keeps the low n - k bits of p. */
  lemma ShiftLeftTruncates(p: nat, k: nat, n: nat)
    requires k <= n
    ensures (p * Pow2(k)) % Pow2(n) == (p % Pow2(n - k)) * Pow2(k)
  {
    var m := Pow2(n - k);
    var c := Pow2(k);
    var q, r := p / m, p % m;
    assert Pow2(n) == m * c by {
      Pow2Add(n - k, k);
    }
    assert p * c == q * (m * c) + r * c by {
      assert p == q * m + r;
      Distribute(q, m, r, c);
    }
    assert r * c < m * c by {
      MulLe(r, m - 1, c);
      Distribute(1, m, -1, c);
    }
    DivModUnique(p * c, m * c, q, r * c);
  }

  /** `x | y` where the set bits of y all lie below position j and x is a multiple of 2^j. */
  lemma {:induction false} OrDisjoint(h: nat, lo: nat, j: nat)
    requires lo < Pow2(j)
    ensures Or(h * Pow2(j), lo) == h * Pow2(j) + lo
  {
    if j == 0 {
      OrZero(h);
    } else {
      var x := h * Pow2(j);
      assert x == 2 * (h * Pow2(j - 1));
      OrDisjoint(h, lo / 2, j - 1);
      OrHalf(x, lo);
    }
  }

  /** `(h << j) | lo` with lo below bit j is a sum. */
  lemma {:induction false} OrShl(h: nat, lo: nat, j: nat)
    requires lo < Pow2(j)
    ensures Or(Shl(h, j), lo) == Shl(h, j) + lo
  {
    if j == 0 {
      OrZero(h);
    } else {
      OrShl(h, lo / 2, j - 1);
      OrHalf(Shl(h, j), lo);
    }
  }

  /** The low k + 1 bits of `v | 2^k`: bit k set, the bits below it those of v. */
  lemma {:induction false} OrHighBit(v: nat, k: nat)
    ensures Or(v, Pow2(k)) % Pow2(k + 1) == v % Pow2(k) + Pow2(k)
  {
    OrHalf(v, Pow2(k));
    DivPow2Step(Or(v, Pow2(k)), k);
    if k > 0 {
      OrHighBit(v / 2, k - 1);
      DivPow2Step(v, k - 1);
    }
  }

  /** Bit i of x. */
  function Bit(x: nat, i: nat): nat
  {
    (x / Pow2(i)) % 2
  }

  lemma BitStep(x: nat, i: nat)
    ensures Bit(x, 0) == x % 2
    ensures Bit(x, i + 1) == Bit(x / 2, i)
  {
    DivPow2Step(x, i);
  }

  lemma {:induction false} BitOfOr(a: nat, b: nat, i: nat)
    ensures Bit(Or(a, b), i) == if Bit(a, i) == 1 || Bit(b, i) == 1 then 1 else 0
  {
    OrHalf(a, b);
    BitStep(Or(a, b), 0);
    BitStep(a, 0);
    BitStep(b, 0);
    if i > 0 {
      BitOfOr(a / 2, b / 2, i - 1);
      BitStep(Or(a, b), i - 1);
      BitStep(a, i - 1);
      BitStep(b, i - 1);
    }
  }

  lemma BitOfShift(x: nat, s: nat, i: nat, y: nat)
    requires y == x / Pow2(s)
    ensures Bit(y, i) == Bit(x, s + i)
  {
    DivPow2Add(x, s, i);
  }

  lemma BitAbove(x: nat, L: nat, i: nat)
    requires x < Pow2(L) && L <= i
    ensures Bit(x, i) == 0
  {
    Pow2Monotone(L, i);
    DivModUnique(x, Pow2(i), 0, x);
  }

  /** A number below 2^L whose L low bits are all set is 2^L - 1. */
  lemma {:induction false} AllOnes(x: nat, L: nat)
    requires x < Pow2(L)
    requires forall i :: 0 <= i < L ==> Bit(x, i) == 1
    ensures x == Pow2(L) - 1
  {
    if L > 0 {
      forall i | 0 <= i < L - 1
        ensures Bit(x / 2, i) == 1
      {
        BitStep(x, i);
      }
      AllOnes(x / 2, L - 1);
      BitStep(x, 0);
    }
  }

  /** The number of significant bits of x. */
  function BitLength(x: nat): nat
  {
    if x == 0 then 0 else 1 + BitLength(x / 2)
  }

  lemma {:induction false} BitLengthBounds(x: nat)
    ensures x < Pow2(BitLength(x))
    ensures x > 0 ==> Pow2(BitLength(x) - 1) <= x
  {
    if x > 0 {
      BitLengthBounds(x / 2);
    }
  }

  lemma {:induction false} BitLengthBelow(x: nat, k: nat)
    requires x < Pow2(k)
    ensures BitLength(x) <= k
  {
    if x > 0 {
      BitLengthBelow(x / 2, k - 1);
    }
  }

  lemma {:induction false} TopBit(x: nat)
    requires x > 0
    ensures Bit(x, BitLength(x) - 1) == 1
  {
    var h := x / 2;
    if h == 0 {
      assert BitLength(x) == 1;
      BitStep(x, 0);
    } else {
      var j := BitLength(h) - 1;
      assert BitLength(x) - 1 == j + 1;
      TopBit(h);
      BitStep(x, j);
    }
  }

  /** One smearing step `x |= x >> s`. */
  function SmearShift(x: nat, s: nat): nat
  {
    DivAtMost(x, Pow2(s));
    Or(x, x / Pow2(s))
  }

  lemma SmearZero(s: nat)
    ensures SmearShift(0, s) == 0
  {
    assert 0 / Pow2(s) == 0;
  }

  /** x lies below 2^L and its top m bits (of L) are set. */
  ghost predicate OnesFrom(x: nat, L: nat, m: nat)
  {
    x < Pow2(L) && m <= L && forall i :: L - m <= i < L ==> Bit(x, i) == 1
  }

  lemma SmearStep(x: nat, L: nat, m: nat, s: nat)
    requires OnesFrom(x, L, m)
    requires s <= m || m == L
    ensures OnesFrom(SmearShift(x, s), L, if m + s <= L then m + s else L)
  {
    var y := x / Pow2(s);
    var m' := if m + s <= L then m + s else L;
    DivAtMost(x, Pow2(s));
    OrBelow(x, y, L);
    forall i | L - m' <= i < L
      ensures Bit(SmearShift(x, s), i) == 1
    {
      BitOfOr(x, y, i);
      if i < L - m {
        BitOfShift(x, s, i, y);
      }
    }
  }

  /** The five smearing steps `v |= v >> 1; v |= v >> 2; ... v |= v >> 16` of a 32-bit
      next-power-of-two computation. */
  function Smear32(x: nat): nat
  {
    SmearShift(SmearShift(SmearShift(SmearShift(SmearShift(x, 1), 2), 4), 8), 16)
  }

  /** Smearing sets every bit below the highest set bit. */
  lemma Smear32Fills(x: nat)
    requires x < Pow2(32)
    ensures Smear32(x) == Pow2(BitLength(x)) - 1
  {
    if x == 0 {
      SmearZero(1);
      SmearZero(2);
      SmearZero(4);
      SmearZero(8);
      SmearZero(16);
    } else {
      var L := BitLength(x);
      assert 1 <= L <= 32 by {
        BitLengthBelow(x, 32);
      }
      assert OnesFrom(x, L, 1) by {
        BitLengthBounds(x);
        TopBit(x);
      }
      SmearChain(x, L);
    }
  }

  lemma SmearChain(x: nat, L: nat)
    requires 1 <= L <= 32 && OnesFrom(x, L, 1)
    ensures Smear32(x) == Pow2(L) - 1
  {
    var x1 := SmearShift(x, 1);
    SmearStep(x, L, 1, 1);
    var x2 := SmearShift(x1, 2);
    SmearStep(x1, L, if 2 <= L then 2 else L, 2);
    var x4 := SmearShift(x2, 4);
    SmearStep(x2, L, if 4 <= L then 4 else L, 4);
    var x8 := SmearShift(x4, 8);
    SmearStep(x4, L, if 8 <= L then 8 else L, 8);
    var x16 := SmearShift(x8, 16);
    SmearStep(x8, L, if 16 <= L then 16 else L, 16);
    assert OnesFrom(x16, L, L);
    AllOnes(x16, L);
  }
}
