/**
 * Integer bit utilities of the runtime: the power-of-two test, the bit length
 * of a `size_t` (three implementations: compiler builtin, MSVC bit scan and a
 * portable shift loop) and the rounding of a value up to a power of two.
 *
 * `size_t` is 64 bits wide here; values are `nat`s below `SizeLimit` and the
 * wrap-around of unsigned subtraction is written out with `WrapSize`.
 */
module Bits {

  /** 2^64: one more than the largest `size_t`. */
  const SizeLimit: nat := 0x1_0000_0000_0000_0000

  /** Number of bits in a `size_t`. */
  const SizeBits: nat := 64

  /** The largest exponent for which the `int` shift `1 << e` stays positive. */
  const MaxIntShift: nat := 30

  /** `1 << MaxIntShift`: the largest power of two an `int` shift yields. */
  const MaxIntPow2: nat := 0x4000_0000

  /** Unsigned `size_t` arithmetic: reduce any integer modulo 2^64. */
  function WrapSize(x: int): (r: nat)
    ensures r < SizeLimit
    ensures 0 <= x < SizeLimit ==> r == x
  {
    x % SizeLimit
  }

  function Pow2(k: nat): (r: nat)
    ensures r >= 1
  {
    if k == 0 then 1 else 2 * Pow2(k - 1)
  }

  /** A power of two, defined by repeated halving (no existential needed). */
  predicate IsPowerOfTwo(n: nat)
  {
    n == 1 || (n >= 2 && n % 2 == 0 && IsPowerOfTwo(n / 2))
  }

  /** Bitwise AND of two naturals, bit by bit from the least significant end. */
  function BitAnd(a: nat, b: nat): nat
  {
    if a == 0 || b == 0 then 0 else 2 * BitAnd(a / 2, b / 2) + (a % 2) * (b % 2)
  }

  /** Number of significant bits: 0 for 0, else one more than that of v/2. */
  function BitLength(v: nat): nat
  {
    if v == 0 then 0 else 1 + BitLength(v / 2)
  }

  // ---------------------------------------------------------------------
  // Arithmetic helpers
  // ---------------------------------------------------------------------

  lemma {:induction false} Pow2Monotone(j: nat, k: nat)
    requires j <= k
    ensures Pow2(j) <= Pow2(k)
    decreases k
  {
    if j < k {
      Pow2Monotone(j, k - 1);
    }
  }

  lemma {:induction false} Pow2Add(j: nat, k: nat)
    ensures Pow2(j + k) == Pow2(j) * Pow2(k)
    decreases j
  {
    if j > 0 {
      Pow2Add(j - 1, k);
    }
  }

  lemma {:induction false} Pow2IsPowerOfTwo(k: nat)
    ensures IsPowerOfTwo(Pow2(k))
    decreases k
  {
    if k > 0 {
      Pow2IsPowerOfTwo(k - 1);
      assert Pow2(k) / 2 == Pow2(k - 1);
    }
  }

  /** The exponent of a power of two. */
  function ExactLog(n: nat): (k: nat)
    requires IsPowerOfTwo(n)
    ensures Pow2(k) == n
  {
    if n == 1 then 0 else 1 + ExactLog(n / 2)
  }

  /** A power of two no larger than 2^64 divides 2^64. */
  lemma PowerOfTwoDividesSizeLimit(n: nat)
    requires IsPowerOfTwo(n) && n <= SizeLimit
    ensures SizeLimit % n == 0
  {
    var k := ExactLog(n);
    if k > SizeBits {
      Pow2Monotone(SizeBits + 1, k);
      assert Pow2(SizeBits + 1) == 2 * SizeLimit by { Pow2Constants(); }
      assert false;
    }
    Pow2Add(k, SizeBits - k);
    Pow2Constants();
    assert SizeLimit == n * Pow2(SizeBits - k);
    MulMod(Pow2(SizeBits - k), n);
  }

  /** The powers of two that appear as literals in the sources. */
  lemma Pow2Constants()
    ensures Pow2(MaxIntShift) == MaxIntPow2
    ensures Pow2(63) == 0x8000_0000_0000_0000
    ensures Pow2(SizeBits) == SizeLimit
  {
    assert Pow2(1) == 2;
    assert Pow2(2) == 4 by { Pow2Add(1, 1); }
    assert Pow2(4) == 16 by { Pow2Add(2, 2); }
    assert Pow2(6) == 64 by { Pow2Add(4, 2); }
    assert Pow2(8) == 256 by { Pow2Add(4, 4); }
    assert Pow2(14) == 0x4000 by { Pow2Add(8, 6); }
    assert Pow2(16) == 0x1_0000 by { Pow2Add(8, 8); }
    assert Pow2(30) == 0x4000_0000 by { Pow2Add(16, 14); }
    assert Pow2(31) == 0x8000_0000 by { Pow2Add(30, 1); }
    assert Pow2(32) == 0x1_0000_0000 by { Pow2Add(16, 16); }
    assert Pow2(63) == 0x8000_0000_0000_0000 by { Pow2Add(32, 31); }
    assert Pow2(64) == 0x1_0000_0000_0000_0000 by { Pow2Add(32, 32); }
  }

  /** A power of two strictly below another one fits twice into it. */
  lemma PowerBelowPower(c: nat, m: nat)
    requires IsPowerOfTwo(c) && IsPowerOfTwo(m) && c < m
    ensures 2 * c <= m
  {
    var a, b := ExactLog(c), ExactLog(m);
    if a >= b {
      Pow2Monotone(b, a);
      assert false;
    }
    Pow2Monotone(a + 1, b);
  }

  /** `size_t` wrap of a difference of two `size_t` values. */
  lemma WrapSmall(x: int)
    requires 0 <= x + SizeLimit && x < SizeLimit
    ensures WrapSize(x) == if x >= 0 then x else x + SizeLimit
  {
    if x < 0 {
      ModUnique(x, SizeLimit, -1, x + SizeLimit);
    }
  }

  lemma MulMod(t: nat, n: nat)
    requires n > 0
    ensures (n * t) % n == 0
  {
    ModUnique(n * t, n, t, 0);
  }

  /** Uniqueness of Euclidean division. */
  lemma ModUnique(x: int, c: int, q: int, r: int)
    requires c > 0 && 0 <= r < c && x == c * q + r
    ensures x % c == r && x / c == q
  {
    var q' := x / c;
    var r' := x % c;
    if q' != q {
      var d := q' - q;
      assert c * q' == c * q + c * d;
      if d >= 1 {
        MulAtLeast(c, d);
      } else {
        assert c * (-d) == -(c * d);
        MulAtLeast(c, -d);
      }
      assert false;
    }
  }

  lemma MulAtLeast(c: int, d: int)
    requires c > 0 && d >= 1
    ensures c * d >= c
  {
    assert c * d == c * (d - 1) + c;
  }

  /** Adding multiples of the modulus leaves the remainder unchanged. */
  lemma ModAddMultiple(x: int, c: int, t: int)
    requires c > 0
    ensures (x + c * t) % c == x % c
  {
    ModUnique(x + c * t, c, x / c + t, x % c);
  }

  /** Reducing a summand first does not change the remainder of a sum. */
  lemma ModAddLeft(a: int, b: int, c: int)
    requires c > 0
    ensures (a + b) % c == (a % c + b) % c
  {
    ModAddMultiple(a % c + b, c, a / c);
  }

  /** x mod 2c from x/2 mod c and the low bit. */
  lemma ModDouble(x: nat, c: nat)
    requires c > 0
    ensures x % (2 * c) == 2 * ((x / 2) % c) + x % 2
  {
    var q := x / 2;
    ModUnique(x, 2 * c, q / c, 2 * (q % c) + x % 2);
  }

  // ---------------------------------------------------------------------
  // Bit masks
  // ---------------------------------------------------------------------

  lemma {:induction false} BitAndSelf(a: nat)
    ensures BitAnd(a, a) == a
  {
    if a != 0 {
      BitAndSelf(a / 2);
    }
  }

  /** Masking with 2^k - 1 is reduction modulo 2^k: `x & (capacity - 1)`. */
  lemma {:induction false} MaskIsMod(x: nat, k: nat)
    ensures BitAnd(x, Pow2(k) - 1) == x % Pow2(k)
    decreases k
  {
    if k == 0 {
      assert Pow2(k) - 1 == 0;
      ModUnique(x, 1, x, 0);
    } else if x == 0 {
      ModUnique(0, Pow2(k), 0, 0);
    } else {
      var p := Pow2(k - 1);
      assert Pow2(k) == 2 * p;
      MaskStep(x, p);
      MaskIsMod(x / 2, k - 1);
      ModDouble(x, p);
    }
  }

  /** One bit of `x & (2p - 1)`: the low bit of x survives, the rest is `x/2 & (p - 1)`. */
  lemma MaskStep(x: nat, p: nat)
    requires x != 0 && p >= 1
    ensures BitAnd(x, 2 * p - 1) == 2 * BitAnd(x / 2, p - 1) + x % 2
  {
    var m := 2 * p - 1;
    ModUnique(m, 2, p - 1, 1);
    assert (x % 2) * (m % 2) == x % 2;
  }

  /** Index of `x` in a ring buffer of power-of-two capacity `cap`: `x & (cap - 1)`. */
  function Slot(x: nat, cap: nat): (r: nat)
    requires IsPowerOfTwo(cap)
    ensures r == x % cap && r < cap
  {
    MaskIsMod(x, ExactLog(cap));
    BitAnd(x, cap - 1)
  }

  // ---------------------------------------------------------------------
  // is_pow2
  // ---------------------------------------------------------------------

  /** `v & (v - 1)` is zero exactly for the powers of two (v >= 1). */
  lemma {:induction false} ClearLowestBit(v: nat)
    requires v >= 1
    ensures BitAnd(v, v - 1) == 0 <==> IsPowerOfTwo(v)
  {
    if v >= 2 {
      if v % 2 == 0 {
        assert (v - 1) / 2 == v / 2 - 1;
        ClearLowestBit(v / 2);
      } else {
        assert (v - 1) / 2 == v / 2;
        BitAndSelf(v / 2);
      }
    }
  }

  /**
   * `is_pow2(v)`: `(v & (v - 1)) == 0 && v != 0`, with `v - 1` wrapping to
   * SIZE_MAX for v == 0.
   */
  function IsPow2(v: nat): (r: bool)
    requires v < SizeLimit
    ensures r <==> IsPowerOfTwo(v)
  {
    IsPow2Trick(v);
    BitAnd(v, WrapSize(v - 1)) == 0 && v != 0
  }

  lemma IsPow2Trick(v: nat)
    requires v < SizeLimit
    ensures (BitAnd(v, WrapSize(v - 1)) == 0 && v != 0) <==> IsPowerOfTwo(v)
  {
    if v >= 1 {
      ClearLowestBit(v);
    }
  }

  /** `is_pow2(v)` holds exactly when v == 2^k for some k. */
  lemma IsPow2Exists(v: nat)
    requires v < SizeLimit
    ensures IsPow2(v) <==> exists k: nat :: Pow2(k) == v
  {
    if IsPow2(v) {
      assert Pow2(ExactLog(v)) == v;
    }
    if exists k: nat :: Pow2(k) == v {
      var k: nat :| Pow2(k) == v;
      Pow2IsPowerOfTwo(k);
    }
  }

  // ---------------------------------------------------------------------
  // next_log2
  // ---------------------------------------------------------------------

  /** The bit length is the exponent e with 2^(e-1) <= v < 2^e. */
  lemma {:induction false} BitLengthBounds(v: nat)
    ensures v == 0 ==> BitLength(v) == 0
    ensures v >= 1 ==> Pow2(BitLength(v) - 1) <= v < Pow2(BitLength(v))
  {
    if v >= 1 {
      BitLengthBounds(v / 2);
    }
  }

  /** ... and it is the only such exponent. */
  lemma {:induction false} BitLengthUnique(v: nat, e: nat)
    requires e >= 1 && Pow2(e - 1) <= v < Pow2(e)
    ensures BitLength(v) == e
    decreases e
  {
    if e > 1 {
      BitLengthUnique(v / 2, e - 1);
    }
  }

  lemma {:induction false} BitLengthMonotone(v: nat, w: nat)
    requires v <= w
    ensures BitLength(v) <= BitLength(w)
    decreases w
  {
    if v != 0 {
      BitLengthMonotone(v / 2, w / 2);
    }
  }

  /** `__builtin_clzl`: leading zero bits of `v` inside a `width`-bit word. */
  function LeadingZeros(v: nat, width: nat): (r: nat)
    requires 0 < v < Pow2(width)
    ensures r < width
    decreases width
  {
    if v >= Pow2(width - 1) then 0 else 1 + LeadingZeros(v, width - 1)
  }

  lemma {:induction false} LeadingZerosIsBitLength(v: nat, width: nat)
    requires 0 < v < Pow2(width)
    ensures width - LeadingZeros(v, width) == BitLength(v)
    decreases width
  {
    if v >= Pow2(width - 1) {
      BitLengthUnique(v, width);
    } else {
      LeadingZerosIsBitLength(v, width - 1);
    }
  }

  /** `_BitScanReverse64`: index of the highest set bit, if any bit is set. */
  function HighestSetBit(v: nat): (r: nat)
    requires v >= 1
    ensures Pow2(r) <= v < 2 * Pow2(r)
  {
    if v == 1 then 0 else 1 + HighestSetBit(v / 2)
  }

  /**
   * `next_log2(v)` as compiled by GCC/Clang: 0 for v == 0, otherwise
   * 64 minus the leading zero count. Its contract is the header comment:
   * the exponent e with 2^(e-1) <= v < 2^e.
   */
  function NextLog2(v: nat): (e: nat)
    requires v < SizeLimit
    ensures e <= SizeBits && e == BitLength(v)
    ensures v == 0 ==> e == 0
    ensures v >= 1 ==> e >= 1 && Pow2(e - 1) <= v < Pow2(e)
  {
    if v == 0 then 0
    else
      Pow2Constants();
      LeadingZerosIsBitLength(v, SizeBits);
      BitLengthBounds(v);
      SizeBits - LeadingZeros(v, SizeBits)
  }

  /** The MSVC branch (`index + 1` when a bit is set, else 0) agrees with the builtin one. */
  lemma MsvcNextLog2Agrees(v: nat)
    requires v < SizeLimit
    ensures NextLog2(v) == (if v == 0 then 0 else HighestSetBit(v) + 1)
  {
    if v >= 1 {
      var h := HighestSetBit(v);
      BitLengthUnique(v, h + 1);
      BitLengthUnique(v, NextLog2(v));
    }
  }

  /**
   * The portable fallback of `next_log2`: count the right shifts until v is 0.
   * It computes the same exponent as the builtin branch.
   */
  method NextLog2Portable(v0: nat) returns (e: nat)
    requires v0 < SizeLimit
    ensures e == NextLog2(v0)
    ensures e == BitLength(v0)
  {
    e := 0;
    var v := v0;
    while v != 0
      invariant e + BitLength(v) == BitLength(v0)
      decreases v
    {
      e := e + 1;
      v := v / 2;
    }
    if v0 >= 1 {
      BitLengthBounds(v0);
      BitLengthUnique(v0, NextLog2(v0));
    }
  }

  /** `next_log2` never decreases as v grows. */
  lemma NextLog2Monotone(v: nat, w: nat)
    requires v <= w < SizeLimit
    ensures NextLog2(v) <= NextLog2(w)
  {
    BitLengthMonotone(v, w);
  }

  /**
   * `next_pow2(v)`: `1 << next_log2(v)`, the smallest power of two strictly
   * above v. The shift is on `int`, so it is only defined for exponents up to
   * 30, i.e. for v < 2^30.
   */
  function NextPow2(v: nat): (r: nat)
    requires v < MaxIntPow2
    ensures IsPowerOfTwo(r) && v < r
    ensures forall k: nat :: v < Pow2(k) ==> r <= Pow2(k)
  {
    Pow2Constants();
    var e := NextLog2(v);
    Pow2IsPowerOfTwo(e);
    SmallestAbove(v, e);
    Pow2(e)
  }

  lemma SmallestAbove(v: nat, e: nat)
    requires (v == 0 && e == 0) || (e >= 1 && Pow2(e - 1) <= v)
    ensures forall k: nat :: v < Pow2(k) ==> Pow2(e) <= Pow2(k)
  {
    forall k: nat | v < Pow2(k)
      ensures Pow2(e) <= Pow2(k)
    {
      if k < e {
        Pow2Monotone(k, e - 1);
      } else {
        Pow2Monotone(e, k);
      }
    }
  }

  /**
   * `next_log2_inclusive(v)`: one less than `next_log2` exactly when v is a
   * power of two, giving the exponent e with 2^(e-1) < v <= 2^e.
   */
  function NextLog2Inclusive(v: nat): (e: nat)
    requires v < SizeLimit
    ensures v == 0 ==> e == 0
    ensures v >= 1 ==> v <= Pow2(e) && (e == 0 || Pow2(e - 1) < v)
    ensures v >= 1 ==> (e + 1 == NextLog2(v) <==> IsPowerOfTwo(v))
    ensures e == NextLog2(v) || e + 1 == NextLog2(v)
  {
    var e := NextLog2(v);
    var pow := IsPow2(v);
    InclusiveBounds(v, e, pow);
    if pow then e - 1 else e
  }

  lemma InclusiveBounds(v: nat, e: nat, pow: bool)
    requires e == BitLength(v) && (pow <==> IsPowerOfTwo(v))
    ensures var i := if pow then e - 1 else e;
      && (v == 0 ==> i == 0)
      && (v >= 1 ==> v <= Pow2(i) && (i == 0 || Pow2(i - 1) < v))
      && (v >= 1 ==> (i + 1 == e <==> pow))
      && (i == e || i + 1 == e)
  {
    if pow {
      PowerLog(v);
      if e >= 2 {
        assert Pow2(e - 1) == 2 * Pow2(e - 2);
      }
    } else {
      BitLengthBounds(v);
      NotPowerBound(v, e);
    }
  }

  /** For a power of two v, the bit length minus one is its exact exponent. */
  lemma PowerLog(v: nat)
    requires IsPowerOfTwo(v)
    ensures BitLength(v) >= 1 && Pow2(BitLength(v) - 1) == v
  {
    var k := ExactLog(v);
    assert Pow2(k + 1) == 2 * v;
    BitLengthUnique(v, k + 1);
  }

  lemma NotPowerBound(v: nat, e: nat)
    requires !IsPowerOfTwo(v) && (v == 0 || (e >= 1 && Pow2(e - 1) <= v))
    ensures v >= 1 ==> Pow2(e - 1) < v
  {
    if v >= 1 && Pow2(e - 1) == v {
      Pow2IsPowerOfTwo(e - 1);
    }
  }

  /**
   * `next_pow2_inclusive(v)`: the smallest power of two that is >= v (1 for
   * v == 0). The `int` shift limits it to v <= 2^30.
   */
  function NextPow2Inclusive(v: nat): (r: nat)
    requires v <= MaxIntPow2
    ensures IsPowerOfTwo(r) && v <= r <= MaxIntPow2
    ensures forall k: nat :: v <= Pow2(k) ==> r <= Pow2(k)
  {
    Pow2Constants();
    var e := NextLog2Inclusive(v);
    Pow2IsPowerOfTwo(e);
    SmallestAtLeast(v, e);
    Pow2(e)
  }

  lemma SmallestAtLeast(v: nat, e: nat)
    requires e == 0 || (e >= 1 && Pow2(e - 1) < v)
    ensures forall k: nat :: v <= Pow2(k) ==> Pow2(e) <= Pow2(k)
  {
    forall k: nat | v <= Pow2(k)
      ensures Pow2(e) <= Pow2(k)
    {
      if k < e {
        Pow2Monotone(k, e - 1);
      } else {
        Pow2Monotone(e, k);
      }
    }
  }
}
