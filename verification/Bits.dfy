/** Powers of two, bit lengths and bitwise conjunction over the naturals, and the helpers of `math.h`. */
module Bits {
  import opened Arithmetic

  const TWO32: nat := 0x1_0000_0000
  const TWO64: nat := 0x1_0000_0000_0000_0000
  const U64_MAX: nat := 0xFFFF_FFFF_FFFF_FFFF

  function Pow2(k: nat): (r: nat)
    ensures r > 0
  {
    if k == 0 then 1 else 2 * Pow2(k - 1)
  }

  /** The number of binary digits of v, so that `__builtin_clz(v)` is 32 - BitLength(v). */
  function BitLength(v: nat): nat {
    if v == 0 then 0 else 1 + BitLength(v / 2)
  }

  function Clz32(v: nat): (r: int)
  {
    32 - BitLength(v)
  }

  /** `v_pow2_round_up`. The shift is by 32 - clz(v - 1), which is defined for results below 2^32. */
  function Pow2RoundUp(v: nat): nat
    requires 0 < v <= 0x8000_0000
  {
    if v == 1 then 1 else BitLengthRange(v - 1); Pow2(32 - Clz32(v - 1))
  }

  /** `v_pow2_round_down`. */
  function Pow2RoundDown(v: nat): nat
    requires 0 < v < TWO32
  {
    BitLengthRange(v); Pow2((32 - Clz32(v)) - 1)
  }

  /** `v_log2`: 64 - clzll(v) - 1. */
  function Log2(v: nat): nat
    requires 0 < v < TWO32
  {
    BitLengthRange(v); (64 - (64 - BitLength(v))) - 1
  }

  function BitAnd(a: nat, b: nat): nat { if a == 1 && b == 1 then 1 else 0 }

  /** Bitwise `&`. */
  function And(x: nat, y: nat): nat
    decreases x
  {
    if x == 0 || y == 0 then 0 else 2 * And(x / 2, y / 2) + BitAnd(x % 2, y % 2)
  }

  /** V_IS_POWER_OF_TWO. */
  predicate IsPowerOfTwo(n: nat) {
    n != 0 && And(n, n - 1) == 0
  }

  /** V_MOD_POWER_OF_TWO. */
  function ModPowerOfTwo(x: nat, p: nat): nat
    requires p > 0
  {
    if IsPowerOfTwo(p) then And(x, p - 1) else x % p
  }

  // ----- Properties -----

  lemma {:induction false} BitLengthRange(v: nat)
    ensures v < Pow2(BitLength(v))
    ensures v > 0 ==> BitLength(v) > 0 && Pow2(BitLength(v) - 1) <= v
  {
    if v > 0 { BitLengthRange(v / 2); }
  }

  lemma {:induction false} Pow2Monotone(a: nat, b: nat)
    requires a <= b
    ensures Pow2(a) <= Pow2(b)
  {
    if a < b { Pow2Monotone(a, b - 1); }
  }

  lemma {:induction false} Pow2Add(a: nat, b: nat)
    ensures Pow2(a + b) == Pow2(a) * Pow2(b)
  {
    if a > 0 {
      Pow2Add(a - 1, b);
      assert Pow2(a + b) == 2 * Pow2((a - 1) + b);
    }
  }

  /** Rounding up gives the least power of two that is at least v, and less than 2v. */
  lemma RoundUpIsLeast(v: nat)
    requires 0 < v <= 0x8000_0000
    ensures v <= Pow2RoundUp(v) < 2 * v
    ensures exists k: nat :: Pow2RoundUp(v) == Pow2(k)
    ensures forall k: nat :: v <= Pow2(k) ==> Pow2RoundUp(v) <= Pow2(k)
  {
    var b := BitLength(v - 1);
    BitLengthRange(v - 1);
    assert Pow2(0) == 1;
    assert Pow2RoundUp(v) == Pow2(b);
    forall k: nat | v <= Pow2(k) ensures Pow2(b) <= Pow2(k) {
      if k < b { Pow2Monotone(k, b - 1); } else { Pow2Monotone(b, k); }
    }
  }

  /** Rounding down gives the greatest power of two not above v, and `v_log2` is its exponent. */
  lemma RoundDownIsGreatest(v: nat)
    requires 0 < v < TWO32
    ensures Pow2RoundDown(v) == Pow2(Log2(v)) <= v < 2 * Pow2RoundDown(v)
    ensures forall k: nat :: Pow2(k) <= v ==> Pow2(k) <= Pow2RoundDown(v)
  {
    BitLengthRange(v);
    forall k: nat | Pow2(k) <= v ensures Pow2(k) <= Pow2RoundDown(v) {
      if k >= BitLength(v) { Pow2Monotone(BitLength(v), k); } else { Pow2Monotone(k, BitLength(v) - 1); }
    }
  }

  /** The lowest k bits of x. */
  function LowBits(x: nat, k: nat): nat {
    if k == 0 then 0 else 2 * LowBits(x / 2, k - 1) + x % 2
  }

  lemma {:induction false} LowBitsIsMod(x: nat, k: nat)
    ensures LowBits(x, k) == x % Pow2(k)
  {
    if k > 0 {
      LowBitsIsMod(x / 2, k - 1);
      ModDouble(x, Pow2(k - 1));
    }
  }

  lemma ModDouble(x: nat, h: nat)
    requires h > 0
    ensures x % (2 * h) == 2 * ((x / 2) % h) + x % 2
  {
    var q, r := (x / 2) / h, (x / 2) % h;
    DivMod(x / 2, h);
    assert q * (2 * h) == 2 * (q * h);
    ModUnique(x, 2 * h, q, 2 * r + x % 2);
  }

  lemma {:induction false} AllBitsAreLow(x: nat, k: nat)
    requires x < Pow2(k)
    ensures LowBits(x, k) == x
  {
    if k > 0 { AllBitsAreLow(x / 2, k - 1); }
  }

  lemma AndStep(x: nat, y: nat, half: nat, bit: nat)
    requires y == 2 * half + bit && bit < 2
    ensures And(x, y) == 2 * And(x / 2, half) + BitAnd(x % 2, bit)
  {
    assert y / 2 == half && y % 2 == bit;
  }

  lemma {:induction false} AndLowBits(x: nat, k: nat)
    ensures And(x, Pow2(k) - 1) == LowBits(x, k)
  {
    if k > 0 {
      AndLowBits(x / 2, k - 1);
      AndStep(x, Pow2(k) - 1, Pow2(k - 1) - 1, 1);
    }
  }

  lemma {:induction false} AndHighBits(x: nat, k: nat, a: nat)
    requires x < Pow2(k + a)
    ensures Pow2(a) <= Pow2(k + a) && And(x, Pow2(k + a) - Pow2(a)) == x - LowBits(x, a)
    decreases a
  {
    Pow2Monotone(a, k + a);
    if a == 0 {
      AndLowBits(x, k);
      AllBitsAreLow(x, k);
    } else {
      AndHighBits(x / 2, k, a - 1);
      EvenMask(x, Pow2(k + a - 1) - Pow2(a - 1), LowBits(x / 2, a - 1));
    }
  }

  lemma EvenMask(x: nat, half: nat, low: int)
    requires And(x / 2, half) == x / 2 - low
    ensures And(x, 2 * half) == x - (2 * low + x % 2)
  {
    AndStep(x, 2 * half, half, 0);
  }

  /** `x & (2^k - 1)` keeps the remainder modulo 2^k. */
  lemma AndLowMask(x: nat, k: nat)
    ensures And(x, Pow2(k) - 1) == x % Pow2(k)
  {
    AndLowBits(x, k);
    LowBitsIsMod(x, k);
  }

  /** `x & mask` with the lowest a bits of a (k+a)-bit mask cleared floors x to a multiple of 2^a. */
  lemma AndHighMask(x: nat, k: nat, a: nat)
    requires x < Pow2(k + a)
    ensures Pow2(a) <= Pow2(k + a) && And(x, Pow2(k + a) - Pow2(a)) == x - x % Pow2(a)
  {
    AndHighBits(x, k, a);
    LowBitsIsMod(x, a);
  }

  lemma {:induction false} AndSelf(x: nat)
    ensures And(x, x) == x
  {
    if x > 0 {
      AndSelf(x / 2);
      AndStep(x, x, x / 2, x % 2);
      assert x % 2 == 0 || x % 2 == 1;
    }
  }

  lemma OddIsNoPower(n: nat, k: nat)
    requires n % 2 == 1 && n > 1
    ensures n != Pow2(k) && !IsPowerOfTwo(n)
  {
    assert And(n, n - 1) == 2 * (n / 2) by {
      AndSelf(n / 2);
      AndStep(n, n - 1, n / 2, 0);
    }
    if k > 0 { assert Pow2(k) == 2 * Pow2(k - 1); }
  }

  lemma HalfIsPower(n: nat)
    requires n % 2 == 0 && n > 0
    ensures IsPowerOfTwo(n) <==> IsPowerOfTwo(n / 2)
    ensures forall k: nat :: n / 2 == Pow2(k) <==> n == Pow2(k + 1)
  {
    AndStep(n, n - 1, n / 2 - 1, 1);
  }

  /** The bit trick recognises exactly the powers of two. */
  lemma {:induction false} IsPowerOfTwoExact(n: nat)
    ensures IsPowerOfTwo(n) <==> exists k: nat :: n == Pow2(k)
  {
    if n == 1 {
      assert n == Pow2(0);
    } else if n % 2 == 1 {
      forall k: nat ensures n != Pow2(k) { OddIsNoPower(n, k); }
      OddIsNoPower(n, 0);
    } else if n > 0 {
      IsPowerOfTwoExact(n / 2);
      HalfIsPower(n);
      if IsPowerOfTwo(n) {
        var k: nat :| n / 2 == Pow2(k);
        assert n == Pow2(k + 1);
      } else {
        forall k: nat ensures n != Pow2(k) {
          if k > 0 { assert n / 2 != Pow2(k - 1); }
        }
      }
    }
  }

  /** The modulus macro is the modulus for every positive divisor, on both of its branches. */
  lemma ModPowerOfTwoIsMod(x: nat, p: nat)
    requires p > 0
    ensures ModPowerOfTwo(x, p) == x % p
  {
    IsPowerOfTwoExact(p);
    if IsPowerOfTwo(p) {
      var k: nat :| p == Pow2(k);
      AndLowMask(x, k);
    }
  }

  /** What a 64-bit counter holds. */
  function Wrap64(x: nat): (r: nat)
    ensures r <= U64_MAX
  {
    if x <= U64_MAX then x else Wrap64(x - TWO64)
  }

  lemma {:induction false} Wrap64IsModulo(x: nat)
    ensures Wrap64(x) == x % TWO64
  {
    if x <= U64_MAX {
      SmallMod(x, TWO64);
    } else {
      Wrap64IsModulo(x - TWO64);
      ModPlus(x - TWO64, TWO64);
    }
  }

  /** `v_least_containing_multiple` in 64-bit arithmetic, without its final assert. */
  function LeastContainingMultiple(v: nat, m: nat): int
    requires v < TWO64 && 0 < m < TWO64
  {
    Times(Wrap64(v + (m - 1)) / m, m)
  }

  /** The assert of `v_least_containing_multiple` passes exactly when the sum does not wrap,
      and then the result is the least multiple at or above v. */
  lemma LeastContainingMultipleExact(v: nat, m: nat)
    requires v < TWO64 && 0 < m < TWO64
    ensures var r := LeastContainingMultiple(v, m);
            && (r >= v <==> v + (m - 1) < TWO64)
            && (r >= v ==> r % m == 0 && forall t: nat :: Times(t, m) >= v ==> Times(t, m) >= r)
  {
    var s := Wrap64(v + (m - 1));
    var q := s / m;
    DivMod(s, m);
    if v + (m - 1) < TWO64 {
      assert s == v + (m - 1);
      ModUnique(q * m, m, q, 0);
      forall t: nat | Times(t, m) >= v ensures Times(t, m) >= q * m {
        if t < q { BelowMultiple(t, q, m); }
      }
    } else {
      assert s == Wrap64(v + (m - 1) - TWO64);
    }
  }
}
