/** Counting decimal digits: the loop, the branch-free table lookup, and the mathematical count. */
module DigitCount {
  import Bits

  const UINT32_LIMIT := 0x1_0000_0000
  const UINT64_LIMIT := 0x1_0000_0000_0000_0000

  function Pow10(k: nat): (r: nat)
    ensures r > 0
  {
    if k == 0 then 1 else 10 * Pow10(k - 1)
  }

  /** The number of decimal digits of n, 1 for n == 0. */
  function NumDigits(n: nat): (d: nat)
    ensures d >= 1
  {
    if n < 10 then 1 else 1 + NumDigits(n / 10)
  }

  lemma {:induction false} NumDigitsBounds(n: nat)
    ensures n < Pow10(NumDigits(n))
    ensures n > 0 ==> Pow10(NumDigits(n) - 1) <= n
  {
    if n >= 10 {
      NumDigitsBounds(n / 10);
    } else {
      assert Pow10(1) == 10 && Pow10(0) == 1;
    }
  }

  lemma {:induction false} Pow10Monotone(j: nat, k: nat)
    requires j <= k
    ensures Pow10(j) <= Pow10(k)
  {
    if j < k { Pow10Monotone(j, k - 1); }
  }

  /** The bounds determine the count. */
  lemma NumDigitsUnique(n: nat, d: nat)
    requires d >= 1 && n < Pow10(d) && (d == 1 || Pow10(d - 1) <= n)
    ensures NumDigits(n) == d
  {
    NumDigitsBounds(n);
    var e := NumDigits(n);
    if e < d { Pow10Monotone(e, d - 1); }
    if d < e { Pow10Monotone(d, e - 1); }
  }

  /** The fallback `count_digits`: four digits per division. */
  method CountDigitsLoop(value: nat) returns (count: nat)
    ensures count == NumDigits(value)
  {
    var n := value;
    count := 1;
    while true
      invariant count + NumDigits(n) == 1 + NumDigits(value)
      decreases n
    {
      if n < 10000 { FewDigits(n); }
      if n < 10 { return; }
      if n < 100 { return count + 1; }
      if n < 1000 { return count + 2; }
      if n < 10000 { return count + 3; }
      FourDigits(n);
      n := n / 10000;
      count := count + 4;
    }
  }

  lemma FewDigits(n: nat)
    requires n < 10000
    ensures NumDigits(n) == if n < 10 then 1 else if n < 100 then 2 else if n < 1000 then 3 else 4
  {
    assert n / 10 / 10 == n / 100 && n / 100 / 10 == n / 1000;
    assert NumDigits(n / 1000) == 1;
    assert n >= 100 ==> NumDigits(n / 10) == 1 + NumDigits(n / 100);
  }

  lemma FourDigits(n: nat)
    requires n >= 10000
    ensures NumDigits(n) == 4 + NumDigits(n / 10000)
  {
    assert n / 10 / 10 == n / 100 && n / 100 / 10 == n / 1000 && n / 1000 / 10 == n / 10000;
    assert NumDigits(n / 100) == 2 + NumDigits(n / 10000);
  }

  // ----- the branch-free form

  const POWERS_OF_10_32: seq<nat> := [
    0, 10, 100, 1000, 10000, 100000, 1000000, 10000000, 100000000, 1000000000]

  const POWERS_OF_10_64: seq<nat> := [
    0, 10, 100, 1000, 10000, 100000, 1000000, 10000000, 100000000, 1000000000,
    10000000000, 100000000000, 1000000000000, 10000000000000, 100000000000000, 1000000000000000,
    10000000000000000, 100000000000000000, 1000000000000000000, 10000000000000000000]

  /** `width - __builtin_clz(n)`: the position of the highest set bit. */
  function BitLength(n: nat): nat {
    if n == 0 then 0 else 1 + BitLength(n / 2)
  }

  lemma {:induction false} BitLengthBounds(n: nat)
    requires n > 0
    ensures BitLength(n) >= 1 && Bits.Pow2(BitLength(n) - 1) <= n < Bits.Pow2(BitLength(n))
  {
    if n > 1 { BitLengthBounds(n / 2); }
  }

  lemma {:induction false} Pow2Monotone(j: nat, k: nat)
    requires j <= k
    ensures Bits.Pow2(j) <= Bits.Pow2(k)
  {
    if j < k { Pow2Monotone(j, k - 1); }
  }

  // FIRST_BITS[t] is the least bit length whose estimate is t, LEAST[t] the least number of that length.
  const FIRST_BITS: seq<nat> := [1, 4, 7, 10, 14, 17, 20, 24, 27, 30, 34, 37, 40, 44, 47, 50, 54, 57, 60, 64]
  const LEAST: seq<nat> := [
    0x1, 0x8, 0x40, 0x200, 0x2000, 0x1_0000, 0x8_0000, 0x80_0000, 0x400_0000, 0x2000_0000,
    0x2_0000_0000, 0x10_0000_0000, 0x80_0000_0000, 0x800_0000_0000, 0x4000_0000_0000, 0x2_0000_0000_0000,
    0x20_0000_0000_0000, 0x100_0000_0000_0000, 0x800_0000_0000_0000, 0x8000_0000_0000_0000]

  /** Neighbouring rows: the least number grows by 8 or 16, the power of ten lies between. */
  lemma Row(t: nat)
    requires t < 19
    ensures || (FIRST_BITS[t + 1] == FIRST_BITS[t] + 3 && LEAST[t + 1] == 8 * LEAST[t])
            || (FIRST_BITS[t + 1] == FIRST_BITS[t] + 4 && LEAST[t + 1] == 16 * LEAST[t])
    ensures LEAST[t + 1] <= POWERS_OF_10_64[t + 1]
    ensures POWERS_OF_10_64[t] <= LEAST[t + 1]
  {
  }

  lemma EstimateOfFirst(t: nat)
    requires t < 20
    ensures FIRST_BITS[t] * 1233 >= t * 4096 && FIRST_BITS[t] >= 1
    ensures t > 0 ==> (FIRST_BITS[t] - 1) * 1233 < t * 4096
  {
  }

  lemma {:induction false} LeastIsPow2(t: nat)
    requires t < 20
    ensures FIRST_BITS[t] >= 1 && LEAST[t] == Bits.Pow2(FIRST_BITS[t] - 1)
  {
    EstimateOfFirst(t);
    if t > 0 {
      LeastIsPow2(t - 1);
      Row(t - 1);
      Pow2Step(FIRST_BITS[t - 1] - 1);
    }
  }

  lemma Pow2Step(k: nat)
    ensures Bits.Pow2(k + 3) == 8 * Bits.Pow2(k) && Bits.Pow2(k + 4) == 16 * Bits.Pow2(k)
  {
    assert Bits.Pow2(k + 2) == 4 * Bits.Pow2(k);
    assert Bits.Pow2(k + 4) == 4 * Bits.Pow2(k + 2);
  }

  lemma {:induction false} TableIsPow10(t: nat)
    requires 1 <= t < 20
    ensures POWERS_OF_10_64[t] == Pow10(t)
    ensures t < 10 ==> POWERS_OF_10_32[t] == Pow10(t)
  {
    if t == 1 {
      assert Pow10(1) == 10 * Pow10(0);
    } else {
      TableIsPow10(t - 1);
      assert POWERS_OF_10_64[t] == 10 * POWERS_OF_10_64[t - 1];
      assert t < 10 ==> POWERS_OF_10_32[t] == POWERS_OF_10_64[t];
    }
  }

  lemma {:induction false} BitLengthAtMost(n: nat, k: nat)
    requires n < Bits.Pow2(k)
    ensures BitLength(n) <= k
  {
    if n > 0 { BitLengthAtMost(n / 2, k - 1); }
  }

  lemma Bits64(n: nat)
    requires 0 < n < UINT64_LIMIT
    ensures 1 <= BitLength(n) <= 64 && (n < UINT32_LIMIT ==> BitLength(n) <= 32)
  {
    BitLengthBounds(n);
    var k := 63;
    assert Bits.Pow2(k) == LEAST[19] by { LeastIsPow2(19); }
    assert Bits.Pow2(k + 1) == 2 * Bits.Pow2(k);
    BitLengthAtMost(n, k + 1);
    if n < UINT32_LIMIT {
      var j := 32;
      assert Bits.Pow2(j + 1) == LEAST[10] by { LeastIsPow2(10); }
      assert Bits.Pow2(j + 1) == 2 * Bits.Pow2(j);
      BitLengthAtMost(n, j);
    }
  }

  /** A bit length lies between the first of its own estimate and the first of the next. */
  lemma EstimateGroup(b: nat)
    requires 1 <= b <= 64
    ensures var t := b * 1233 / 4096;
            t < 20 && (b <= 32 ==> t < 10) && FIRST_BITS[t] <= b && (t < 19 ==> b < FIRST_BITS[t + 1])
  {
    var t := b * 1233 / 4096;
    EstimateOfFirst(t);
    if t < 19 { EstimateOfFirst(t + 1); }
  }

  /** bits * 1233 >> 12 estimates the digit count from below, by at most one. */
  lemma Estimate(n: nat)
    requires 0 < n < UINT64_LIMIT
    ensures var t := BitLength(n) * 1233 / 4096;
            && t < 20 && (n < UINT32_LIMIT ==> t < 10)
            && (t > 0 ==> Pow10(t - 1) <= n) && n < Pow10(t + 1)
  {
    Bits64(n);
    EstimateGroup(BitLength(n));
    var t := BitLength(n) * 1233 / 4096;
    if t > 0 { EstimateFromBelow(n, t); }
    if t < 19 { EstimateFromAbove(n, t); } else { TopEstimate(); }
  }

  lemma TopEstimate()
    ensures UINT64_LIMIT <= Pow10(20)
  {
    TableIsPow10(19);
    assert Pow10(20) == 10 * Pow10(19);
  }

  lemma EstimateFromBelow(n: nat, t: nat)
    requires 0 < n && 0 < t < 20 && FIRST_BITS[t] <= BitLength(n)
    ensures Pow10(t - 1) <= n
  {
    LeastIsPow2(t);
    AtLeastPow2(n, FIRST_BITS[t]);
    PowerBelowLeast(t);
  }

  lemma AtLeastPow2(n: nat, k: nat)
    requires 0 < n && 1 <= k <= BitLength(n)
    ensures Bits.Pow2(k - 1) <= n
  {
    BitLengthBounds(n);
    Pow2Monotone(k - 1, BitLength(n) - 1);
  }

  lemma PowerBelowLeast(t: nat)
    requires 1 <= t < 20
    ensures Pow10(t - 1) <= LEAST[t]
  {
    if t == 1 {
      assert Pow10(0) == 1;
    } else {
      TableIsPow10(t - 1);
      Row(t - 1);
    }
  }

  lemma EstimateFromAbove(n: nat, t: nat)
    requires 0 < n && t < 19 && BitLength(n) < FIRST_BITS[t + 1]
    ensures n < Pow10(t + 1)
  {
    LeastIsPow2(t + 1);
    BitLengthBounds(n);
    Pow2Monotone(BitLength(n), FIRST_BITS[t + 1] - 1);
    TableIsPow10(t + 1);
    Row(t);
  }

  /** `count_digits(uint64_t)` with `__builtin_clzll`; its table index is always in range. */
  function CountDigits64(n: nat): (r: nat)
    requires n < UINT64_LIMIT
    ensures r == NumDigits(n)
  {
    Lookup(n);
    var t := BitLength(Bits.Or(n, 1)) * 1233 / 4096;
    t - (if n < POWERS_OF_10_64[t] then 1 else 0) + 1
  }

  /** `count_digits(uint32_t)` with `__builtin_clz`. */
  function CountDigits32(n: nat): (r: nat)
    requires n < UINT32_LIMIT
    ensures r == NumDigits(n)
  {
    Lookup(n);
    var t := BitLength(Bits.Or(n, 1)) * 1233 / 4096;
    t - (if n < POWERS_OF_10_32[t] then 1 else 0) + 1
  }

  lemma Lookup(n: nat)
    requires n < UINT64_LIMIT
    ensures var t := BitLength(Bits.Or(n, 1)) * 1233 / 4096;
            && t < 20 && NumDigits(n) == t - (if n < POWERS_OF_10_64[t] then 1 else 0) + 1
            && (n < UINT32_LIMIT ==> t < 10 && POWERS_OF_10_32[t] == POWERS_OF_10_64[t])
  {
    if n == 0 {
      assert BitLength(1) == 1;
    } else {
      OrOne(n);
      Estimate(n);
      var t := BitLength(n) * 1233 / 4096;
      if t > 0 { TableIsPow10(t); }
      NumDigitsUnique(n, if t > 0 && n < Pow10(t) then t else t + 1);
    }
  }

  lemma OrOne(n: nat)
    requires n > 0
    ensures BitLength(Bits.Or(n, 1)) == BitLength(n)
  {
    assert Bits.Or(n / 2, 0) == n / 2;
    assert Bits.Or(n, 1) == 1 + 2 * (n / 2);
  }
}
