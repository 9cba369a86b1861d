/** Bitwise operations on natural numbers, bit by bit, and what they mean arithmetically. */
module Bits {

  function Pow2(k: nat): (r: nat)
    ensures r > 0
  {
    if k == 0 then 1 else 2 * Pow2(k - 1)
  }

  function And(x: nat, y: nat): nat
    decreases x
  {
    if x == 0 || y == 0 then 0 else (x % 2) * (y % 2) + 2 * And(x / 2, y / 2)
  }

  function Or(x: nat, y: nat): nat
    decreases x + y
  {
    if x == 0 then y else if y == 0 then x
    else (if x % 2 + y % 2 == 0 then 0 else 1) + 2 * Or(x / 2, y / 2)
  }

  function Shl(x: nat, k: nat): nat {
    if k == 0 then x else 2 * Shl(x, k - 1)
  }

  function Shr(x: nat, k: nat): nat {
    if k == 0 then x else Shr(x / 2, k - 1)
  }

  /** Masking in place and shifting down is shifting down and masking. */
  lemma {:induction false} ShrAnd(x: nat, m: nat, k: nat)
    ensures Shr(And(x, Shl(m, k)), k) == And(Shr(x, k), m)
  {
    if k > 0 {
      var h := Shl(m, k - 1);
      ShrAnd(x / 2, m, k - 1);
      assert And(x, 2 * h) / 2 == And(x / 2, h) by {
        assert (2 * h) % 2 == 0 && (2 * h) / 2 == h;
        assert x == 0 || h == 0 || And(x, 2 * h) == 2 * And(x / 2, h);
      }
    }
  }

  /** Bits that do not overlap are added. */
  lemma {:induction false} OrShl(a: nat, b: nat, k: nat)
    requires a < Pow2(k)
    ensures Or(a, Shl(b, k)) == a + Shl(b, k)
  {
    if k > 0 {
      var h := Shl(b, k - 1);
      OrShl(a / 2, b, k - 1);
      assert (2 * h) % 2 == 0 && (2 * h) / 2 == h;
    }
  }

  /** A mask of k ones keeps the remainder modulo 2^k. */
  lemma {:induction false} MaskIsMod(x: nat, k: nat)
    ensures And(x, Pow2(k) - 1) == x % Pow2(k)
  {
    if k == 0 {
      assert x % 1 == 0;
    } else if x != 0 {
      MaskIsMod(x / 2, k - 1);
      MaskStep(x, Pow2(k - 1), Pow2(k));
    }
  }

  lemma MaskStep(x: nat, h: nat, m: nat)
    requires x > 0 && h > 0 && m == 2 * h
    requires And(x / 2, h - 1) == (x / 2) % h
    ensures And(x, m - 1) == x % m
  {
    assert (m - 1) % 2 == 1 && (m - 1) / 2 == h - 1;
    HalveMod(x, h);
  }

  lemma HalveMod(x: nat, h: nat)
    requires h > 0
    ensures x % (2 * h) == x % 2 + 2 * ((x / 2) % h)
  {
    var q, r := (x / 2) / h, (x / 2) % h;
    assert x / 2 == q * h + r;
    assert x == q * (2 * h) + (2 * r + x % 2) by { assert q * (2 * h) == 2 * (q * h); }
    ModUnique(x, 2 * h, q, 2 * r + x % 2);
  }

  /** Quotient and remainder are the only pair that recomposes the number. */
  lemma ModUnique(x: int, m: int, q: int, r: int)
    requires m > 0 && 0 <= r < m && x == q * m + r
    ensures x / m == q && x % m == r
  {
    var d := x / m - q;
    assert d * m == r - x % m by {
      assert x == (x / m) * m + x % m;
      assert d * m == (x / m) * m - q * m;
    }
    assert d > 0 ==> d * m >= m;
    assert d < 0 ==> d * m <= -m;
  }

  ghost predicate IsPow2(n: nat) {
    exists k: nat :: n == Pow2(k)
  }

  /** The test `n & (n - 1) == 0` accepts exactly the powers of two. */
  lemma {:induction false} PowerOfTwoTest(n: nat)
    requires n > 0
    ensures And(n, n - 1) == 0 <==> IsPow2(n)
  {
    if n == 1 {
      assert n == Pow2(0);
    } else if n % 2 == 1 {
      assert And(n, n - 1) == 2 * And(n / 2, n / 2);
      AndSelf(n / 2);
      assert forall k: nat :: Pow2(k) == 1 || Pow2(k) % 2 == 0;
    } else {
      PowerOfTwoTest(n / 2);
      assert (n - 1) % 2 == 1 && (n - 1) / 2 == n / 2 - 1;
      if k: nat :| n == Pow2(k) { assert k > 0 && n / 2 == Pow2(k - 1); }
      if k: nat :| n / 2 == Pow2(k) { assert n == Pow2(k + 1); }
    }
  }

  lemma {:induction false} AndSelf(x: nat)
    ensures And(x, x) == x
  {
    if x > 0 { AndSelf(x / 2); }
  }

  lemma {:induction false} Pow2Divides(j: nat, k: nat)
    requires j <= k
    ensures Pow2(k) == Pow2(k - j) * Pow2(j)
  {
    if j > 0 {
      Pow2Divides(j - 1, k - 1);
      assert Pow2(k) == 2 * (Pow2(k - j) * Pow2(j - 1));
      assert 2 * (Pow2(k - j) * Pow2(j - 1)) == Pow2(k - j) * (2 * Pow2(j - 1));
    }
  }
}
