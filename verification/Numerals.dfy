/** Positional numerals: the text of a number in a base, and the number a text denotes. */
module Numerals {
  import opened DigitCount

  const LOWER := "0123456789abcdef"
  const UPPER := "0123456789ABCDEF"

  function DigitChar(d: nat, upper: bool): char
    requires d < 16
  {
    if upper then UPPER[d] else LOWER[d]
  }

  function DigitValue(c: char): nat {
    if '0' <= c <= '9' then (c - '0') as nat
    else if 'a' <= c <= 'f' then (c - 'a') as nat + 10
    else if 'A' <= c <= 'F' then (c - 'A') as nat + 10
    else 0
  }

  /** The text of n in the given base, most significant digit first. */
  function Numeral(n: nat, base: nat, upper: bool): (s: string)
    requires 2 <= base <= 16
    ensures |s| >= 1
    decreases n
  {
    (if n < base then [] else Numeral(n / base, base, upper)) + [DigitChar(n % base, upper)]
  }

  function Decimal(n: nat): string {
    Numeral(n, 10, false)
  }

  /** The number that a text denotes in the given base. */
  function Decode(s: string, base: nat): nat {
    if s == [] then 0 else Decode(s[..|s| - 1], base) * base + DigitValue(s[|s| - 1])
  }

  predicate IsDigit(c: char) {
    '0' <= c <= '9'
  }

  lemma DigitCharValue(d: nat, upper: bool)
    requires d < 16
    ensures DigitValue(DigitChar(d, upper)) == d
    ensures d < 10 ==> DigitChar(d, upper) == '0' + d as char
    ensures DigitChar(d, upper) == '0' <==> d == 0
  {
  }

  /** Lower-case numerals hold no upper-case letters, and the other way round. */
  lemma {:induction false} NumeralCase(n: nat, base: nat, upper: bool)
    requires 2 <= base <= 16
    ensures forall i :: 0 <= i < |Numeral(n, base, upper)| ==>
              var c := Numeral(n, base, upper)[i];
              IsDigit(c) || (if upper then 'A' <= c <= 'F' else 'a' <= c <= 'f')
    ensures base <= 10 ==> forall i :: 0 <= i < |Numeral(n, base, upper)| ==> IsDigit(Numeral(n, base, upper)[i])
    decreases n
  {
    DivMod(n, base);
    if n >= base { NumeralCase(n / base, base, upper); }
  }

  lemma {:induction false} LeadingZeros(zeros: string, s: string, base: nat)
    requires forall i :: 0 <= i < |zeros| ==> zeros[i] == '0'
    ensures Decode(zeros + s, base) == Decode(s, base)
    decreases |s|, |zeros|
  {
    if s != [] {
      assert (zeros + s)[..|zeros + s| - 1] == zeros + s[..|s| - 1];
      LeadingZeros(zeros, s[..|s| - 1], base);
    } else if zeros != [] {
      assert zeros + s == zeros;
      LeadingZeros(zeros[..|zeros| - 1], [], base);
      assert zeros[..|zeros| - 1] + [] == zeros[..|zeros| - 1];
    } else {
      assert zeros + s == [];
    }
  }

  lemma DecodeSnoc(s: string, c: char, base: nat)
    ensures Decode(s + [c], base) == Decode(s, base) * base + DigitValue(c)
  {
    assert (s + [c])[..|s|] == s;
  }

  lemma DivMod(n: nat, base: nat)
    requires base >= 2
    ensures n == n / base * base + n % base && n / base <= n
    ensures n >= base ==> 1 <= n / base < n
  {
    var q := n / base;
    assert n == q * base + n % base;
    assert q >= 1 ==> q * base >= 2 * q;
    assert q <= 0 ==> q * base <= 0;
  }

  lemma {:induction false} DecodeNumeral(n: nat, base: nat, upper: bool)
    requires 2 <= base <= 16
    ensures Decode(Numeral(n, base, upper), base) == n
    decreases n
  {
    var q, r := n / base, n % base;
    DivMod(n, base);
    DigitCharValue(r, upper);
    var front := if n < base then [] else Numeral(q, base, upper);
    assert Decode(front, base) == q by {
      if n >= base { DecodeNumeral(q, base, upper); }
    }
    DecodeSnoc(front, DigitChar(r, upper), base);
  }

  /** No superfluous leading zero. */
  lemma {:induction false} NoLeadingZero(n: nat, base: nat, upper: bool)
    requires 2 <= base <= 16
    ensures Numeral(n, base, upper)[0] == '0' <==> n == 0
    decreases n
  {
    DivMod(n, base);
    DigitCharValue(n % base, upper);
    if n >= base { NoLeadingZero(n / base, base, upper); }
  }

  lemma {:induction false} DecimalLength(n: nat)
    ensures |Decimal(n)| == NumDigits(n)
  {
    if n >= 10 { DecimalLength(n / 10); }
  }

  lemma {:induction false} DecimalDigits(n: nat)
    ensures forall i :: 0 <= i < |Decimal(n)| ==> IsDigit(Decimal(n)[i])
  {
    DigitCharValue(n % 10, false);
    assert IsDigit(DigitChar(n % 10, false));
    if n >= 10 {
      DecimalDigits(n / 10);
      assert Decimal(n) == Decimal(n / 10) + [DigitChar(n % 10, false)];
    } else {
      assert Decimal(n) == [] + [DigitChar(n % 10, false)];
    }
  }

  lemma NumeralInjective(m: nat, n: nat, base: nat, upper: bool)
    requires 2 <= base <= 16 && Numeral(m, base, upper) == Numeral(n, base, upper)
    ensures m == n
  {
    DecodeNumeral(m, base, upper);
    DecodeNumeral(n, base, upper);
  }
}
