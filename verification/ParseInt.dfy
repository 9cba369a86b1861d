/** Reading a non-negative integer from a NUL-terminated text, with the 32-bit wrap test. */
module ParseInt {
  import Bits
  import opened Wrappers
  import opened DigitCount
  import opened Numerals

  const INT_MAX := 0x7fff_ffff
  const TOO_BIG := "number is too big"

  /** The character the cursor sees; a C string ends in NUL. */
  function CharAt(s: string, i: nat): char {
    if i < |s| then s[i] else '\0'
  }

  /** Where the run of digits that starts at i ends. */
  function RunEnd(s: string, i: nat): (j: nat)
    ensures i <= j && (i <= |s| ==> j <= |s|)
    ensures forall k :: i <= k < j && k < |s| ==> IsDigit(s[k])
    ensures !IsDigit(CharAt(s, j))
    decreases |s| - i
  {
    if IsDigit(CharAt(s, i)) then RunEnd(s, i + 1) else i
  }

  /** What `unsigned` keeps of the number denoted by the first k digits. */
  function Kept(ds: string, k: nat): nat
    requires k <= |ds|
  {
    Decode(ds[..k], 10) % UINT32_LIMIT
  }

  /** The test `new_value < value` catches a wrap at some digit. */
  ghost predicate WrapCaught(ds: string) {
    exists k :: 1 <= k <= |ds| && Kept(ds, k) < Kept(ds, k - 1)
  }

  /** `parse_nonnegative_int` on the digits ds, stated by the numbers the digits denote. */
  ghost function Verdict(ds: string): Result<nat, string> {
    if WrapCaught(ds) || Kept(ds, |ds|) > INT_MAX then Failure(TOO_BIG) else Success(Kept(ds, |ds|))
  }

  /** Appending a digit to the kept value, in `unsigned` arithmetic. */
  lemma KeptStep(ds: string, k: nat)
    requires k < |ds| && IsDigit(ds[k])
    ensures Kept(ds, k + 1) == (Kept(ds, k) * 10 + (ds[k] - '0') as nat) % UINT32_LIMIT
  {
    var n, d := Decode(ds[..k], 10), (ds[k] - '0') as nat;
    assert ds[..k + 1][..k] == ds[..k];
    assert Decode(ds[..k + 1], 10) == n * 10 + d;
    AppendDigit(n, d);
  }

  lemma AppendDigit(n: nat, d: nat)
    ensures (n * 10 + d) % UINT32_LIMIT == (n % UINT32_LIMIT * 10 + d) % UINT32_LIMIT
  {
    var q, x := n / UINT32_LIMIT, n % UINT32_LIMIT * 10 + d;
    Bits.ModUnique(n * 10 + d, UINT32_LIMIT, q * 10 + x / UINT32_LIMIT, x % UINT32_LIMIT);
  }

  /** `parse_nonnegative_int`; on success the cursor is at the first character after the run. */
  method ParseNonnegativeInt(s: string, i: nat) returns (r: Result<(nat, nat), string>)
    requires IsDigit(CharAt(s, i))
    ensures var ds := s[i..RunEnd(s, i)];
            r == match Verdict(ds)
                 case Failure(e) => Failure(e)
                 case Success(n) => Success((n, RunEnd(s, i)))
  {
    var value, cursor := 0, i;
    ghost var end := RunEnd(s, i);
    ghost var ds := s[i..end];
    while true
      invariant i <= cursor < end
      invariant value == Kept(ds, cursor - i)
      invariant forall k :: 1 <= k <= cursor - i ==> Kept(ds, k) >= Kept(ds, k - 1)
      decreases end - cursor
    {
      KeptStep(ds, cursor - i);
      var newValue := (value * 10 + (s[cursor] - '0') as nat) % UINT32_LIMIT;
      cursor := cursor + 1;
      if newValue < value {
        assert Kept(ds, cursor - i) < Kept(ds, cursor - i - 1);
        value := UINT32_LIMIT - 1;
        break;
      }
      value := newValue;
      if !IsDigit(CharAt(s, cursor)) {
        assert cursor == end;
        break;
      }
    }
    if value > INT_MAX { return Failure(TOO_BIG); }
    return Success((value, cursor));
  }

  // ----- when the answer is right

  /** The documented meaning: the number when it fits in int, an error otherwise. */
  function Honest(n: nat): Result<nat, string> {
    if n <= INT_MAX then Success(n) else Failure(TOO_BIG)
  }

  lemma {:induction false} PrefixSmaller(ds: string, k: nat)
    requires k <= |ds|
    ensures Decode(ds[..k], 10) <= Decode(ds, 10)
    decreases |ds|
  {
    if k == |ds| {
      assert ds[..k] == ds;
    } else {
      PrefixSmaller(ds[..|ds| - 1], k);
      assert ds[..|ds| - 1][..k] == ds[..k];
    }
  }

  lemma NothingLost(ds: string, k: nat)
    requires Decode(ds, 10) < UINT32_LIMIT && k <= |ds|
    ensures Kept(ds, k) == Decode(ds[..k], 10)
  {
    PrefixSmaller(ds, k);
    hide Decode;
    assert Decode(ds[..k], 10) < UINT32_LIMIT;
  }

  /** Every number below 2^32 is judged correctly: read back up to INT_MAX, refused beyond. */
  lemma HonestBelowUintMax(ds: string)
    requires Decode(ds, 10) < UINT32_LIMIT
    ensures Verdict(ds) == Honest(Decode(ds, 10))
  {
    assert ds[..|ds|] == ds;
    NothingLost(ds, |ds|);
    forall k | 1 <= k <= |ds| ensures Kept(ds, k) >= Kept(ds, k - 1) {
      NothingLost(ds, k);
      NothingLost(ds, k - 1);
      PrefixSmaller(ds[..k], k - 1);
      assert ds[..k][..k - 1] == ds[..k - 1];
    }
  }

  ghost predicate AllDigits(ds: string) {
    forall i :: 0 <= i < |ds| ==> IsDigit(ds[i])
  }

  /**
   Cutting digits off the end of n, some number keeps less in 32 bits than the next shorter one:
   that is what the wrap test sees.
   */
  predicate WrapSeen(n: nat) {
    n >= 10 && (n % UINT32_LIMIT < n / 10 % UINT32_LIMIT || WrapSeen(n / 10))
  }

  lemma LastDigitOff(ds: string)
    requires ds != [] && IsDigit(ds[|ds| - 1])
    ensures Decode(ds, 10) / 10 == Decode(ds[..|ds| - 1], 10)
  {
  }

  lemma CaughtLater(ds: string)
    requires ds != []
    ensures WrapCaught(ds) <==> WrapCaught(ds[..|ds| - 1]) || Kept(ds, |ds|) < Kept(ds, |ds| - 1)
  {
    var front, m := ds[..|ds| - 1], |ds| - 1;
    assert forall k :: 0 <= k <= m ==> ds[..k] == front[..k];
    assert forall k :: 0 <= k <= m ==> Kept(ds, k) == Kept(front, k);
    hide Kept;
    if WrapCaught(front) {
      var k :| 1 <= k <= m && Kept(front, k) < Kept(front, k - 1);
      assert Kept(ds, k) < Kept(ds, k - 1);
    }
    if WrapCaught(ds) {
      var k :| 1 <= k <= |ds| && Kept(ds, k) < Kept(ds, k - 1);
      assert k <= m ==> Kept(front, k) < Kept(front, k - 1);
    }
  }

  /** The loop's comparisons depend on nothing but the number denoted. */
  lemma {:induction false} WrapSeenInDigits(ds: string)
    requires AllDigits(ds)
    ensures WrapCaught(ds) <==> WrapSeen(Decode(ds, 10))
    decreases |ds|
  {
    if ds != [] {
      WrapSeenInDigits(ds[..|ds| - 1]);
      LastDigitOff(ds);
      CaughtLater(ds);
      assert ds[..|ds|] == ds;
      hide WrapCaught, Decode, AllDigits;
    }
  }

  /** The verdict as a function of the number. */
  function Judged(n: nat): Result<nat, string> {
    if WrapSeen(n) || n % UINT32_LIMIT > INT_MAX then Failure(TOO_BIG) else Success(n % UINT32_LIMIT)
  }

  lemma VerdictOnNumber(ds: string)
    requires AllDigits(ds)
    ensures Verdict(ds) == Judged(Decode(ds, 10))
  {
    WrapSeenInDigits(ds);
    assert ds[..|ds|] == ds;
    hide WrapCaught, WrapSeen, Decode;
  }

  lemma WithinOneTurn(n: nat)
    requires n < 2 * UINT32_LIMIT
    ensures n % UINT32_LIMIT == if n < UINT32_LIMIT then n else n - UINT32_LIMIT
  {
    var q := if n < UINT32_LIMIT then 0 else 1;
    Bits.ModUnique(n, UINT32_LIMIT, q, n - q * UINT32_LIMIT);
  }

  lemma {:induction false} NoWrapBelowLimit(n: nat)
    requires n < UINT32_LIMIT
    ensures !WrapSeen(n)
  {
    if n >= 10 {
      WithinOneTurn(n);
      WithinOneTurn(n / 10);
      NoWrapBelowLimit(n / 10);
    }
  }

  /**
   Beyond that the wrap test is incomplete. For every run of digits the verdict is right exactly when
   the number fits in int, or 32 bits keep more than INT_MAX of it, or cutting digits off shows a wrap.
   */
  lemma HonestExactly(ds: string)
    requires AllDigits(ds)
    ensures var n := Decode(ds, 10);
            Verdict(ds) == Honest(n) <==> n <= INT_MAX || n % UINT32_LIMIT > INT_MAX || WrapSeen(n)
  {
    VerdictOnNumber(ds);
    var n := Decode(ds, 10);
    hide Verdict, Decode, WrapSeen;
    if n <= INT_MAX {
      WithinOneTurn(n);
      NoWrapBelowLimit(n);
    }
  }

  /** Up to ten times 2^32 one comparison decides. */
  lemma HonestBelowTenTimes(ds: string)
    requires AllDigits(ds) && INT_MAX < Decode(ds, 10) < 10 * UINT32_LIMIT
    ensures var n := Decode(ds, 10);
            Verdict(ds) == Honest(n) <==> n % UINT32_LIMIT < n / 10 || n % UINT32_LIMIT > INT_MAX
  {
    HonestExactly(ds);
    var n := Decode(ds, 10);
    hide Verdict, Decode;
    WithinOneTurn(n / 10);
    NoWrapBelowLimit(n / 10);
  }

  /** The smallest number misread is 4772185884, which is taken for 477218588. */
  lemma SmallestSlip(ds: string)
    requires AllDigits(ds)
    ensures Decode(ds, 10) < 4772185884 ==> Verdict(ds) == Honest(Decode(ds, 10))
    ensures Decode(ds, 10) == 4772185884 ==> Verdict(ds) == Success(477218588)
  {
    VerdictOnNumber(ds);
    var n := Decode(ds, 10);
    hide Verdict, Decode;
    if n < UINT32_LIMIT {
      WithinOneTurn(n);
      NoWrapBelowLimit(n);
    } else if n <= 4772185884 {
      WithinOneTurn(n);
      WithinOneTurn(n / 10);
      NoWrapBelowLimit(n / 10);
    }
  }

  /** 10000000000 slips through and is read as 1410065408. */
  lemma TenBillionSlipsThrough(ds: string)
    requires AllDigits(ds) && Decode(ds, 10) == 10000000000
    ensures Verdict(ds) == Success(1410065408)
  {
    VerdictOnNumber(ds);
    hide Verdict, Decode;
    NoWrapBelowLimit(1000000000);
    Bits.ModUnique(10000000000, UINT32_LIMIT, 2, 1410065408);
    WithinOneTurn(1000000000);
  }

  lemma {:induction false} RunEndAt(s: string, i: nat, j: nat)
    requires i <= j <= |s| && (forall k :: i <= k < j ==> IsDigit(s[k])) && !IsDigit(CharAt(s, j))
    ensures RunEnd(s, i) == j
    decreases j - i
  {
    if i < j { RunEndAt(s, i + 1, j); }
  }

  lemma RunOf(before: string, ds: string, after: string)
    requires ds != [] && AllDigits(ds) && !IsDigit(CharAt(after, 0))
    ensures var s := before + ds + after;
            && IsDigit(CharAt(s, |before|))
            && RunEnd(s, |before|) == |before| + |ds|
            && s[|before|..RunEnd(s, |before|)] == ds
  {
    var s, j := before + ds + after, |before| + |ds|;
    assert forall k :: |before| <= k < j ==> s[k] == ds[k - |before|];
    assert CharAt(s, j) == CharAt(after, 0);
    RunEndAt(s, |before|, j);
  }

  lemma DigitsReadBack(before: string, ds: string, after: string, n: nat)
    requires ds != [] && AllDigits(ds) && !IsDigit(CharAt(after, 0))
    requires Decode(ds, 10) == n <= INT_MAX
    ensures var s := before + ds + after;
            && IsDigit(CharAt(s, |before|))
            && RunEnd(s, |before|) == |before| + |ds|
            && Verdict(s[|before|..RunEnd(s, |before|)]) == Success(n)
  {
    RunOf(before, ds, after);
    HonestBelowUintMax(ds);
  }

  /** Printed text reads back exactly up to INT_MAX, wherever it stands in a text. */
  lemma PrintedReadsBack(before: string, n: nat, after: string)
    requires n <= INT_MAX && !IsDigit(CharAt(after, 0))
    ensures var s := before + Decimal(n) + after;
            && IsDigit(CharAt(s, |before|))
            && RunEnd(s, |before|) == |before| + |Decimal(n)|
            && Verdict(s[|before|..RunEnd(s, |before|)]) == Success(n)
  {
    DecimalDigits(n);
    DecodeNumeral(n, 10, false);
    DigitsReadBack(before, Decimal(n), after, n);
  }
}
