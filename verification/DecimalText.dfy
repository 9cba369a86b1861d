/** Decimal printing two digits at a time, backwards, into a character buffer. */
module DecimalText {
  import opened DigitCount
  import opened Numerals

  // ----- the two-digit table

  const ROW0 := "00010203040506070809"
  const ROW1 := "10111213141516171819"
  const ROW2 := "20212223242526272829"
  const ROW3 := "30313233343536373839"
  const ROW4 := "40414243444546474849"
  const ROW5 := "50515253545556575859"
  const ROW6 := "60616263646566676869"
  const ROW7 := "70717273747576777879"
  const ROW8 := "80818283848586878889"
  const ROW9 := "90919293949596979899"
  const DIGITS: string :=
    ROW0 + ROW1 + ROW2 + ROW3 + ROW4 + ROW5 + ROW6 + ROW7 + ROW8 + ROW9

  /** The ten two-digit numbers with the given tens digit, in order. */
  ghost predicate Decade(s: string, tens: char) {
    s == [tens, '0', tens, '1', tens, '2', tens, '3', tens, '4', tens, '5', tens, '6', tens, '7', tens, '8', tens, '9']
  }

  lemma DecadeAt(s: string, tens: char, i: nat)
    requires Decade(s, tens) && i < 10
    ensures |s| == 20 && s[2 * i] == tens && s[2 * i + 1] == '0' + i as char
  {
  }

  ghost predicate PairAt(s: string, n: nat) {
    n < 100 && |s| >= 2 * n + 2 && s[2 * n] == '0' + (n / 10) as char && s[2 * n + 1] == '0' + (n % 10) as char
  }

  /** Appending the next decade extends the table. */
  lemma NextDecade(s: string, row: string, k: nat)
    requires k < 10 && |s| == 20 * k && Decade(row, '0' + k as char)
    requires forall n :: 0 <= n < 10 * k ==> PairAt(s, n)
    ensures |s + row| == 20 * (k + 1)
    ensures forall n :: 0 <= n < 10 * (k + 1) ==> PairAt(s + row, n)
  {
    forall n | 0 <= n < 10 * (k + 1) ensures PairAt(s + row, n) {
      if n < 10 * k {
        assert PairAt(s, n);
      } else {
        var i := n - 10 * k;
        DecadeAt(row, '0' + k as char, i);
        assert row[2 * i] == (s + row)[2 * n] && row[2 * i + 1] == (s + row)[2 * n + 1];
      }
    }
  }

  /** DIGITS spells 00, 01, ..., 99. */
  lemma DigitPairs(n: nat)
    requires n < 100
    ensures |DIGITS| == 200 && DIGITS[2 * n] == '0' + (n / 10) as char && DIGITS[2 * n + 1] == '0' + (n % 10) as char
  {
    Decades(ROW0, ROW1, ROW2, ROW3, ROW4, ROW5, ROW6, ROW7, ROW8, ROW9, n);
  }

  lemma Decades(r0: string, r1: string, r2: string, r3: string, r4: string,
                r5: string, r6: string, r7: string, r8: string, r9: string, n: nat)
    requires Decade(r0, '0') && Decade(r1, '1') && Decade(r2, '2') && Decade(r3, '3') && Decade(r4, '4')
    requires Decade(r5, '5') && Decade(r6, '6') && Decade(r7, '7') && Decade(r8, '8') && Decade(r9, '9') && n < 100
    ensures |r0 + r1 + r2 + r3 + r4 + r5 + r6 + r7 + r8 + r9| == 200
    ensures PairAt(r0 + r1 + r2 + r3 + r4 + r5 + r6 + r7 + r8 + r9, n)
  {
    NextDecade([], r0, 0);
    assert [] + r0 == r0;
    NextDecade(r0, r1, 1);
    NextDecade(r0 + r1, r2, 2);
    NextDecade(r0 + r1 + r2, r3, 3);
    NextDecade(r0 + r1 + r2 + r3, r4, 4);
    NextDecade(r0 + r1 + r2 + r3 + r4, r5, 5);
    NextDecade(r0 + r1 + r2 + r3 + r4 + r5, r6, 6);
    NextDecade(r0 + r1 + r2 + r3 + r4 + r5 + r6, r7, 7);
    NextDecade(r0 + r1 + r2 + r3 + r4 + r5 + r6 + r7, r8, 8);
    NextDecade(r0 + r1 + r2 + r3 + r4 + r5 + r6 + r7 + r8, r9, 9);
  }

  // ----- format_decimal

  /** Splitting off the last two digits. */
  lemma LastPair(v: nat)
    requires v >= 100
    ensures NumDigits(v) == 2 + NumDigits(v / 100)
    ensures Decimal(v) == Decimal(v / 100) + Pair(v % 100)
  {
    assert v / 10 / 10 == v / 100 && v / 10 % 10 == v % 100 / 10 && v % 100 % 10 == v % 10;
    DigitCharValue(v % 10, false);
    DigitCharValue(v / 10 % 10, false);
    assert Decimal(v) == Decimal(v / 10) + [DigitChar(v % 10, false)];
    assert Decimal(v / 10) == Decimal(v / 100) + [DigitChar(v / 10 % 10, false)];
  }

  function Pair(n: nat): string
    requires n < 100
  {
    ['0' + (n / 10) as char, '0' + (n % 10) as char]
  }

  lemma LastPairOf(v: nat, tail: string)
    requires v >= 100
    ensures Decimal(v) + tail == Decimal(v / 100) + (Pair(v % 100) + tail)
    ensures |Decimal(v)| >= 2
  {
    LastPair(v);
  }

  lemma ShortDecimal(v: nat)
    requires v < 100
    ensures Decimal(v) == if v < 10 then ['0' + v as char] else Pair(v)
    ensures NumDigits(v) == if v < 10 then 1 else 2
  {
    DigitCharValue(v % 10, false);
    if v >= 10 {
      DigitCharValue(v / 10, false);
      assert Decimal(v) == Decimal(v / 10) + [DigitChar(v % 10, false)];
      assert Decimal(v / 10) == [] + [DigitChar(v / 10, false)];
    } else {
      assert Decimal(v) == [] + [DigitChar(v, false)];
    }
  }

  /** Stores the two digits of n < 100 just before index end. */
  method PutPair(buffer: array<char>, end: nat, n: nat) returns (start: nat)
    requires n < 100 && 2 <= end <= buffer.Length
    modifies buffer
    ensures start == end - 2
    ensures buffer[..] == old(buffer[..start]) + Pair(n) + old(buffer[end..])
  {
    DigitPairs(n);
    var index := n * 2;
    start := end - 1;
    buffer[start] := DIGITS[index + 1];
    start := start - 1;
    buffer[start] := DIGITS[index];
  }

  /** Stores the one or two digits that remain. */
  method PutShort(buffer: array<char>, end: nat, v: nat) returns (start: nat)
    requires v < 100 && NumDigits(v) <= end <= buffer.Length
    modifies buffer
    ensures start == end - NumDigits(v)
    ensures buffer[..] == old(buffer[..start]) + Decimal(v) + old(buffer[end..])
  {
    ShortDecimal(v);
    if v < 10 {
      start := end - 1;
      buffer[start] := '0' + v as char;
    } else {
      start := PutPair(buffer, end, v);
    }
  }

  /** What the buffer holds when all but the last digits of value have been written. */
  ghost predicate Written(now: string, before: string, start: nat, end: nat, tail: string) {
    start <= end <= |before| && start + |tail| == end && now == before[..start] + tail + before[end..]
  }

  lemma WriteMore(now: string, before: string, start: nat, end: nat, tail: string, text: string, then': string)
    requires Written(now, before, start, end, tail) && |text| <= start <= |now|
    requires then' == now[..start - |text|] + text + now[start..]
    ensures Written(then', before, start - |text|, end, text + tail)
  {
    assert now[..start - |text|] == before[..start - |text|];
    assert now[start..] == tail + before[end..];
  }

  /** Writes the decimal text of value backwards, ending just before index end; returns where it starts. */
  method WriteBackwards(buffer: array<char>, end: nat, value: nat) returns (start: nat)
    requires NumDigits(value) <= end <= buffer.Length
    modifies buffer
    ensures start == end - NumDigits(value)
    ensures buffer[..] == old(buffer[..start]) + Decimal(value) + old(buffer[end..])
  {
    var v := value;
    ghost var before, tail: string := buffer[..], [];
    start := end;
    DecimalLength(value);
    while v >= 100
      invariant Written(buffer[..], before, start, end, tail)
      invariant Decimal(value) == Decimal(v) + tail
    {
      LastPairOf(v, tail);
      ghost var now := buffer[..];
      start := PutPair(buffer, start, v % 100);
      WriteMore(now, before, start + 2, end, tail, Pair(v % 100), buffer[..]);
      tail := Pair(v % 100) + tail;
      v := v / 100;
    }
    DecimalLength(v);
    ghost var now := buffer[..];
    start := PutShort(buffer, start, v);
    WriteMore(now, before, start + NumDigits(v), end, tail, Decimal(v), buffer[..]);
  }

  /** `format_decimal`: exactly the numDigits cells from `at` are written. */
  method FormatDecimal(buffer: array<char>, at: nat, value: nat, numDigits: nat)
    requires numDigits == NumDigits(value) && at + numDigits <= buffer.Length
    modifies buffer
    ensures buffer[..] == old(buffer[..at]) + Decimal(value) + old(buffer[at + numDigits..])
  {
    var start := WriteBackwards(buffer, at + numDigits, value);
  }

  // ----- FormatInt

  function SignedDecimal(value: int): string {
    if value < 0 then "-" + Decimal(-value) else Decimal(value)
  }

  /** The signed text denotes the value again. */
  function DecodeSigned(s: string): int {
    if s != [] && s[0] == '-' then 0 - Decode(s[1..], 10) else Decode(s, 10)
  }

  lemma SignedRoundTrip(value: int)
    ensures DecodeSigned(SignedDecimal(value)) == value
  {
    DecodeNumeral(if value < 0 then -value else value, 10, false);
    if value >= 0 {
      DecimalDigits(value);
      assert IsDigit(Decimal(value)[0]);
    } else {
      assert SignedDecimal(value)[1..] == Decimal(-value);
    }
  }

  lemma AtMost20Digits(value: nat)
    requires value < UINT64_LIMIT
    ensures NumDigits(value) <= 20
    ensures value <= UINT64_LIMIT / 2 ==> NumDigits(value) <= 19
  {
    TableIsPow10(19);
    assert Pow10(20) == 10 * Pow10(19);
    NumDigitsBounds(value);
    if NumDigits(value) > 20 { Pow10Monotone(20, NumDigits(value) - 1); }
    if NumDigits(value) > 19 { Pow10Monotone(19, NumDigits(value) - 1); }
  }

  class FormatInt {
    const buffer: array<char>
    var str: nat

    static const BUFFER_SIZE := 22

    ghost predicate Valid()
      reads this
    {
      buffer.Length == BUFFER_SIZE && str <= BUFFER_SIZE - 1
    }

    /** `size()` */
    function Size(): nat
      requires Valid()
      reads this
    {
      BUFFER_SIZE - 1 - str
    }

    /** `str()` */
    function Str(): (s: string)
      requires Valid()
      reads this, buffer
      ensures |s| == Size()
    {
      buffer[str..str + Size()]
    }

    constructor Unsigned(value: nat)
      requires value < UINT64_LIMIT
      ensures Valid() && Str() == Decimal(value) && str >= 1
    {
      buffer := new char[BUFFER_SIZE];
      new;
      AtMost20Digits(value);
      DecimalLength(value);
      str := WriteBackwards(buffer, BUFFER_SIZE - 1, value);
    }

    /** The sign fits in front of every magnitude, the least signed value included. */
    constructor Signed(value: int)
      requires -0x8000_0000_0000_0000 <= value < 0x8000_0000_0000_0000
      ensures Valid() && Str() == SignedDecimal(value) && str >= 1
    {
      buffer := new char[BUFFER_SIZE];
      new;
      var absValue := value % UINT64_LIMIT;
      assert absValue == if value < 0 then value + UINT64_LIMIT else value;
      if value < 0 { absValue := (0 - absValue) % UINT64_LIMIT; }
      assert value < 0 ==> absValue == -value;
      AtMost20Digits(absValue);
      DecimalLength(absValue);
      str := WriteBackwards(buffer, BUFFER_SIZE - 1, absValue);
      assert buffer[str..BUFFER_SIZE - 1] == Decimal(absValue);
      if value < 0 {
        str := str - 1;
        buffer[str] := '-';
        assert buffer[str..BUFFER_SIZE - 1] == ['-'] + buffer[str + 1..BUFFER_SIZE - 1];
      }
    }

    /** `c_str()` terminates the text outside its characters. */
    method Terminate()
      requires Valid()
      modifies buffer
      ensures Valid() && Str() == old(Str()) && buffer[BUFFER_SIZE - 1] == '\0'
    {
      buffer[BUFFER_SIZE - 1] := '\0';
    }
  }
}
