/** Writing integers in four bases with prefix, fill, precision and alignment. */
module IntWriter {
  import opened Wrappers
  import opened DigitCount
  import opened Numerals
  import opened FormatSpecs
  import opened MemoryBuffer
  import Bits
  import DecimalText

  // ----- what the output is

  /** The base of a type letter; `d` and no letter mean decimal. */
  function BaseOf(typ: char): Option<nat> {
    if typ == '\0' || typ == 'd' then Some(10)
    else if typ == 'x' || typ == 'X' then Some(16)
    else if typ == 'b' || typ == 'B' then Some(2)
    else if typ == 'o' then Some(8)
    else None
  }

  function Prefix(negative: bool, spec: FormatSpec): (p: string)
    ensures |p| <= 3
  {
    (if negative then "-" else if spec.sign then (if spec.plus then "+" else " ") else "")
    + (if !spec.hash then "" else if spec.typ == 'o' then "0"
       else if spec.typ in "xXbB" then ['0', spec.typ] else "")
  }

  /** An octal prefix counts as a digit, so a precision that adds zeros absorbs it. */
  function Absorbed(prefix: string, digits: nat, precision: int): string {
    if precision > digits && prefix != "" && prefix[|prefix| - 1] == '0'
    then prefix[..|prefix| - 1] else prefix
  }

  function Max(a: int, b: int): int {
    if a < b then b else a
  }

  /** How the padding is shared out: before the prefix, between prefix and digits, after the digits. */
  function Shares(padding: nat, align: Align, padded: bool): (r: (nat, nat, nat))
    ensures r.0 + r.1 + r.2 == padding
  {
    match align
    case AlignLeft => (0, 0, padding)
    case AlignCenter => if padded then (padding, 0, 0) else (padding / 2, 0, padding - padding / 2)
    case AlignNumeric => if padded then (padding, 0, 0) else (0, padding, 0)
    case _ => (padding, 0, 0)
  }

  /** What stands before and after the digits. */
  function Surroundings(digits: nat, spec: FormatSpec, prefix: string): (string, string) {
    var pre := Absorbed(prefix, digits, spec.precision);
    var zeros := Max(0, spec.precision - digits);
    var padding := Max(0, spec.width - |pre| - zeros - digits);
    var (a, b, c) := Shares(padding, spec.align, spec.precision > digits);
    (Rep(spec.fill, a) + pre + Rep(spec.fill, b) + Rep('0', zeros), Rep(spec.fill, c))
  }

  function Magnitude(value: int): nat {
    if value < 0 then -value else value
  }

  function Surrounded(digits: string, spec: FormatSpec, prefix: string): string {
    var (l, r) := Surroundings(|digits|, spec, prefix);
    l + digits + r
  }

  function Formatted(value: int, spec: FormatSpec): string
    requires BaseOf(spec.typ).Some?
  {
    Surrounded(Numeral(Magnitude(value), BaseOf(spec.typ).value, spec.typ == 'X'), spec, Prefix(value < 0, spec))
  }

  /** The output is as long as its parts demand, and never shorter than the width. */
  lemma FormattedLength(value: int, spec: FormatSpec)
    requires BaseOf(spec.typ).Some?
    ensures var digits := |Numeral(Magnitude(value), BaseOf(spec.typ).value, spec.typ == 'X')|;
            var pre := Absorbed(Prefix(value < 0, spec), digits, spec.precision);
            |Formatted(value, spec)| == Max(spec.width, |pre| + Max(digits, spec.precision))
  {
  }

  /** The type letters that integers are written under. */
  lemma BaseLetters(typ: char)
    ensures BaseOf(typ).Some? <==> typ in {'\0', 'd', 'x', 'X', 'b', 'B', 'o'}
  {
  }

  /** The alternate form of a base and a sign, spelled out. */
  function SignAndBase(negative: bool, plus: bool, blank: bool, hash: bool, typ: char): string {
    (match (negative, plus, blank)
     case (true, _, _) => "-"
     case (_, true, _) => "+"
     case (_, _, true) => " "
     case _ => "")
    + (if !hash then "" else
       match typ case 'x' => "0x" case 'X' => "0X" case 'b' => "0b" case 'B' => "0B" case 'o' => "0" case _ => "")
  }

  /**
   Without width and precision: the sign, the base prefix when asked for, and the digits, hexadecimal ones in the
   case of the type letter.
   */
  lemma BareInteger(value: int, spec: FormatSpec)
    requires BaseOf(spec.typ).Some? && spec.width == 0 && spec.precision <= 0
    ensures var digits := match spec.typ
                          case 'x' => Numeral(Magnitude(value), 16, false) case 'X' => Numeral(Magnitude(value), 16, true)
                          case 'b' => Numeral(Magnitude(value), 2, false) case 'B' => Numeral(Magnitude(value), 2, false)
                          case 'o' => Numeral(Magnitude(value), 8, false) case _ => Decimal(Magnitude(value));
            Formatted(value, spec) == SignAndBase(value < 0, spec.sign && spec.plus, spec.sign, spec.hash, spec.typ) + digits
  {
    hide Numeral, Surroundings;
    var base := BaseOf(spec.typ).value;
    var digits := Numeral(Magnitude(value), base, spec.typ == 'X');
    PlainSurroundings(|digits|, spec, Prefix(value < 0, spec));
    NoPadding(|digits|, spec, Prefix(value < 0, spec));
    assert Prefix(value < 0, spec) + digits + [] == Prefix(value < 0, spec) + digits;
  }

  /** An octal prefix is a digit: a precision that already demands more zeros takes it in; a hexadecimal one stays. */
  lemma OctalZeroIsADigit(value: int, precision: int)
    ensures var digits := Numeral(Magnitude(value), 8, false);
            Formatted(value, PLAIN.(typ := 'o', hash := true, precision := precision)) ==
              (if value < 0 then "-" else "") + Rep('0', Max(1, precision - |digits|)) + digits
    ensures var digits := Numeral(Magnitude(value), 16, false);
            Formatted(value, PLAIN.(typ := 'x', hash := true, precision := precision)) ==
              (if value < 0 then "-0x" else "0x") + Rep('0', Max(0, precision - |digits|)) + digits
  {
    hide Numeral, Surroundings, Rep;
    OctalLaidOut(value, precision);
    HexLaidOut(value, precision);
  }

  lemma OctalLaidOut(value: int, precision: int)
    ensures var digits := Numeral(Magnitude(value), 8, false);
            Formatted(value, PLAIN.(typ := 'o', hash := true, precision := precision)) ==
              (if value < 0 then "-" else "") + Rep('0', Max(1, precision - |digits|)) + digits
  {
    hide Numeral, Surroundings;
    var spec := PLAIN.(typ := 'o', hash := true, precision := precision);
    var digits, sign := Numeral(Magnitude(value), 8, false), if value < 0 then "-" else "";
    assert Prefix(value < 0, spec) == sign + "0";
    if precision > |digits| {
      PreciseSurroundings(|digits|, spec, sign + "0");
      assert (sign + "0")[..|sign|] == sign;
      NoFill(' ', sign + Rep('0', precision - |digits|));
      NothingAdded(sign + Rep('0', precision - |digits|) + digits);
    } else {
      PlainSurroundings(|digits|, spec, sign + "0");
      NoPadding(|digits|, spec, sign + "0");
      assert Rep('0', 1) == "0";
      NothingAdded(sign + "0" + digits);
    }
  }

  lemma HexLaidOut(value: int, precision: int)
    ensures var digits := Numeral(Magnitude(value), 16, false);
            Formatted(value, PLAIN.(typ := 'x', hash := true, precision := precision)) ==
              (if value < 0 then "-0x" else "0x") + Rep('0', Max(0, precision - |digits|)) + digits
  {
    hide Numeral, Surroundings;
    var spec := PLAIN.(typ := 'x', hash := true, precision := precision);
    var digits, pre := Numeral(Magnitude(value), 16, false), if value < 0 then "-0x" else "0x";
    assert Prefix(value < 0, spec) == pre;
    NothingRepeated('0');
    if precision > |digits| {
      PreciseSurroundings(|digits|, spec, pre);
      NoFill(' ', pre + Rep('0', precision - |digits|));
      NothingAdded(pre + Rep('0', precision - |digits|) + digits);
    } else {
      PlainSurroundings(|digits|, spec, pre);
      NoPadding(|digits|, spec, pre);
      NothingAdded(pre + digits);
      NothingAdded(pre);
    }
  }

  /** Skipping what precedes the digits and decoding them gives the magnitude; the prefix tells the sign. */
  lemma FormattedDecodes(value: int, spec: FormatSpec)
    requires BaseOf(spec.typ).Some?
    ensures var base := BaseOf(spec.typ).value;
            var n := |Numeral(Magnitude(value), base, spec.typ == 'X')|;
            var at := |Surroundings(n, spec, Prefix(value < 0, spec)).0|;
            && at + n <= |Formatted(value, spec)|
            && Decode(Formatted(value, spec)[at..at + n], base) == Magnitude(value)
    ensures Prefix(value < 0, spec) != "" && Prefix(value < 0, spec)[0] == '-' <==> value < 0
  {
    hide Numeral, Surroundings, Decode, Prefix;
    SignTold(value, spec);
    var base := BaseOf(spec.typ).value;
    var digits := Numeral(Magnitude(value), base, spec.typ == 'X');
    DecodeNumeral(Magnitude(value), base, spec.typ == 'X');
    var (l, r) := Surroundings(|digits|, spec, Prefix(value < 0, spec));
    Middle(l, digits, r);
  }

  lemma SignTold(value: int, spec: FormatSpec)
    ensures Prefix(value < 0, spec) != "" && Prefix(value < 0, spec)[0] == '-' <==> value < 0
  {
  }

  lemma Middle(l: string, m: string, r: string)
    ensures (l + m + r)[|l|..|l| + |m|] == m
  {
  }

  // ----- overwriting parts of a text

  function Overwrite(t: string, at: nat, s: string): (r: string)
    requires at + |s| <= |t|
    ensures |r| == |t|
  {
    t[..at] + s + t[at + |s|..]
  }

  lemma CutOverwrite(t: string, size: nat, at: nat, s: string)
    requires at + |s| <= size <= |t|
    ensures Overwrite(t, at, s)[..size] == Overwrite(t[..size], at, s)
  {
  }

  // Overwrites of a fresh area behind the text was, leaving a hole for the digits.

  lemma LaidApart(was: string, area: string, a: string, n: nat, b: string, t1: string, t2: string)
    returns (hole: string)
    requires |area| == |a| + n + |b|
    requires t1 == Overwrite(was + area, |was|, a) && t2 == Overwrite(t1, |was| + |a| + n, b)
    ensures |hole| == n && t2 == was + a + hole + b
  {
    hole := area[|a|..|a| + n];
  }

  lemma LaidAround(was: string, area: string, a: string, p: string, n: nat, b: string, t1: string, t2: string)
    returns (hole: string)
    requires |area| == |a| + |p| + n + |b|
    requires t1 == Overwrite(Overwrite(was + area, |was|, a), |was| + |a| + |p| + n, b)
    requires t2 == Overwrite(t1, |was| + |a|, p)
    ensures |hole| == n && t2 == was + (a + p) + hole + b
  {
    hole := area[|a| + |p|..|a| + |p| + n];
  }

  lemma LaidForward(was: string, area: string, a: string, b: string, n: nat, t1: string, t2: string)
    returns (hole: string)
    requires |area| == |a| + |b| + n
    requires t1 == Overwrite(was + area, |was|, a) && t2 == Overwrite(t1, |was| + |a|, b)
    ensures |hole| == n && t2 == was + (a + b) + hole + []
  {
    hole := area[|a| + |b|..];
  }

  lemma LaidBackward(was: string, area: string, a: string, b: string, n: nat, t1: string, t2: string)
    returns (hole: string)
    requires |area| == |a| + |b| + n
    requires t1 == Overwrite(was + area, |was| + |a|, b) && t2 == Overwrite(t1, |was|, a)
    ensures |hole| == n && t2 == was + (a + b) + hole + []
  {
    hole := area[|a| + |b|..];
  }

  // ----- the writer

  class IntWriter {
    const buffer: Buffer<char>

    constructor (buffer: Buffer<char>)
      ensures this.buffer == buffer
    {
      this.buffer := buffer;
    }

    ghost predicate Valid()
      reads buffer
    {
      buffer.Valid()
    }

    ghost function Text(): string
      requires Valid()
      reads buffer, buffer.data
    {
      buffer.Contents()
    }

    /** `grow_buffer`: room for n more characters, not yet set. */
    method GrowBuffer(n: nat) returns (at: nat, ghost area: string)
      requires Valid()
      modifies buffer
      ensures Valid() && (buffer.data == old(buffer.data) || fresh(buffer.data))
      ensures at == |old(Text())| && |area| == n && Text() == old(Text()) + area
    {
      at := buffer.size;
      buffer.Resize(at + n);
      area := Text()[at..];
      assert Text() == Text()[..at] + area;
    }

    method Copy(at: nat, s: string)
      requires Valid() && at + |s| <= |Text()|
      modifies buffer.data
      ensures Valid() && Text() == Overwrite(old(Text()), at, s)
    {
      CopyInto(buffer.data, at, s);
    }

    method Fill(at: nat, n: nat, c: char)
      requires Valid() && at + n <= |Text()|
      modifies buffer.data
      ensures Valid() && Text() == Overwrite(old(Text()), at, Rep(c, n))
    {
      FillInto(buffer.data, at, n, c);
    }

    /** The text is was followed by left, room for digits that ends at last, and right. */
    ghost predicate RoomFor(was: string, left: string, hole: string, last: nat, right: string)
      requires Valid()
      reads buffer, buffer.data
    {
      last + 1 == |was| + |left| + |hole| && Text() == was + left + hole + right
    }

    /** `fill_padding`: fills around the content of size n in an area of the given size. */
    method FillPadding(at: nat, total: nat, n: nat, fill: char) returns (content: nat)
      requires Valid() && n <= total && at + total <= |Text()|
      modifies buffer.data
      ensures Valid() && content == at + (total - n) / 2
      ensures Text() == Overwrite(Overwrite(old(Text()), at, Rep(fill, (total - n) / 2)),
                                  content + n, Rep(fill, total - n - (total - n) / 2))
    {
      var padding := total - n;
      var leftPadding := padding / 2;
      Fill(at, leftPadding, fill);
      content := at + leftPadding;
      Fill(content + n, padding - leftPadding, fill);
    }

    // The ways `prepare_int_buffer` fills an area of the given width.

    method PrepareLeft(numDigits: nat, width: nat, fill: char, prefix: string)
      returns (last: nat, ghost left: string, ghost hole: string, ghost right: string)
      requires Valid() && 0 < numDigits && |prefix| + numDigits <= width
      modifies buffer, buffer.data
      ensures Valid() && (buffer.data == old(buffer.data) || fresh(buffer.data))
      ensures left == prefix && |hole| == numDigits && right == Rep(fill, width - |prefix| - numDigits)
      ensures RoomFor(old(Text()), left, hole, last, right)
    {
      hide Moderate, After;
      var p, area := GrowBuffer(width);
      var size := |prefix| + numDigits;
      left, right := prefix, Rep(fill, width - size);
      Copy(p, prefix);
      ghost var t1 := Text();
      Fill(p + size, width - size, fill);
      hole := LaidApart(old(Text()), area, prefix, numDigits, right, t1, Text());
      last := p + size - 1;
    }

    method PrepareCenter(numDigits: nat, width: nat, fill: char, prefix: string)
      returns (last: nat, ghost left: string, ghost hole: string, ghost right: string)
      requires Valid() && 0 < numDigits && |prefix| + numDigits <= width
      modifies buffer, buffer.data
      ensures Valid() && (buffer.data == old(buffer.data) || fresh(buffer.data))
      ensures var padding := width - |prefix| - numDigits;
              left == Rep(fill, padding / 2) + prefix && |hole| == numDigits && right == Rep(fill, padding - padding / 2)
      ensures RoomFor(old(Text()), left, hole, last, right)
    {
      hide Moderate, After;
      var p, area := GrowBuffer(width);
      var size := |prefix| + numDigits;
      ghost var a, b := Rep(fill, (width - size) / 2), Rep(fill, width - size - (width - size) / 2);
      assert |a| == (width - size) / 2 && |b| == width - size - |a|;
      left, right := a + prefix, b;
      ghost var content := |old(Text())| + |a|;
      p := FillPadding(p, width, size, fill);
      ghost var t1 := Text();
      assert p == content;
      Copy(p, prefix);
      hole := LaidAround(old(Text()), area, a, prefix, numDigits, b, t1, Text());
      last := p + size - 1;
    }

    method PrepareNumeric(numDigits: nat, width: nat, fill: char, prefix: string)
      returns (last: nat, ghost left: string, ghost hole: string, ghost right: string)
      requires Valid() && 0 < numDigits && |prefix| + numDigits <= width
      modifies buffer, buffer.data
      ensures Valid() && (buffer.data == old(buffer.data) || fresh(buffer.data))
      ensures left == prefix + Rep(fill, width - |prefix| - numDigits) && |hole| == numDigits && right == []
      ensures RoomFor(old(Text()), left, hole, last, right)
    {
      hide Moderate, After;
      var p, area := GrowBuffer(width);
      var padding := width - |prefix| - numDigits;
      ghost var b := Rep(fill, padding);
      assert |b| == padding;
      left, right := prefix + b, [];
      Copy(p, prefix);
      ghost var t1 := Text();
      Fill(p + |prefix|, padding, fill);
      hole := LaidForward(old(Text()), area, prefix, b, numDigits, t1, Text());
      last := p + width - 1;
    }

    method PrepareRight(numDigits: nat, width: nat, fill: char, prefix: string)
      returns (last: nat, ghost left: string, ghost hole: string, ghost right: string)
      requires Valid() && 0 < numDigits && |prefix| + numDigits <= width
      modifies buffer, buffer.data
      ensures Valid() && (buffer.data == old(buffer.data) || fresh(buffer.data))
      ensures left == Rep(fill, width - |prefix| - numDigits) + prefix && |hole| == numDigits && right == []
      ensures RoomFor(old(Text()), left, hole, last, right)
    {
      hide Moderate, After;
      var p, area := GrowBuffer(width);
      var padding := width - |prefix| - numDigits;
      ghost var a := Rep(fill, padding);
      assert |a| == padding;
      left, right := a + prefix, [];
      Copy(p + padding, prefix);
      ghost var t1 := Text();
      Fill(p, padding, fill);
      hole := LaidBackward(old(Text()), area, a, prefix, numDigits, t1, Text());
      last := p + width - 1;
    }

    /** `prepare_int_buffer`: lays out everything but the digits; returns the index of the last digit. */
    method PrepareIntBuffer(numDigits: nat, spec: FormatSpec, prefix: string)
      returns (last: nat, ghost left: string, ghost hole: string, ghost right: string)
      requires Valid() && numDigits > 0
      modifies buffer, buffer.data
      ensures Valid() && (buffer.data == old(buffer.data) || fresh(buffer.data))
      ensures (left, right) == Surroundings(numDigits, spec, prefix) && |hole| == numDigits
      ensures RoomFor(old(Text()), left, hole, last, right)
      decreases if spec.precision > numDigits then 2 else 0, 0
    {
      hide Moderate, After;
      if spec.precision > numDigits {
        var pre := prefix;
        if pre != "" && pre[|pre| - 1] == '0' { pre := pre[..|pre| - 1]; }
        PreciseSurroundings(numDigits, spec, prefix);
        last, left, hole, right := PreparePrecise(numDigits, spec, pre);
        return;
      }
      PlainSurroundings(numDigits, spec, prefix);
      if spec.width <= |prefix| + numDigits {
        NoPadding(numDigits, spec, prefix);
        last, left, hole, right := PrepareLeft(numDigits, |prefix| + numDigits, spec.fill, prefix);
        return;
      }
      match spec.align {
        case AlignLeft => last, left, hole, right := PrepareLeft(numDigits, spec.width, spec.fill, prefix);
        case AlignCenter => last, left, hole, right := PrepareCenter(numDigits, spec.width, spec.fill, prefix);
        case AlignNumeric => last, left, hole, right := PrepareNumeric(numDigits, spec.width, spec.fill, prefix);
        case _ => last, left, hole, right := PrepareRight(numDigits, spec.width, spec.fill, prefix);
      }
    }

    /** The case of a precision beyond the digit count: zeros first, then the fill around the number. */
    method PreparePrecise(numDigits: nat, spec: FormatSpec, pre: string)
      returns (last: nat, ghost left: string, ghost hole: string, ghost right: string)
      requires Valid() && 0 < numDigits < spec.precision
      modifies buffer, buffer.data
      ensures Valid() && (buffer.data == old(buffer.data) || fresh(buffer.data))
      ensures (left, right) == Precise(numDigits, spec, pre) && |hole| == numDigits
      ensures RoomFor(old(Text()), left, hole, last, right)
      decreases 1, 1
    {
      hide Moderate, After;
      var numberSize := |pre| + spec.precision;
      ghost var was := Text();
      if numberSize >= spec.width {
        last, left, hole := PrepareNumber(numDigits, spec.precision, pre);
        NoFill(spec.fill, left);
        return last, left, hole, [];
      }
      buffer.Reserve(spec.width);
      var fillSize := spec.width - numberSize;
      if spec.align != AlignLeft {
        PutFill(fillSize, spec.fill);
        last, left, hole := PrepareNumber(numDigits, spec.precision, pre);
        left := FillInFront(was, Rep(spec.fill, fillSize), left, hole, Text());
        right := [];
      } else {
        last, left, hole := PrepareNumber(numDigits, spec.precision, pre);
        ghost var t := Text();
        PutFill(fillSize, spec.fill);
        right := FillBehind(was, left, hole, t, Rep(spec.fill, fillSize));
      }
    }

    /** The nested call: the precision becomes a width to be filled with zeros after the prefix. */
    method PrepareNumber(numDigits: nat, precision: nat, pre: string)
      returns (last: nat, ghost number: string, ghost hole: string)
      requires Valid() && 0 < numDigits < precision
      modifies buffer, buffer.data
      ensures Valid() && (buffer.data == old(buffer.data) || fresh(buffer.data))
      ensures number == pre + Rep('0', precision - numDigits) && |hole| == numDigits
      ensures RoomFor(old(Text()), number, hole, last, [])
      decreases 1, 0
    {
      var subspec := PLAIN.(width := |pre| + precision, fill := '0', align := AlignNumeric);
      ghost var right;
      last, number, hole, right := PrepareIntBuffer(numDigits, subspec, pre);
      PlainSurroundings(numDigits, subspec, pre);
    }

    /** Fill at the end of the text. */
    method PutFill(n: nat, fill: char)
      requires Valid()
      modifies buffer, buffer.data
      ensures Valid() && (buffer.data == old(buffer.data) || fresh(buffer.data))
      ensures Text() == old(Text()) + Rep(fill, n)
    {
      var p, area := GrowBuffer(n);
      Fill(p, n, fill);
    }

    /** The digits of n in the given base, written backwards from index last. */
    method WriteDigits(last: nat, n: nat, base: nat, upper: bool)
      requires Valid() && 2 <= base <= 16 && |Numeral(n, base, upper)| <= last + 1 <= |Text()|
      modifies buffer.data
      ensures Valid()
      ensures var digits := Numeral(n, base, upper);
              Text() == Overwrite(old(Text()), last + 1 - |digits|, digits)
    {
      ghost var before, tail: string := Text(), [];
      var m: nat, p: nat := n, last + 1;
      while m >= base
        invariant Valid() && DecimalText.Written(Text(), before, p, last + 1, tail)
        invariant Numeral(n, base, upper) == Numeral(m, base, upper) + tail
        decreases m
      {
        LastDigit(m, base, upper, tail);
        p, tail := WriteDigit(p, m, base, upper, before, last + 1, tail);
        m := m / base;
      }
      LastDigit(m, base, upper, tail);
      p, tail := WriteDigit(p, m, base, upper, before, last + 1, tail);
    }

    /** One round of the digit loop. */
    method WriteDigit(end: nat, m: nat, base: nat, upper: bool, ghost before: string, ghost stop: nat, ghost tail: string)
      returns (p: nat, ghost longer: string)
      requires Valid() && 2 <= base <= 16 && DecimalText.Written(Text(), before, end, stop, tail) && end > 0
      modifies buffer.data
      ensures Valid() && p == end - 1 && longer == [DigitChar(m % base, upper)] + tail
      ensures DecimalText.Written(Text(), before, p, stop, longer)
    {
      ghost var now := Text();
      p := end - 1;
      var c := DigitChar(m % base, upper);
      buffer.data[p] := c;
      assert Text() == now[..p] + [c] + now[end..];
      DecimalText.WriteMore(now, before, end, stop, tail, [c], Text());
      longer := [c] + tail;
    }

    /** `format_decimal` at an offset of the buffer. */
    method PutDecimal(at: nat, absValue: nat, numDigits: nat)
      requires Valid() && numDigits == NumDigits(absValue) && at + numDigits <= |Text()|
      modifies buffer.data
      ensures Valid() && numDigits == |Decimal(absValue)| && Text() == Overwrite(old(Text()), at, Decimal(absValue))
    {
      DecimalLength(absValue);
      CutOverwrite(buffer.data[..], buffer.size, at, Decimal(absValue));
      DecimalText.FormatDecimal(buffer.data, at, absValue, numDigits);
    }

    method WriteDecimalDigits(absValue: nat, bits: nat, spec: FormatSpec, prefix: string)
      requires Valid() && (bits == 32 || bits == 64) && absValue < Limit(bits)
      modifies buffer, buffer.data
      ensures Valid() && (buffer.data == old(buffer.data) || fresh(buffer.data))
      ensures Text() == old(Text()) + Surrounded(Decimal(absValue), spec, prefix)
    {
      var numDigits := CountDigits(absValue, bits);
      ghost var was, digits := Text(), Decimal(absValue);
      var last;
      ghost var left, hole, right;
      last, left, hole, right := PrepareIntBuffer(numDigits, spec, prefix);
      PutDecimal(last + 1 - numDigits, absValue, numDigits);
      Filled(was, left, hole, right, digits);
    }

    /** `write_decimal` */
    method WriteDecimal(value: int, bits: nat)
      requires Valid() && (bits == 32 || bits == 64)
      requires -Limit(bits) <= 2 * value < 2 * Limit(bits)
      modifies buffer, buffer.data
      ensures Valid() && (buffer.data == old(buffer.data) || fresh(buffer.data))
      ensures Text() == old(Text()) + DecimalText.SignedDecimal(value)
    {
      var absValue := AbsWord(value, Limit(bits));
      var numDigits := CountDigits(absValue, bits);
      var prefixSize := if value < 0 then 1 else 0;
      var at, area := GrowBuffer(prefixSize + numDigits);
      ghost var t1 := Text();
      PutDecimal(at + prefixSize, absValue, numDigits);
      ghost var t2 := Text();
      if value < 0 { Copy(at, "-"); }
      DecimalLaid(old(Text()), area, value < 0, Decimal(absValue), t1, t2);
    }

    method WriteBaseDigits(absValue: nat, base: nat, spec: FormatSpec, prefix: string)
      requires Valid() && 2 <= base <= 16
      modifies buffer, buffer.data
      ensures Valid() && (buffer.data == old(buffer.data) || fresh(buffer.data))
      ensures Text() == old(Text()) + Surrounded(Numeral(absValue, base, spec.typ == 'X'), spec, prefix)
    {
      var numDigits := CountDigitsBase(absValue, base, spec.typ == 'X');
      ghost var digits := Numeral(absValue, base, spec.typ == 'X');
      var last;
      ghost var left, hole, right;
      last, left, hole, right := PrepareIntBuffer(numDigits, spec, prefix);
      WriteDigits(last, absValue, base, spec.typ == 'X');
      Filled(old(Text()), left, hole, right, digits);
    }

    /** `write_int` for an argument of the given width in bits. */
    method WriteInt(value: int, bits: nat, spec: FormatSpec) returns (r: Result<(), string>)
      requires Valid() && (bits == 32 || bits == 64)
      requires -Limit(bits) <= 2 * value < 2 * Limit(bits)
      modifies buffer, buffer.data
      ensures Valid() && (buffer.data == old(buffer.data) || fresh(buffer.data))
      ensures r.Success? <==> BaseOf(spec.typ).Some?
      ensures Text() == if r.Success? then old(Text()) + Formatted(value, spec) else old(Text())
    {
      var absValue := AbsWord(value, Limit(bits));
      var prefix := if value < 0 then "-" else if spec.sign then (if spec.plus then "+" else " ") else "";
      match BaseOf(spec.typ) {
        case None => return Failure("unknown format code");
        case Some(base) =>
          if spec.hash && base != 10 { prefix := prefix + (if base == 8 then "0" else ['0', spec.typ]); }
          assert prefix == Prefix(value < 0, spec);
          if base == 10 {
            WriteDecimalDigits(absValue, bits, spec, prefix);
          } else {
            WriteBaseDigits(absValue, base, spec, prefix);
          }
          return Success(());
      }
    }
  }

  /** 2^bits for the two argument widths. */
  function Limit(bits: nat): int {
    if bits == 32 then UINT32_LIMIT else UINT64_LIMIT
  }

  /** `abs_value = value; if negative, abs_value = 0 - abs_value` in unsigned words. */
  function AbsWord(value: int, limit: int): (r: nat)
    requires limit > 0 && -limit <= 2 * value < 2 * limit
    ensures r == Magnitude(value)
  {
    Bits.ModUnique(value, limit, if value < 0 then -1 else 0, if value < 0 then value + limit else value);
    var word := value % limit;
    Bits.ModUnique(0 - word, limit, if word == 0 then 0 else -1, if word == 0 then 0 else limit - word);
    if value < 0 then (0 - word) % limit else word
  }

  lemma LastDigit(m: nat, base: nat, upper: bool, tail: string)
    requires 2 <= base <= 16
    ensures Numeral(m, base, upper) + tail ==
              (if m < base then [] else Numeral(m / base, base, upper)) + ([DigitChar(m % base, upper)] + tail)
    ensures m >= base ==> 0 <= m / base < m
  {
    DivMod(m, base);
  }

  /** The counting loop `do ++n; while ((value >>= shift) != 0)`. */
  method CountDigitsBase(n: nat, base: nat, ghost upper: bool) returns (count: nat)
    requires 2 <= base <= 16
    ensures count == |Numeral(n, base, upper)|
  {
    var m: nat := n;
    count := 1;
    while m >= base
      invariant count + |Numeral(m, base, upper)| == 1 + |Numeral(n, base, upper)|
      decreases m
    {
      DivMod(m, base);
      count := count + 1;
      m := m / base;
    }
  }

  function CountDigits(n: nat, bits: nat): (r: nat)
    requires (bits == 32 || bits == 64) && n < Limit(bits)
    ensures r == |Decimal(n)| == NumDigits(n)
  {
    DecimalLength(n);
    if bits == 32 then CountDigits32(n) else CountDigits64(n)
  }

  lemma DecimalLaid(was: string, area: string, negative: bool, digits: string, t1: string, t2: string)
    requires |area| == |digits| + (if negative then 1 else 0)
    requires t1 == was + area && t2 == Overwrite(t1, |was| + (if negative then 1 else 0), digits)
    ensures (if negative then Overwrite(t2, |was|, "-") else t2) == was + (if negative then "-" + digits else digits)
  {
  }

  /** The digits go into the hole. */
  lemma Filled(was: string, left: string, hole: string, right: string, digits: string)
    requires |hole| == |digits|
    ensures Overwrite(was + left + hole + right, |was| + |left|, digits) == was + (left + digits + right)
  {
  }

  lemma FillInFront(was: string, fill: string, number: string, hole: string, t: string) returns (left: string)
    requires t == (was + fill) + number + hole + []
    ensures left == fill + number && t == was + left + hole + []
  {
    left := fill + number;
  }

  lemma FillBehind(was: string, left: string, hole: string, t: string, fill: string) returns (right: string)
    requires t == was + left + hole + []
    ensures right == fill && t + fill == was + left + hole + right
  {
    right := fill;
  }

  lemma NoPadding(digits: nat, spec: FormatSpec, prefix: string)
    requires spec.width <= |prefix| + digits
    ensures Plain(digits, spec, prefix) == (prefix, [])
  {
    assert Rep(spec.fill, 0) == [] && [] + prefix == prefix + [] == prefix;
  }

  lemma NoFill(c: char, s: string)
    ensures Rep(c, 0) == [] && [] + s == s
  {
  }

  /** Without a precision beyond the digits, by alignment. */
  ghost function Plain(digits: nat, spec: FormatSpec, prefix: string): (string, string) {
    var padding := Max(0, spec.width - |prefix| - digits);
    match spec.align
    case AlignLeft => (prefix, Rep(spec.fill, padding))
    case AlignCenter => (Rep(spec.fill, padding / 2) + prefix, Rep(spec.fill, padding - padding / 2))
    case AlignNumeric => (prefix + Rep(spec.fill, padding), [])
    case _ => (Rep(spec.fill, padding) + prefix, [])
  }

  lemma PlainSurroundings(digits: nat, spec: FormatSpec, prefix: string)
    requires spec.precision <= digits
    ensures Surroundings(digits, spec, prefix) == Plain(digits, spec, prefix)
  {
    var (a, b, c) := Shares(Max(0, spec.width - |prefix| - digits), spec.align, false);
    assert Surroundings(digits, spec, prefix) == (Rep(spec.fill, a) + prefix + Rep(spec.fill, b) + Rep('0', 0), Rep(spec.fill, c));
    NothingRepeated(spec.fill);
    NothingRepeated('0');
    hide Rep, Surroundings;
    NothingAdded(Rep(spec.fill, a) + prefix);
    NothingAdded(prefix + Rep(spec.fill, b));
    NothingAdded(prefix);
  }

  /** The same for the text as a whole. */
  lemma PlainText(digits: string, spec: FormatSpec, prefix: string)
    requires spec.precision <= |digits|
    ensures var padding := Max(0, spec.width - |prefix| - |digits|);
            Surrounded(digits, spec, prefix) ==
              match spec.align
              case AlignLeft => prefix + digits + Rep(spec.fill, padding)
              case AlignCenter => Rep(spec.fill, padding / 2) + prefix + digits + Rep(spec.fill, padding - padding / 2)
              case AlignNumeric => prefix + Rep(spec.fill, padding) + digits
              case _ => Rep(spec.fill, padding) + prefix + digits
  {
    hide Surroundings, Rep;
    var padding := Max(0, spec.width - |prefix| - |digits|);
    PlainSurroundings(|digits|, spec, prefix);
    NothingAdded(prefix + Rep(spec.fill, padding) + digits);
    NothingAdded(Rep(spec.fill, padding) + prefix + digits);
  }

  lemma NothingRepeated(c: char)
    ensures Rep(c, 0) == []
  {
  }

  lemma NothingAdded(s: string)
    ensures [] + s == s == s + [] == s + [] + []
  {
  }

  /** With one: the zeros belong to the number, the fill goes to one side of it. */
  ghost function Precise(digits: nat, spec: FormatSpec, pre: string): (string, string)
    requires spec.precision > digits
  {
    var fill := Rep(spec.fill, Max(0, spec.width - |pre| - spec.precision));
    var number := pre + Rep('0', spec.precision - digits);
    if spec.align.AlignLeft? then (number, fill) else (fill + number, [])
  }

  lemma PreciseSurroundings(digits: nat, spec: FormatSpec, prefix: string)
    requires spec.precision > digits
    ensures Surroundings(digits, spec, prefix) == Precise(digits, spec, Absorbed(prefix, digits, spec.precision))
  {
    var pre := Absorbed(prefix, digits, spec.precision);
    var zeros := spec.precision - digits;
    var (a, b, c) := Shares(Max(0, spec.width - |pre| - zeros - digits), spec.align, true);
    var (l, r) := Surroundings(digits, spec, prefix);
    assert l == Rep(spec.fill, a) + pre + Rep(spec.fill, b) + Rep('0', zeros) && r == Rep(spec.fill, c);
    assert Rep(spec.fill, 0) == [];
    assert l == Precise(digits, spec, pre).0;
    assert r == Precise(digits, spec, pre).1;
  }

  lemma PreciseText(digits: string, spec: FormatSpec, prefix: string)
    requires spec.precision > |digits|
    ensures var pre := Absorbed(prefix, |digits|, spec.precision);
            var (fill, zeros) := (Rep(spec.fill, Max(0, spec.width - |pre| - spec.precision)), Rep('0', spec.precision - |digits|));
            Surrounded(digits, spec, prefix) ==
              if spec.align.AlignLeft? then (pre + (zeros + digits)) + fill else fill + (pre + (zeros + digits))
  {
    hide Surroundings, Rep, Absorbed;
    var pre := Absorbed(prefix, |digits|, spec.precision);
    var fill, zeros := Rep(spec.fill, Max(0, spec.width - |pre| - spec.precision)), Rep('0', spec.precision - |digits|);
    PreciseSurroundings(|digits|, spec, prefix);
    PreciseSides(fill, pre, zeros, digits);
  }

  lemma PreciseSides(fill: string, pre: string, zeros: string, digits: string)
    ensures (fill + (pre + zeros)) + digits + [] == fill + (pre + (zeros + digits))
    ensures (pre + zeros) + digits + fill == (pre + (zeros + digits)) + fill
  {
  }
}
