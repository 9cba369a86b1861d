/**
 Integer conversions beside the C standard: the output is that of fprintf as section 7.21.6.1 of ISO/IEC 9899:2011
 defines it, exactly under a condition on flags, width and precision.
 */
module PrintfStandard {
  import opened Wrappers
  import opened ArgList
  import opened FormatSpecs
  import opened Numerals
  import opened FormatterSpec
  import opened MemoryBuffer
  import opened IntWriter
  import opened PrintfSpec
  import opened PrintfSyntax
  import opened PrintfTemplate
  import opened PrintfStars
  import DecimalText
  import Template

  // ----- the standard

  /** Flags and length modifier bear on the conversion: signs on signed ones, `#` on octal and hexadecimal ones. */
  ghost predicate Standard(x: Form) {
    && Integral(x)
    && ('+' in x.flags || ' ' in x.flags ==> x.letter == 'd' || x.letter == 'i')
    && ('#' in x.flags ==> x.letter == 'o' || x.letter == 'x' || x.letter == 'X')
    && !x.modifier.LongDouble?
  }

  function MinWidth(x: Form): nat {
    if x.width.Digits? then x.width.n else 0
  }

  function Base(x: Form): (b: nat)
    ensures b == 8 || b == 10 || b == 16
  {
    if x.letter == 'o' then 8 else if x.letter == 'x' || x.letter == 'X' then 16 else 10
  }

  function DigitsOf(x: Form, v: int): string {
    Numeral(Magnitude(v), Base(x), x.letter == 'X')
  }

  function Sign(x: Form, v: int): string {
    if v < 0 then "-" else if '+' in x.flags then "+" else if ' ' in x.flags then " " else ""
  }

  function HexPrefix(x: Form, shown: bool): string {
    if shown && x.letter == 'x' then "0x" else if shown && x.letter == 'X' then "0X" else ""
  }

  /** How many digits there have to be at least; one when nothing is said. */
  function MinDigits(x: Form): nat {
    match x.precision case DotDigits(n) => n case Dot => 0 case _ => 1
  }

  /** The digits: zero has none of its own; `#` makes sure that octal ones begin with a zero. */
  function StandardNumber(x: Form, v: int): string {
    var digits := if v == 0 then "" else DigitsOf(x, v);
    var number := Rep('0', Max(0, MinDigits(x) - |digits|)) + digits;
    if '#' in x.flags && x.letter == 'o' && (number == "" || number[0] != '0') then "0" + number else number
  }

  function StandardHead(x: Form, v: int): string {
    Sign(x, v) + HexPrefix(x, '#' in x.flags && v != 0)
  }

  /** What fprintf prints for a value of the type that the directive asks for. */
  function StandardText(x: Form, v: int): string {
    var head, number := StandardHead(x, v), StandardNumber(x, v);
    var padding := Max(0, MinWidth(x) - |head + number|);
    if '-' in x.flags then (head + number) + Rep(' ', padding)
    else if '0' in x.flags && x.precision.NoPrecision? then head + (Rep('0', padding) + number)
    else Rep(' ', padding) + (head + number)
  }

  // ----- the formatter's text in the same terms

  function Asked(x: Form): int {
    if x.precision.DotDigits? then x.precision.n else -1
  }

  /** The digits with the zeros in front of them. */
  function NumberOf(x: Form, v: int, shown: bool): string {
    var digits := DigitsOf(x, v);
    Rep('0', Max(if shown && x.letter == 'o' then 1 else 0, Asked(x) - |digits|)) + digits
  }

  function HeadOf(x: Form, v: int, shown: bool): string {
    Sign(x, v) + HexPrefix(x, shown)
  }

  function TextOf(x: Form, v: int, shown: bool): string {
    var head, number := HeadOf(x, v, shown), NumberOf(x, v, shown);
    var padding := Max(0, MinWidth(x) - |head + number|);
    if '0' !in x.flags then
      if '-' in x.flags then (head + number) + Rep(' ', padding) else Rep(' ', padding) + (head + number)
    else if Asked(x) > |DigitsOf(x, v)| then Rep('0', padding) + (head + number)
    else head + (Rep('0', padding) + number)
  }

  /** `#` counts for an argument other than zero. */
  predicate Shown(x: Form, arg: FormatArg)
    requires arg.value.Number?
  {
    '#' in x.flags && arg.value.n != 0
  }

  /** The specification an integer is written under. */
  function Spec(x: Form, shown: bool): FormatSpec {
    FormatSpec(MinWidth(x), if '0' in x.flags then '0' else ' ',
               if '0' in x.flags then AlignNumeric else if '-' in x.flags then AlignLeft else AlignRight,
               '+' in x.flags || ' ' in x.flags, '+' in x.flags, false, shown, Asked(x), LetterOf(x))
  }

  lemma AdjustedSpec(x: Form, arg: FormatArg)
    requires Integral(x) && IsInt(arg)
    ensures Adjust(SpecOf(x), arg).(typ := LetterOf(x)) == Spec(x, Shown(x, arg))
  {
    hide Folded, LegalForm;
    FlagsMean(x.flags);
  }

  lemma PrefixIs(x: Form, v: int, shown: bool)
    requires Standard(x) && (shown ==> '#' in x.flags)
    ensures Prefix(v < 0, Spec(x, shown)) == HeadOf(x, v, shown) + if shown && x.letter == 'o' then "0" else ""
    ensures HeadOf(x, v, shown) != "" ==> HeadOf(x, v, shown)[|HeadOf(x, v, shown)| - 1] != '0'
  {
    hide LegalForm;
  }

  lemma ZerosCommute(k: nat, s: string)
    ensures "0" + (Rep('0', k) + s) == Rep('0', k) + ("0" + s) && Rep('0', 1) == "0" && Rep('0', 0) == ""
  {
  }

  lemma TextWithPrecision(x: Form, v: int, shown: bool)
    requires Asked(x) > |DigitsOf(x, v)|
    ensures var (head, number) := (HeadOf(x, v, shown), Rep('0', Asked(x) - |DigitsOf(x, v)|) + DigitsOf(x, v));
            var padding := Max(0, MinWidth(x) - |head| - Asked(x));
            TextOf(x, v, shown) ==
              if '0' !in x.flags && '-' in x.flags then (head + number) + Rep(' ', padding)
              else Rep(if '0' in x.flags then '0' else ' ', padding) + (head + number)
  {
    hide HeadOf, DigitsOf, Rep;
    RepLength('0', Asked(x) - |DigitsOf(x, v)|);
  }

  lemma WithPrecision(x: Form, v: int, shown: bool)
    requires Standard(x) && (shown ==> '#' in x.flags) && Asked(x) > |DigitsOf(x, v)|
    ensures Surrounded(DigitsOf(x, v), Spec(x, shown), Prefix(v < 0, Spec(x, shown))) == TextOf(x, v, shown)
  {
    hide Standard, HeadOf, DigitsOf, Surrounded, Prefix, Rep, TextOf, Absorbed, LetterOf;
    var head, spec := HeadOf(x, v, shown), Spec(x, shown);
    PrefixIs(x, v, shown);
    PrefixAbsorbed(head, if shown && x.letter == 'o' then "0" else "", |DigitsOf(x, v)|, Asked(x));
    PreciseText(DigitsOf(x, v), spec, Prefix(v < 0, spec));
    TextWithPrecision(x, v, shown);
  }

  lemma PrefixAbsorbed(head: string, zero: string, digits: nat, precision: int)
    requires precision > digits && (zero == "" || zero == "0") && (head != "" ==> head[|head| - 1] != '0')
    ensures Absorbed(head + zero, digits, precision) == head
  {
    assert (head + "0")[..|head|] == head && head + "" == head;
  }

  lemma RepLength(c: char, k: nat)
    ensures |Rep(c, k)| == k
  {
  }

  lemma WithoutPrecision(x: Form, v: int, shown: bool)
    requires Standard(x) && (shown ==> '#' in x.flags) && Asked(x) <= |DigitsOf(x, v)|
    ensures Surrounded(DigitsOf(x, v), Spec(x, shown), Prefix(v < 0, Spec(x, shown))) == TextOf(x, v, shown)
  {
    hide Standard, HeadOf, DigitsOf, Surrounded, Prefix, Rep;
    var digits, head, spec := DigitsOf(x, v), HeadOf(x, v, shown), Spec(x, shown);
    var zero := if shown && x.letter == 'o' then "0" else "";
    var padding := Max(0, MinWidth(x) - |head + zero| - |digits|);
    PrefixIs(x, v, shown);
    PlainText(digits, spec, head + zero);
    ZerosCommute(padding, digits);
    assert NumberOf(x, v, shown) == zero + digits;
    LaidWithZero(Rep(spec.fill, padding), head, zero, digits);
  }

  lemma LaidWithZero(fill: string, head: string, zero: string, digits: string)
    ensures fill + (head + zero) + digits == fill + (head + (zero + digits))
    ensures (head + zero) + digits + fill == (head + (zero + digits)) + fill
    ensures (head + zero) + fill + digits == head + (zero + (fill + digits))
    ensures zero == "" ==> zero + (fill + digits) == fill + (zero + digits)
  {
  }

  /** What the formatter prints, in these terms. */
  lemma IntegerTextIs(x: Form, arg: FormatArg)
    requires Standard(x) && IsInt(arg) && arg.typ <= ULONG_LONG
    ensures BaseOf(LetterOf(x)).Some? && Converted(x.modifier, arg, x.letter).value.Number?
    ensures IntegerText(x, arg) == TextOf(x, Converted(x.modifier, arg, x.letter).value.n, Shown(x, arg))
  {
    hide Converted, Adjust, SpecOf, Surrounded, Prefix, TextOf, LegalForm;
    ConvertedIsInteger(x.modifier, arg, x.letter);
    var v, shown := Converted(x.modifier, arg, x.letter).value.n, Shown(x, arg);
    AdjustedSpec(x, arg);
    if Asked(x) > |DigitsOf(x, v)| { WithPrecision(x, v, shown); } else { WithoutPrecision(x, v, shown); }
  }

  // ----- where they part

  /** Zero under precision zero, which the standard prints as nothing, but for the octal zero of `#`. */
  predicate PrintsNothing(x: Form, v: int) {
    v == 0 && MinDigits(x) == 0 && !('#' in x.flags && x.letter == 'o')
  }

  /** The argument is not zero, but what the conversion keeps of it is. */
  predicate Vanishes(x: Form, v: int, arg: FormatArg)
    requires arg.value.Number?
  {
    v == 0 && Shown(x, arg)
  }

  lemma ZeroDigits(x: Form)
    ensures DigitsOf(x, 0) == "0"
  {
  }

  lemma DigitsStart(x: Form, v: int)
    ensures var digits := DigitsOf(x, v);
            && (v != 0 ==> digits[0] != '0') && digits[0] != ' '
            && digits[|digits| - 1] != ' ' && digits[|digits| - 1] != 'x' && digits[|digits| - 1] != 'X'
    ensures forall i :: 0 <= i < |DigitsOf(x, v)| ==> DigitsOf(x, v)[i] != 'x' && DigitsOf(x, v)[i] != 'X'
  {
    hide Numeral;
    NumeralCase(Magnitude(v), Base(x), x.letter == 'X');
    NoLeadingZero(Magnitude(v), Base(x), x.letter == 'X');
  }

  lemma OneMoreZero(k: nat)
    ensures Rep('0', k) + "0" == Rep('0', k + 1) && Rep('0', k + 1)[0] == '0' && |Rep('0', k)| == k
  {
  }

  lemma SameNumber(x: Form, v: int, shown: bool)
    requires Integral(x) && (v != 0 ==> shown == ('#' in x.flags)) && (shown ==> '#' in x.flags)
    requires !PrintsNothing(x, v) && (v == 0 && shown ==> x.letter == 'o' && Asked(x) > 1)
    ensures StandardNumber(x, v) == NumberOf(x, v, shown)
  {
    hide DigitsOf, LegalForm, Rep;
    var digits := DigitsOf(x, v);
    ZerosCommute(0, digits);
    DigitsNotEmpty(x, v);
    if v != 0 {
      DigitsStart(x, v);
      var zeros := Max(0, MinDigits(x) - |digits|);
      RepLength('0', zeros);
      if zeros > 0 { OneMoreZero(zeros - 1); }
      assert "" + digits == digits;
    } else {
      ZeroDigits(x);
      OneMoreZero(Max(0, MinDigits(x) - 1));
      OneMoreZero(0);
      assert Rep('0', Max(0, MinDigits(x))) + "" == Rep('0', Max(0, MinDigits(x)));
    }
  }

  lemma SameHead(x: Form, v: int, shown: bool)
    requires (v != 0 ==> shown == ('#' in x.flags)) && (v == 0 && shown ==> x.letter == 'o')
    ensures StandardHead(x, v) == HeadOf(x, v, shown)
  {
  }

  lemma PaddingsDiffer(head: string, number: string, k: nat)
    requires k > 0 && number != "" && number[|number| - 1] != ' ' && (head != "" ==> head[0] != ' ' || |head| == 1)
    ensures (head + number) + Rep(' ', k) != Rep('0', k) + (head + number)
    ensures (head + number) + Rep(' ', k) != head + (Rep('0', k) + number)
    ensures Rep(' ', k) + (head + number) != Rep('0', k) + (head + number)
    ensures Rep(' ', k) + (head + number) != head + (Rep('0', k) + number)
  {
    var left, right := (head + number) + Rep(' ', k), Rep(' ', k) + (head + number);
    var n := |head + number|;
    assert left[n + k - 1] == ' ';
    assert (Rep('0', k) + (head + number))[n + k - 1] == number[|number| - 1];
    assert (head + (Rep('0', k) + number))[n + k - 1] == number[|number| - 1];
    assert right[0] == ' ' && (Rep('0', k) + (head + number))[0] == '0';
    if head == "" {
      assert (head + (Rep('0', k) + number))[0] == '0';
    } else if head[0] != ' ' {
      assert (head + (Rep('0', k) + number))[0] == head[0];
    } else {
      assert (head + (Rep('0', k) + number))[1] == '0';
      assert right[1] == ' ';
    }
  }

  /** A `0` flag means zeros only without `-` and without a precision; the formatter takes it to mean them always. */
  predicate PadsAlike(x: Form, v: int) {
    MinWidth(x) > |StandardHead(x, v) + StandardNumber(x, v)| && '0' in x.flags ==> '-' !in x.flags && x.precision.NoPrecision?
  }

  lemma NumberEnds(x: Form, v: int, shown: bool)
    ensures var number := NumberOf(x, v, shown); number != "" && number[|number| - 1] != ' '
  {
    hide DigitsOf, Rep;
    DigitsNotEmpty(x, v);
    DigitsStart(x, v);
    var zeros := Rep('0', Max(if shown && x.letter == 'o' then 1 else 0, Asked(x) - |DigitsOf(x, v)|));
    assert (zeros + DigitsOf(x, v))[|zeros + DigitsOf(x, v)| - 1] == DigitsOf(x, v)[|DigitsOf(x, v)| - 1];
  }

  lemma HeadStarts(x: Form, v: int, shown: bool)
    requires Standard(x) && (shown ==> '#' in x.flags)
    ensures var head := HeadOf(x, v, shown); head != "" ==> head[0] != ' ' || |head| == 1
  {
    hide LegalForm;
  }

  lemma SamePartsCompared(x: Form, v: int, shown: bool)
    requires Standard(x) && (shown ==> '#' in x.flags)
    requires StandardHead(x, v) == HeadOf(x, v, shown) && StandardNumber(x, v) == NumberOf(x, v, shown)
    ensures StandardText(x, v) == TextOf(x, v, shown) <==> PadsAlike(x, v)
  {
    hide Standard, StandardHead, StandardNumber, HeadOf, NumberOf, DigitsOf, Rep;
    var head, number := HeadOf(x, v, shown), NumberOf(x, v, shown);
    var padding := Max(0, MinWidth(x) - |head + number|);
    NumberEnds(x, v, shown);
    HeadStarts(x, v, shown);
    if padding > 0 {
      PaddingsDiffer(head, number, padding);
    } else {
      NothingPadded(head, number);
    }
    DigitsNotEmpty(x, v);
  }

  lemma NothingPadded(head: string, number: string)
    ensures forall c: char :: Rep(c, 0) == ""
    ensures (head + number) + "" == head + number == "" + (head + number) == head + ("" + number)
  {
  }

  lemma DigitsNotEmpty(x: Form, v: int)
    ensures |DigitsOf(x, v)| >= 1
  {
  }

  lemma NoneAmong(c: char, text: string, k: nat)
    requires c != ' ' && c !in text
    ensures c !in text + Rep(' ', k) && c !in Rep(' ', k) + text
  {
  }

  /** Printed nothing by the standard, a zero by the formatter. */
  lemma NothingIsNotZero(x: Form, shown: bool)
    requires Standard(x) && PrintsNothing(x, 0)
    ensures StandardText(x, 0) != TextOf(x, 0, shown)
  {
    hide LegalForm;
    ZeroDigits(x);
    assert StandardHead(x, 0) == Sign(x, 0) && StandardNumber(x, 0) == "" && '0' !in Sign(x, 0) + "";
    hide StandardHead, StandardNumber, DigitsOf, Rep;
    NoneAmong('0', Sign(x, 0) + "", Max(0, MinWidth(x) - |Sign(x, 0) + ""|));
    assert '0' !in StandardText(x, 0);
    ZeroAmong(x, shown);
  }

  lemma ZeroAmong(x: Form, shown: bool)
    ensures '0' in TextOf(x, 0, shown)
  {
    hide HeadOf, DigitsOf, Rep;
    ZeroDigits(x);
    var head, number := HeadOf(x, 0, shown), NumberOf(x, 0, shown);
    assert number[|number| - 1] == '0';
    assert '0' in number;
    assert '0' in head + number;
  }

  /** The prefix of a number that has vanished. */
  lemma PrefixOfNothing(x: Form, v: int)
    requires Standard(x) && v == 0 && x.letter != 'o' && '#' in x.flags
    ensures StandardText(x, v) != TextOf(x, v, true)
  {
    hide LegalForm;
    var c := if x.letter == 'x' then 'x' else 'X';
    assert c in HeadOf(x, v, true);
    assert c in TextOf(x, v, true) by { hide HeadOf, NumberOf, DigitsOf, Rep; }
    assert StandardHead(x, v) == "" && StandardNumber(x, v) == Rep('0', MinDigits(x)) by {
      assert Rep('0', MinDigits(x)) + "" == Rep('0', MinDigits(x));
    }
    OnlyZeros(x, v, c);
  }

  lemma OnlyZeros(x: Form, v: int, c: char)
    requires StandardHead(x, v) == "" && StandardNumber(x, v) == Rep('0', MinDigits(x)) && c != '0' && c != ' '
    ensures c !in StandardText(x, v)
  {
    hide StandardHead, StandardNumber;
  }

  /** Two octal zeros where the standard has one: only zero padding to two places and more hides the difference. */
  lemma TwoZeros(x: Form, v: int)
    requires Standard(x) && v == 0 && x.letter == 'o' && '#' in x.flags && Asked(x) <= 1
    ensures StandardText(x, v) == TextOf(x, v, true)
       <==> MinWidth(x) >= 2 && '0' in x.flags && '-' !in x.flags && x.precision.NoPrecision?
  {
    hide LegalForm;
    ZeroDigits(x);
    OneMoreZero(0);
    assert StandardHead(x, v) == "" && HeadOf(x, v, true) == "";
    assert StandardNumber(x, v) == "0" && NumberOf(x, v, true) == "00";
    TwoZerosPadded(x, v);
  }

  lemma TwoZerosPadded(x: Form, v: int)
    requires StandardHead(x, v) == "" && HeadOf(x, v, true) == "" && Asked(x) <= |DigitsOf(x, v)|
    requires StandardNumber(x, v) == "0" && NumberOf(x, v, true) == "00"
    ensures StandardText(x, v) == TextOf(x, v, true)
       <==> MinWidth(x) >= 2 && '0' in x.flags && '-' !in x.flags && x.precision.NoPrecision?
  {
    hide StandardHead, StandardNumber, HeadOf, NumberOf, DigitsOf;
    var w, standard, text := MinWidth(x), StandardText(x, v), TextOf(x, v, true);
    Empty("0");
    Empty("00");
    if w < 2 {
      assert |standard| < 2 && |text| == 2;
    } else {
      RepLength(' ', w - 1);
      RepLength(' ', w - 2);
      AllTheSame(w - 2);
      if '-' in x.flags {
        assert standard[1] == ' ' && text[1] == '0';
      } else if '0' !in x.flags {
        assert standard[w - 2] == ' ' && text[w - 2] == '0';
      } else if !x.precision.NoPrecision? {
        assert standard[0] == ' ' && text[0] == '0';
      }
    }
  }

  lemma Empty(s: string)
    ensures "" + s == s + "" == s
  {
  }

  lemma AllTheSame(k: nat)
    ensures Rep('0', k + 1) + "0" == Rep('0', k) + "00"
  {
  }

  // ----- the comparison

  /**
   When the formatter prints what the standard asks for: not for a zero that is to print nothing; not for `#` with a
   number of which the conversion keeps nothing, but where the octal zero is hidden; not for padding under a `0`
   flag together with `-` or a precision.
   */
  predicate AsStandard(x: Form, v: int, arg: FormatArg)
    requires arg.value.Number?
  {
    && !PrintsNothing(x, v)
    && (Vanishes(x, v, arg) ==>
          x.letter == 'o' && (Asked(x) > 1 || (MinWidth(x) >= 2 && '0' in x.flags && '-' !in x.flags && x.precision.NoPrecision?)))
    && PadsAlike(x, v)
  }

  lemma ZeroStaysZero(m: Modifier, arg: FormatArg, letter: char)
    requires IsInt(arg) && arg.typ <= ULONG_LONG && arg.value.n == 0
    ensures Converted(m, arg, letter).value == FormatterSpec.Number(0)
  {
  }

  lemma TextsCompared(x: Form, v: int, arg: FormatArg)
    requires Standard(x) && arg.value.Number? && (arg.value.n == 0 ==> v == 0)
    ensures StandardText(x, v) == TextOf(x, v, Shown(x, arg)) <==> AsStandard(x, v, arg)
  {
    hide Standard, StandardText, TextOf, PadsAlike, LegalForm;
    var shown := Shown(x, arg);
    StandardKnows(x);
    if PrintsNothing(x, v) {
      NothingIsNotZero(x, shown);
    } else if v == 0 && shown && x.letter != 'o' {
      PrefixOfNothing(x, v);
    } else if v == 0 && shown && Asked(x) <= 1 {
      TwoZeros(x, v);
      PadsWithZeros(x, v);
    } else {
      SameHead(x, v, shown);
      SameNumber(x, v, shown);
      SamePartsCompared(x, v, shown);
    }
  }

  lemma StandardKnows(x: Form)
    requires Standard(x)
    ensures Integral(x) && ('#' in x.flags ==> x.letter == 'o' || x.letter == 'x' || x.letter == 'X')
  {
  }

  lemma PadsWithZeros(x: Form, v: int)
    ensures '-' !in x.flags && x.precision.NoPrecision? ==> PadsAlike(x, v)
  {
  }

  /**
   printf beside the C standard: for every integer conversion with the flags, width, precision and length modifiers
   that the standard allows it, anywhere in a format string, the output is fprintf's for the converted value if and
   only if AsStandard holds.
   */
  lemma PrintsAsStandard(before: string, x: Form, after: string, n: int, typ: nat)
    requires Standard(x) && INT <= typ <= ULONG_LONG && '\0' !in before && '\0' !in after
    ensures LegalForm(x) && Converted(x.modifier, Arg(FormatterSpec.Number(n), typ), x.letter).value.Number?
    ensures var arg: FormatArg := Arg(FormatterSpec.Number(n), typ);
            var v := Converted(x.modifier, arg, x.letter).value.n;
            var r := PrintfOutput(DoublePercents(before) + ("%" + PrintForm(x)) + DoublePercents(after),
                                  Cursor(0, START), [arg], Template.WriteInteger);
            && r.Success?
            && (r.value.0 == before + StandardText(x, v) + after <==> AsStandard(x, v, arg))
  {
    hide PrintForm, DoublePercents, Converted, PrintfOutput, IntegerText, StandardText, TextOf, LegalForm, AsStandard, RefOf;
    var arg: FormatArg := Arg(FormatterSpec.Number(n), typ);
    IntegerPrinted(before, x, after, n, typ);
    IntegerTextIs(x, arg);
    if n == 0 { ZeroStaysZero(x.modifier, arg, x.letter); }
    var v := Converted(x.modifier, arg, x.letter).value.n;
    TextsCompared(x, v, arg);
    SameMiddle(before, StandardText(x, v), IntegerText(x, arg), after);
  }

  lemma SameMiddle(before: string, a: string, b: string, after: string)
    ensures before + b + after == before + a + after <==> a == b
  {
    if before + b + after == before + a + after {
      assert a == (before + a + after)[|before|..|before| + |a|];
      assert b == (before + b + after)[|before|..|before| + |b|];
    }
  }

  /** Zeros that overrule `-`: where fprintf prints 42 and three blanks. */
  lemma ZerosOverruleMinus()
    ensures var x, arg := Form(None, "-0", WidthForm.Digits(5), NoPrecision, NoModifier, 'd'), Arg(FormatterSpec.Number(42), INT);
            Standard(x) && !AsStandard(x, 42, arg) && TextOf(x, 42, false) == "00042" && StandardText(x, 42) == "42   "
  {
    hide DigitsOf, Rep;
    var x := Form(None, "-0", WidthForm.Digits(5), NoPrecision, NoModifier, 'd');
    FortyTwo(x);
    Threefold();
    assert NumberOf(x, 42, false) == "" + "42" == "42" && HeadOf(x, 42, false) == "" + "" == "";
    assert StandardNumber(x, 42) == "" + "42" == "42" && StandardHead(x, 42) == "" + "" == "";
    hide HeadOf, NumberOf, StandardHead, StandardNumber;
    assert "" + ("000" + "42") == "00042" && ("" + "42") + "   " == "42   ";
  }

  lemma FortyTwo(x: Form)
    requires x.letter == 'd'
    ensures DigitsOf(x, 42) == "42"
  {
    assert Numeral(4, 10, false) == "4";
  }

  lemma Threefold()
    ensures Rep('0', 3) == "000" && Rep(' ', 3) == "   " && Rep('0', 0) == ""
  {
  }

  // ----- length modifiers

  function SizeOf(m: Modifier): Size {
    match m case HH => Bits8 case H => Bits16 case NoModifier => Bits32 case _ => Bits64
  }

  /**
   The length modifiers by their sizes: bare decimal directives print what is left of the value in 8, 16 or 32 bits;
   in 64 bits the value itself, unless it is negative and held in 32, or too large for a signed type.
   */
  lemma ModifiersSize(m: Modifier, n: int, typ: nat)
    requires INT <= typ <= ULONG_LONG && !m.LongDouble?
    requires InRange(n, OwnSize(typ), typ != UINT && typ != ULONG_LONG)
    ensures var (r, size) := (PrintfOutput("%" + PrintModifier(m) + "d", Cursor(0, START), [Arg(FormatterSpec.Number(n), typ)],
                                           Template.WriteInteger), SizeOf(m));
            && r.Success?
            && (!size.Bits64? ==> r.value.0 == DecimalText.SignedDecimal(Wrap(n, Modulus(size))))
            && (size.Bits64? && InRange(n, Bits64, true) && (n < 0 ==> OwnSize(typ).Bits64?) ==>
                  r.value.0 == DecimalText.SignedDecimal(n))
  {
    hide PrintfOutput, PrintForm, Wrap;
    var arg: FormatArg := Arg(FormatterSpec.Number(n), typ);
    DecimalPrinted("", m, 'd', "", n, typ);
    DecimalSpelled(m);
    var text := DecimalText.SignedDecimal(Converted(m, arg, 'd').value.n);
    assert "" + text + "" == text;
    if SizeOf(m).Bits64? { WideConversion(arg, 'd'); }
  }

  lemma DecimalSpelled(m: Modifier)
    ensures DoublePercents("") + ("%" + PrintForm(Decimals(m, 'd'))) + DoublePercents("") == "%" + PrintModifier(m) + "d"
  {
    var end := PrintModifier(m) + "d";
    assert PrintForm(Decimals(m, 'd')) == ("" + ("" + "")) + ("" + end) == end;
    assert DoublePercents("") == "" && "" + ("%" + end) + "" == "%" + end;
  }
}
