/** The printf format language: what a format string means, conversions to C integer types included. */
module PrintfSpec {
  import opened Wrappers
  import Bits
  import opened ArgList
  import opened DigitCount
  import opened FormatSpecs
  import opened Numerals
  import opened ParseInt
  import opened FormatterSpec

  // ----- integer conversions

  predicate IsInt(arg: FormatArg) {
    INT <= arg.typ <= CHAR && arg.value.Number?
  }

  /** What a two's-complement type with m values keeps of n. */
  function Wrap(n: int, m: nat): int
    requires m >= 2 && m % 2 == 0
  {
    if n % m < m / 2 then n % m else n % m - m
  }

  datatype Size = Bits8 | Bits16 | Bits32 | Bits64

  function Modulus(size: Size): (m: nat)
    ensures m >= 256 && m % 2 == 0
  {
    match size
    case Bits8 => 0x100
    case Bits16 => 0x1_0000
    case Bits32 => 0x1_0000_0000
    case Bits64 => 0x1_0000_0000_0000_0000
  }

  predicate SignedLetter(letter: char) {
    letter == 'd' || letter == 'i'
  }

  /** `MakeUnsigned` of the argument's own type: bool, char and int arguments are held in 32 bits. */
  function OwnSize(typ: nat): Size {
    if typ == LONG_LONG || typ == ULONG_LONG then Bits64 else Bits32
  }

  /** `ArgConverter`: an integer argument becomes the type that length and conversion letter ask for. */
  function Convert(arg: FormatArg, size: Size, letter: char): FormatArg {
    if !IsInt(arg) || (arg.typ == BOOL && letter == 's') then arg
    else if !size.Bits64? then
      if SignedLetter(letter) then Arg(Number(Wrap(arg.value.n, Modulus(size))), INT)
      else Arg(Number(arg.value.n % Modulus(size)), UINT)
    else
      var u := arg.value.n % Modulus(OwnSize(arg.typ));
      if SignedLetter(letter) then Arg(Number(Wrap(u, Modulus(Bits64))), LONG_LONG) else Arg(Number(u), ULONG_LONG)
  }

  /** The values of a type of the given size. */
  predicate InRange(n: int, size: Size, signed: bool) {
    if signed then 0 - Modulus(size) / 2 <= n < Modulus(size) / 2 else 0 <= n < Modulus(size)
  }

  lemma WrapKeeps(n: int, m: nat)
    requires m >= 2 && m % 2 == 0
    ensures Wrap(n, m) % m == n % m && 0 - m / 2 <= Wrap(n, m) < m / 2
    ensures 0 - m / 2 <= n < m / 2 ==> Wrap(n, m) == n
  {
    var r := n % m;
    if r >= m / 2 { Bits.ModUnique(r - m, m, -1, r); } else { Bits.ModUnique(r, m, 0, r); }
    if 0 <= n < m { Bits.ModUnique(n, m, 0, n); }
    if 0 - m <= n < 0 { Bits.ModUnique(n, m, -1, n + m); }
  }

  /**
   A conversion to 32 bits or fewer keeps the value modulo the size of the type asked for and lands in
   that type; values that fit are unchanged.
   */
  lemma NarrowConversion(arg: FormatArg, size: Size, letter: char)
    requires IsInt(arg) && !size.Bits64? && !(arg.typ == BOOL && letter == 's')
    ensures var c, n := Convert(arg, size, letter), arg.value.n;
            && c.value.Number? && c.value.n % Modulus(size) == n % Modulus(size)
            && InRange(c.value.n, size, SignedLetter(letter))
            && (InRange(n, size, SignedLetter(letter)) ==> c.value.n == n)
  {
    var n, m := arg.value.n, Modulus(size);
    WrapKeeps(n, m);
    Bits.ModUnique(n % m, m, 0, n % m);
    if 0 <= n < m { Bits.ModUnique(n, m, 0, n); }
  }

  /**
   A conversion to 64 bits keeps the value exactly when it fits the type asked for and is not a negative
   value of a 32-bit type, which is zero-extended.
   */
  lemma WideConversion(arg: FormatArg, letter: char)
    requires IsInt(arg) && !(arg.typ == BOOL && letter == 's')
    requires InRange(arg.value.n, OwnSize(arg.typ), arg.typ != UINT && arg.typ != ULONG_LONG)
    ensures var c, n := Convert(arg, Bits64, letter), arg.value.n;
            && c.value.Number?
            && (c.value.n == n <==> InRange(n, Bits64, SignedLetter(letter)) && (n < 0 ==> OwnSize(arg.typ).Bits64?))
            && (n < 0 && OwnSize(arg.typ).Bits32? ==> c.value.n == n + Modulus(Bits32))
  {
    var n, own, m := arg.value.n, Modulus(OwnSize(arg.typ)), Modulus(Bits64);
    if n < 0 { Bits.ModUnique(n, own, -1, n + own); } else { Bits.ModUnique(n, own, 0, n); }
    WrapKeeps(n % own, m);
    WrapKeeps(n, m);
    if n < 0 && own == m { Bits.ModUnique(n, m, -1, n + m); } else { Bits.ModUnique(n % own, m, 0, n % own); }
  }

  /** Other arguments stay as they are, and so does a bool under `s`; converted ones have the type asked for. */
  lemma ConversionType(arg: FormatArg, size: Size, letter: char)
    ensures var c := Convert(arg, size, letter);
            if !IsInt(arg) || (arg.typ == BOOL && letter == 's') then c == arg
            else c.value.Number? && c.typ == (if letter == 'd' || letter == 'i' then if size == Bits64 then LONG_LONG else INT
                                              else if size == Bits64 then ULONG_LONG else UINT)
  {
  }

  // ----- the parts of a directive

  const UINT_MAX: nat := UINT32_LIMIT - 1

  /** A directive starts out right-aligned. */
  const RIGHT := PLAIN.(align := AlignRight)

  function Flags(f: string, s: nat, spec: FormatSpec): (r: (FormatSpec, nat))
    requires s <= |f|
    ensures s <= r.1 <= |f|
    decreases |f| - s
  {
    match CharAt(f, s)
    case '-' => Flags(f, s + 1, spec.(align := AlignLeft))
    case '+' => Flags(f, s + 1, spec.(sign := true, plus := true))
    case '0' => Flags(f, s + 1, spec.(fill := '0'))
    case ' ' => Flags(f, s + 1, spec.(sign := true))
    case '#' => Flags(f, s + 1, spec.(hash := true))
    case _ => (spec, s)
  }

  /** The next argument, or the one with a 1-based index; index 0 wraps to the largest `unsigned`. */
  ghost function Argument(f: string, c: Cursor, index: Option<nat>, args: seq<FormatArg>): (r: Result<(FormatArg, Cursor), string>)
    requires At(f, c)
    ensures r.Success? ==> At(f, r.value.1) && r.value.1.pos == c.pos
  {
    var got := if index.None? then NextArg(args, c.ix)
               else GetArg(args, if index.value == 0 then UINT_MAX else index.value - 1, c.ix);
    match got
    case Failure(e) => Failure(if CharAt(f, c.pos) == '\0' then "invalid format string" else e)
    case Success((arg, ix)) => Success((arg, Cursor(c.pos, ix)))
  }

  /** `WidthHandler`: a negative width means left alignment. */
  function StarWidth(arg: FormatArg, spec: FormatSpec): Result<FormatSpec, string> {
    if !IsInt(arg) then Failure("width is not integer")
    else
      var n := arg.value.n;
      var width := if n < 0 then -n else n;
      if width > INT_MAX then Failure(TOO_BIG)
      else Success(spec.(width := width, align := if n < 0 then AlignLeft else spec.align))
  }

  /** `PrecisionHandler` */
  function StarPrecision(arg: FormatArg): Result<int, string> {
    if !IsInt(arg) then Failure("precision is not integer")
    else if !(-INT_MAX - 1 <= arg.value.n <= INT_MAX) then Failure(TOO_BIG)
    else Success(arg.value.n)
  }

  /** Digits or `*`. */
  ghost function Width(f: string, c: Cursor, args: seq<FormatArg>, spec: FormatSpec): (r: Result<(FormatSpec, Cursor), string>)
    requires At(f, c)
    ensures r.Success? ==> At(f, r.value.1) && r.value.1.pos >= c.pos
  {
    if IsDigit(CharAt(f, c.pos)) then
      var (n, pos) :- ReadInt(f, c.pos);
      Success((spec.(width := n), Cursor(pos, c.ix)))
    else if CharAt(f, c.pos) == '*' then
      var (arg, d) :- Argument(f, Cursor(c.pos + 1, c.ix), None, args);
      var wide :- StarWidth(arg, spec);
      Success((wide, d))
    else Success((spec, c))
  }

  /** Flags, then width. */
  ghost function FlagsAndWidth(f: string, c: Cursor, args: seq<FormatArg>, spec: FormatSpec): (r: Result<(FormatSpec, Cursor), string>)
    requires At(f, c)
    ensures r.Success? ==> At(f, r.value.1) && r.value.1.pos >= c.pos
  {
    var (flagged, s) := Flags(f, c.pos, spec);
    Width(f, Cursor(s, c.ix), args, flagged)
  }

  /** `parse_header`: leading digits are an index before `$`, else a width, with `0` as a flag. */
  ghost function Header(f: string, c: Cursor, args: seq<FormatArg>): (r: Result<((Option<nat>, FormatSpec), Cursor), string>)
    requires At(f, c)
    ensures r.Success? ==> At(f, r.value.1) && r.value.1.pos >= c.pos
  {
    if !IsDigit(CharAt(f, c.pos)) then
      var (spec, d) :- FlagsAndWidth(f, c, args, RIGHT);
      Success(((None, spec), d))
    else
      var (n, pos) :- ReadInt(f, c.pos);
      if CharAt(f, pos) == '$' then
        var (spec, d) :- FlagsAndWidth(f, Cursor(pos + 1, c.ix), args, RIGHT);
        Success(((Some(n), spec), d))
      else
        var padded := if CharAt(f, c.pos) == '0' then RIGHT.(fill := '0') else RIGHT;
        if n != 0 then Success(((None, padded.(width := n)), Cursor(pos, c.ix)))
        else
          var (spec, d) :- FlagsAndWidth(f, Cursor(pos, c.ix), args, padded);
          Success(((None, spec), d))
  }

  /** `.` with digits or `*`; a lone `.` sets nothing. */
  ghost function PrintfPrecision(f: string, c: Cursor, args: seq<FormatArg>): (r: Result<(int, Cursor), string>)
    requires At(f, c)
    ensures r.Success? ==> At(f, r.value.1) && r.value.1.pos >= c.pos
  {
    if CharAt(f, c.pos) != '.' then Success((-1, c))
    else if IsDigit(CharAt(f, c.pos + 1)) then
      var (n, pos) :- ReadInt(f, c.pos + 1);
      Success((n as int, Cursor(pos, c.ix)))
    else if CharAt(f, c.pos + 1) == '*' then
      var (arg, d) :- Argument(f, Cursor(c.pos + 2, c.ix), None, args);
      var p :- StarPrecision(arg);
      Success((p, d))
    else Success((-1, Cursor(c.pos + 1, c.ix)))
  }

  /** `#` means nothing for zero; a `0` fill makes numbers align numerically and is ignored elsewhere. */
  function Adjust(spec: FormatSpec, arg: FormatArg): FormatSpec {
    var hashed := if IsInt(arg) && arg.value.n == 0 then spec.(hash := false) else spec;
    if hashed.fill != '0' then hashed
    else if arg.typ <= LAST_NUMERIC_TYPE then hashed.(align := AlignNumeric) else hashed.(fill := ' ')
  }

  /** Length modifiers. */
  function Length(f: string, s: nat, arg: FormatArg): (r: (FormatArg, nat))
    requires s <= |f|
    ensures s <= r.1 <= |f|
  {
    match CharAt(f, s)
    case 'h' => if CharAt(f, s + 1) == 'h' then (Convert(arg, Bits8, CharAt(f, s + 2)), s + 2)
                else (Convert(arg, Bits16, CharAt(f, s + 1)), s + 1)
    case 'l' => if CharAt(f, s + 1) == 'l' then (Convert(arg, Bits64, CharAt(f, s + 2)), s + 2)
                else (Convert(arg, Bits64, CharAt(f, s + 1)), s + 1)
    case 'j' => (Convert(arg, Bits64, CharAt(f, s + 1)), s + 1)
    case 'z' => (Convert(arg, Bits64, CharAt(f, s + 1)), s + 1)
    case 't' => (Convert(arg, Bits64, CharAt(f, s + 1)), s + 1)
    case 'L' => (arg, s + 1)
    case c => (Convert(arg, Bits32, c), s)
  }

  /** The type letter, normalised for integers; `c` makes a char of them. */
  function Typed(arg: FormatArg, spec: FormatSpec, letter: char): (FormatArg, FormatSpec) {
    if arg.typ > LAST_INTEGER_TYPE then (arg, spec.(typ := letter))
    else if letter == 'i' || letter == 'u' then (arg, spec.(typ := 'd'))
    else if letter == 'c' && IsInt(arg) then (Arg(Number(Wrap(arg.value.n, 0x100)), CHAR), spec.(typ := letter))
    else (arg, spec.(typ := letter))
  }

  /** `c` keeps the character an integer stands for: its value modulo 256, as a signed char. */
  lemma CharConversion(arg: FormatArg, spec: FormatSpec)
    requires IsInt(arg)
    ensures var (c, s) := Typed(arg, spec, 'c');
            && c.typ == CHAR && c.value.Number? && s == spec.(typ := 'c')
            && c.value.n % 0x100 == arg.value.n % 0x100 && -128 <= c.value.n < 128
  {
    WrapKeeps(arg.value.n, 0x100);
  }

  /** `i` and `u` are written as `d`, other letters as they are, and nothing but `c` changes the argument. */
  lemma LettersKept(arg: FormatArg, spec: FormatSpec, letter: char)
    requires !(letter == 'c' && IsInt(arg))
    ensures Typed(arg, spec, letter)
         == (arg, spec.(typ := if (letter == 'i' || letter == 'u') && arg.typ <= LAST_INTEGER_TYPE then 'd' else letter))
  {
  }

  /** Argument, length and type, after index, flags, width and precision. */
  ghost function Conversion(f: string, c: Cursor, args: seq<FormatArg>, index: Option<nat>, spec: FormatSpec)
    : (r: Result<((FormatArg, FormatSpec), Cursor), string>)
    requires At(f, c)
    ensures r.Success? ==> At(f, r.value.1) && r.value.1.pos > c.pos
  {
    var (arg, d) :- Argument(f, c, index, args);
    var (converted, s) := Length(f, d.pos, arg);
    if CharAt(f, s) == '\0' then Failure("invalid format string")
    else Success((Typed(converted, Adjust(spec, arg), CharAt(f, s)), Cursor(s + 1, d.ix)))
  }

  /** What follows a single `%`: the converted argument and how to write it. */
  ghost function Directive(f: string, c: Cursor, args: seq<FormatArg>): (r: Result<((FormatArg, FormatSpec), Cursor), string>)
    requires At(f, c)
    ensures r.Success? ==> At(f, r.value.1) && r.value.1.pos > c.pos
  {
    var (head, d) :- Header(f, c, args);
    var (precision, e) :- PrintfPrecision(f, d, args);
    Conversion(f, e, args, head.0, head.1.(precision := precision))
  }

  // ----- format strings

  /** The output from a position on: literal characters and rendered directives in order. */
  ghost function PrintfOutput(f: string, c: Cursor, args: seq<FormatArg>, render: Renderer): (r: Result<(string, Indexing), string>)
    requires At(f, c)
    ensures r.Success? ==> Disciplined(r.value.1)
    decreases |f| - c.pos
  {
    var ch := CharAt(f, c.pos);
    if ch == '\0' then Success(("", c.ix))
    else if ch != '%' then Prepend([ch], PrintfOutput(f, Cursor(c.pos + 1, c.ix), args, render))
    else if CharAt(f, c.pos + 1) == '%' then Prepend([ch], PrintfOutput(f, Cursor(c.pos + 2, c.ix), args, render))
    else
      var (what, e) :- Directive(f, Cursor(c.pos + 1, c.ix), args);
      var text :- render(what.0, what.1);
      Prepend(text, PrintfOutput(f, e, args, render))
  }

  function DoublePercents(s: string): string {
    if s == [] then [] else (if s[0] == '%' then "%%" else [s[0]]) + DoublePercents(s[1..])
  }

  /** Text with doubled `%` stands for itself wherever it occurs in a format string. */
  lemma {:induction false} EscapedPercents(before: string, s: string, tail: string, args: seq<FormatArg>, render: Renderer, ix: Indexing)
    requires Disciplined(ix) && '\0' !in s
    ensures var f := before + DoublePercents(s) + tail;
            PrintfOutput(f, Cursor(|before|, ix), args, render)
              == Prepend(s, PrintfOutput(f, Cursor(|before + DoublePercents(s)|, ix), args, render))
    decreases |s|
  {
    hide Disciplined, Directive;
    var f := before + DoublePercents(s) + tail;
    var rest := PrintfOutput(f, Cursor(|before + DoublePercents(s)|, ix), args, render);
    if s == [] {
      assert rest.Success? ==> "" + rest.value.0 == rest.value.0;
    } else {
      var piece := if s[0] == '%' then "%%" else [s[0]];
      assert before + DoublePercents(s) == (before + piece) + DoublePercents(s[1..]);
      assert s[0] in s && '\0' !in s[1..];
      EscapedPercents(before + piece, s[1..], tail, args, render, ix);
      assert CharAt(f, |before|) == s[0];
      assert |piece| == 2 ==> CharAt(f, |before| + 1) == '%';
      PrependTwice([s[0]], s[1..], rest);
      assert [s[0]] + s[1..] == s;
    }
  }

  /** Doubling every `%` of any NUL-free text makes a printf format string for that text. */
  lemma DoubledPercentsEscape(s: string, args: seq<FormatArg>, render: Renderer)
    requires '\0' !in s
    ensures PrintfOutput(DoublePercents(s), Cursor(0, START), args, render) == Success((s, START))
  {
    var f := DoublePercents(s);
    EscapedPercents("", s, "", args, render, START);
    assert "" + f + "" == f && "" + f == f && s + "" == s;
    assert CharAt(f, |f|) == '\0';
  }

  /** A percent sign at the end is an error. */
  lemma StrayPercent(s: string, args: seq<FormatArg>, render: Renderer)
    requires '\0' !in s
    ensures PrintfOutput(DoublePercents(s) + "%", Cursor(0, START), args, render).Failure?
  {
    hide DoublePercents, PrintfOutput;
    EscapedPercents("", s, "%", args, render, START);
    assert "" + DoublePercents(s) == DoublePercents(s);
    PercentAtEnd(DoublePercents(s), args, render);
  }

  lemma PercentAtEnd(before: string, args: seq<FormatArg>, render: Renderer)
    ensures PrintfOutput(before + "%", Cursor(|before|, START), args, render).Failure?
  {
    hide Disciplined, NextArg, Convert;
    var f := before + "%";
    assert CharAt(f, |before|) == '%' && CharAt(f, |before| + 1) == '\0';
  }
}
