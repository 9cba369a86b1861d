/** A printer of printf directives, and the proof that the formatter's parser inverts it. */
module PrintfSyntax {
  import opened Wrappers
  import opened ArgList
  import opened FormatSpecs
  import opened Numerals
  import opened ParseInt
  import opened FormatterSpec
  import opened Reading
  import opened PrintfSpec

  datatype WidthForm = NoWidth | Digits(n: nat) | Star

  datatype PrecisionForm = NoPrecision | Dot | DotDigits(n: nat) | DotStar

  datatype Modifier = NoModifier | HH | H | L | LL | J | Z | T | LongDouble

  /** The written form of a directive, after its percent sign; flags may repeat in any order. */
  datatype Form = Form(
    index: Option<nat>, flags: string, width: WidthForm, precision: PrecisionForm, modifier: Modifier, letter: char)

  function PrintIndex(x: Form): string {
    if x.index.Some? then Decimal(x.index.value) + "$" else ""
  }

  function PrintWidth(w: WidthForm): string {
    match w case NoWidth => "" case Digits(n) => Decimal(n) case Star => "*"
  }

  function PrintPrecision(p: PrecisionForm): string {
    match p case NoPrecision => "" case Dot => "." case DotDigits(n) => "." + Decimal(n) case DotStar => ".*"
  }

  function PrintModifier(m: Modifier): string {
    match m
    case NoModifier => "" case HH => "hh" case H => "h" case L => "l" case LL => "ll"
    case J => "j" case Z => "z" case T => "t" case LongDouble => "L"
  }

  function PrintEnd(x: Form): string {
    PrintModifier(x.modifier) + [x.letter]
  }

  function PrintForm(x: Form): string {
    PrintIndex(x) + (x.flags + PrintWidth(x.width)) + (PrintPrecision(x.precision) + PrintEnd(x))
  }

  /** The printed forms are those of printf: index, flags, width, precision, length modifier, letter. */
  lemma Spellings()
    ensures var plain := Form(None, "", NoWidth, NoPrecision, NoModifier, 'd');
            && PrintForm(plain) == "d" && PrintForm(plain.(index := Some(2))) == "2$d"
            && PrintForm(plain.(flags := "-0", width := Digits(4))) == "-04d"
            && PrintForm(plain.(precision := DotDigits(2))) == ".2d" && PrintForm(plain.(precision := Dot)) == ".d"
            && PrintForm(plain.(width := Star, precision := DotStar)) == "*.*d"
    ensures PrintModifier(HH) == "hh" && PrintModifier(H) == "h" && PrintModifier(L) == "l" && PrintModifier(LL) == "ll"
    ensures PrintModifier(J) == "j" && PrintModifier(Z) == "z" && PrintModifier(T) == "t" && PrintModifier(LongDouble) == "L"
  {
    hide Decimal;
    SmallNumbers();
  }

  lemma SmallNumbers()
    ensures Decimal(2) == "2" && Decimal(4) == "4"
  {
  }

  predicate IsFlag(c: char) {
    c == '-' || c == '+' || c == '0' || c == ' ' || c == '#'
  }

  predicate IsLetter(c: char) {
    'a' <= c <= 'z' || 'A' <= c <= 'Z'
  }

  predicate IsModifier(c: char) {
    c == 'h' || c == 'l' || c == 'j' || c == 'z' || c == 't' || c == 'L'
  }

  ghost predicate LegalForm(x: Form) {
    && (x.index.Some? ==> x.index.value <= INT_MAX)
    && (forall i :: 0 <= i < |x.flags| ==> IsFlag(x.flags[i]))
    && (x.width.Digits? ==> 0 < x.width.n <= INT_MAX)
    && (x.precision.DotDigits? ==> x.precision.n <= INT_MAX)
    && IsLetter(x.letter) && !IsModifier(x.letter)
  }

  // ----- what a form stands for

  function WithFlag(spec: FormatSpec, c: char): FormatSpec {
    match c
    case '-' => spec.(align := AlignLeft)
    case '+' => spec.(sign := true, plus := true)
    case '0' => spec.(fill := '0')
    case ' ' => spec.(sign := true)
    case '#' => spec.(hash := true)
    case _ => spec
  }

  function Folded(flags: string, spec: FormatSpec): FormatSpec {
    if flags == [] then spec else Folded(flags[1..], WithFlag(spec, flags[0]))
  }

  /** The next argument, or the one of a 1-based index. */
  ghost function Chosen(index: Option<nat>, args: seq<FormatArg>, ix: Indexing): (r: Result<(FormatArg, Indexing), string>)
    requires Disciplined(ix)
    ensures r.Success? ==> Disciplined(r.value.1)
  {
    if index.None? then NextArg(args, ix)
    else GetArg(args, if index.value == 0 then UINT_MAX else index.value - 1, ix)
  }

  ghost function WidthMeant(w: WidthForm, spec: FormatSpec, args: seq<FormatArg>, ix: Indexing): (r: Result<(FormatSpec, Indexing), string>)
    requires Disciplined(ix)
    ensures r.Success? ==> Disciplined(r.value.1)
  {
    match w
    case NoWidth => Success((spec, ix))
    case Digits(n) => Success((spec.(width := n), ix))
    case Star =>
      var arg :- NextArg(args, ix);
      var wide :- StarWidth(arg.0, spec);
      Success((wide, arg.1))
  }

  ghost function PrecisionMeant(p: PrecisionForm, args: seq<FormatArg>, ix: Indexing): (r: Result<(int, Indexing), string>)
    requires Disciplined(ix)
    ensures r.Success? ==> Disciplined(r.value.1)
  {
    match p
    case NoPrecision => Success((-1, ix))
    case Dot => Success((-1, ix))
    case DotDigits(n) => Success((n, ix))
    case DotStar =>
      var arg :- NextArg(args, ix);
      var n :- StarPrecision(arg.0);
      Success((n, arg.1))
  }

  function Converted(m: Modifier, arg: FormatArg, letter: char): FormatArg {
    match m
    case NoModifier => Convert(arg, Bits32, letter)
    case HH => Convert(arg, Bits8, letter)
    case H => Convert(arg, Bits16, letter)
    case LongDouble => arg
    case _ => Convert(arg, Bits64, letter)
  }

  /** The argument and how to write it. */
  ghost function FormMeant(x: Form, args: seq<FormatArg>, ix: Indexing): (r: Result<((FormatArg, FormatSpec), Indexing), string>)
    requires Disciplined(ix)
    ensures r.Success? ==> Disciplined(r.value.1)
  {
    var width :- WidthMeant(x.width, Folded(x.flags, RIGHT), args, ix);
    var precision :- PrecisionMeant(x.precision, args, width.1);
    ArgumentMeant(x, width.0.(precision := precision.0), args, precision.1)
  }

  ghost function ArgumentMeant(x: Form, spec: FormatSpec, args: seq<FormatArg>, ix: Indexing)
    : (r: Result<((FormatArg, FormatSpec), Indexing), string>)
    requires Disciplined(ix)
    ensures r.Success? ==> Disciplined(r.value.1)
  {
    var arg :- Chosen(x.index, args, ix);
    Success((Typed(Converted(x.modifier, arg.0, x.letter), Adjust(spec, arg.0), x.letter), arg.1))
  }

  // ----- what may follow a part

  predicate EndsPrecision(c: char) {
    IsLetter(c)
  }

  predicate EndsWidth(c: char) {
    IsLetter(c) || c == '.'
  }

  predicate EndsFlags(c: char) {
    EndsWidth(c) || c == '*' || '1' <= c <= '9'
  }

  lemma EndStarts(x: Form, tail: string)
    requires LegalForm(x)
    ensures EndsPrecision(CharAt(PrintEnd(x) + tail, 0))
  {
  }

  lemma PrecisionStarts(x: Form, tail: string)
    requires LegalForm(x)
    ensures EndsWidth(CharAt(PrintPrecision(x.precision) + PrintEnd(x) + tail, 0))
  {
    EndStarts(x, tail);
    if x.precision.NoPrecision? {
      assert PrintPrecision(x.precision) + PrintEnd(x) + tail == PrintEnd(x) + tail;
    } else {
      assert (PrintPrecision(x.precision) + PrintEnd(x) + tail)[0] == '.';
    }
  }

  lemma WidthStarts(w: WidthForm, tail: string)
    requires (w.Digits? ==> w.n > 0) && EndsWidth(CharAt(tail, 0))
    ensures EndsFlags(CharAt(PrintWidth(w) + tail, 0))
  {
    if w.Digits? {
      DecimalDigits(w.n);
      NoLeadingZero(w.n, 10, false);
      assert (PrintWidth(w) + tail)[0] == Decimal(w.n)[0];
    } else if w.NoWidth? {
      assert PrintWidth(w) + tail == tail;
    }
  }

  // ----- the parts

  lemma {:induction false} FlagsRead(f: string, s: nat, flags: string, tail: string, spec: FormatSpec)
    requires Reads(f, s, flags, tail) && EndsFlags(CharAt(tail, 0))
    requires forall i :: 0 <= i < |flags| ==> IsFlag(flags[i])
    ensures Flags(f, s, spec) == (Folded(flags, spec), s + |flags|)
    decreases |flags|
  {
    ReadOn(f, s, flags, tail);
    if flags != [] {
      assert flags == [flags[0]] + flags[1..];
      Break(f, s, [flags[0]], flags[1..], tail);
      assert CharAt(f, s) == flags[0];
      FlagsRead(f, s + 1, flags[1..], tail, WithFlag(spec, flags[0]));
    }
  }

  lemma ArgumentReads(f: string, c: Cursor, index: Option<nat>, args: seq<FormatArg>)
    requires At(f, c) && CharAt(f, c.pos) != '\0'
    ensures Argument(f, c, index, args) == Placed(Chosen(index, args, c.ix), c.pos)
  {
    hide NextArg, GetArg, Disciplined;
  }

  lemma WidthReads(f: string, c: Cursor, w: WidthForm, tail: string, spec: FormatSpec, args: seq<FormatArg>)
    requires At(f, c) && Reads(f, c.pos, PrintWidth(w), tail) && EndsWidth(CharAt(tail, 0)) && (w.Digits? ==> w.n <= INT_MAX)
    ensures Width(f, c, args, spec) == Placed(WidthMeant(w, spec, args, c.ix), c.pos + |PrintWidth(w)|)
  {
    hide Decimal, ReadInt, NextArg, Disciplined, StarWidth, Argument;
    match w
    case NoWidth => ReadOn(f, c.pos, "", tail);
    case Digits(n) => NumberReads(f, c.pos, n, tail);
    case Star =>
      ReadOn(f, c.pos, "*", tail);
      StillLater(f, c, c.pos + 1);
      ArgumentReads(f, Cursor(c.pos + 1, c.ix), None, args);
  }

  lemma StillLater(f: string, c: Cursor, pos: nat)
    requires At(f, c) && pos <= |f|
    ensures At(f, Cursor(pos, c.ix))
  {
  }

  lemma FlagsAndWidthRead(f: string, c: Cursor, flags: string, w: WidthForm, tail: string, spec: FormatSpec, args: seq<FormatArg>)
    requires At(f, c) && Reads(f, c.pos, flags + PrintWidth(w), tail) && EndsWidth(CharAt(tail, 0))
    requires (forall i :: 0 <= i < |flags| ==> IsFlag(flags[i])) && (w.Digits? ==> 0 < w.n <= INT_MAX)
    ensures FlagsAndWidth(f, c, args, spec)
         == Placed(WidthMeant(w, Folded(flags, spec), args, c.ix), c.pos + |flags| + |PrintWidth(w)|)
  {
    hide PrintWidth, Reads, Folded, Flags, Width, WidthMeant, At, Disciplined;
    Break(f, c.pos, flags, PrintWidth(w), tail);
    WidthStarts(w, tail);
    FlagsRead(f, c.pos, flags, PrintWidth(w) + tail, spec);
    StillAt(f, c, c.pos + |flags|, PrintWidth(w), tail);
    WidthReads(f, Cursor(c.pos + |flags|, c.ix), w, tail, Folded(flags, spec), args);
  }

  // ----- the header

  /** Everything before precision. */
  function PrintHead(x: Form): string {
    PrintIndex(x) + (x.flags + PrintWidth(x.width))
  }

  /** What Header makes of a width. */
  function Headed(index: Option<nat>, r: Result<(FormatSpec, Cursor), string>): Result<((Option<nat>, FormatSpec), Cursor), string> {
    if r.Failure? then Failure(r.error) else Success(((index, r.value.0), r.value.1))
  }

  ghost predicate HeadIs(f: string, c: Cursor, x: Form, args: seq<FormatArg>)
    requires At(f, c)
  {
    Header(f, c, args)
      == Headed(x.index, Placed(WidthMeant(x.width, Folded(x.flags, RIGHT), args, c.ix), c.pos + |PrintHead(x)|))
  }

  lemma IndexedCompose(f: string, c: Cursor, n: nat, pos: nat, args: seq<FormatArg>)
    requires At(f, c) && IsDigit(CharAt(f, c.pos)) && ReadInt(f, c.pos) == Success((n, pos))
    requires pos < |f| && CharAt(f, pos) == '$'
    ensures Header(f, c, args) == Headed(Some(n), FlagsAndWidth(f, Cursor(pos + 1, c.ix), args, RIGHT))
  {
    hide ReadInt, FlagsAndWidth, Disciplined;
  }

  lemma PaddedCompose(f: string, c: Cursor, pos: nat, args: seq<FormatArg>)
    requires At(f, c) && CharAt(f, c.pos) == '0' && ReadInt(f, c.pos) == Success((0, pos)) && pos <= |f| && CharAt(f, pos) != '$'
    ensures Header(f, c, args) == Headed(None, FlagsAndWidth(f, Cursor(pos, c.ix), args, RIGHT.(fill := '0')))
  {
    hide ReadInt, FlagsAndWidth, Disciplined;
  }

  lemma NumberCompose(f: string, c: Cursor, n: nat, pos: nat, args: seq<FormatArg>)
    requires At(f, c) && IsDigit(CharAt(f, c.pos)) && ReadInt(f, c.pos) == Success((n, pos)) && n > 0
    requires pos <= |f| && CharAt(f, pos) != '$'
    ensures var padded := if CharAt(f, c.pos) == '0' then RIGHT.(fill := '0') else RIGHT;
            Header(f, c, args) == Success(((None, padded.(width := n)), Cursor(pos, c.ix)))
  {
    hide ReadInt, FlagsAndWidth, Disciplined;
  }

  lemma IndexedHeadReads(f: string, c: Cursor, x: Form, tail: string, args: seq<FormatArg>)
    requires At(f, c) && LegalForm(x) && x.index.Some? && Reads(f, c.pos, PrintHead(x), tail) && EndsWidth(CharAt(tail, 0))
    ensures HeadIs(f, c, x, args)
  {
    hide *;
    var digits, rest := Decimal(x.index.value), x.flags + PrintWidth(x.width);
    IndexedHead(x, digits, rest);
    LegalParts(x);
    var pos: nat := c.pos + |digits|;
    Break(f, c.pos, digits, "$" + rest, tail);
    DollarStarts(rest, tail);
    NumberReads(f, c.pos, x.index.value, "$" + rest + tail);
    Break(f, pos, "$", rest, tail);
    DollarAt(f, pos, rest + tail);
    StillAt(f, c, pos + 1, rest, tail);
    FlagsAndWidthRead(f, Cursor(pos + 1, c.ix), x.flags, x.width, tail, RIGHT, args);
    IndexedCompose(f, c, x.index.value, pos, args);
    HeadCompose(f, c, x, pos + 1 + |x.flags| + |PrintWidth(x.width)|, args);
  }

  lemma IndexedHead(x: Form, digits: string, rest: string)
    requires x.index.Some? && digits == Decimal(x.index.value) && rest == x.flags + PrintWidth(x.width)
    ensures PrintHead(x) == digits + ("$" + rest)
  {
  }

  lemma LegalParts(x: Form)
    requires LegalForm(x)
    ensures (forall i :: 0 <= i < |x.flags| ==> IsFlag(x.flags[i])) && (x.width.Digits? ==> 0 < x.width.n <= INT_MAX)
    ensures x.index.Some? ==> x.index.value <= INT_MAX
  {
  }

  lemma DollarStarts(rest: string, tail: string)
    ensures !IsDigit(CharAt("$" + rest + tail, 0))
  {
  }

  lemma DollarAt(f: string, pos: nat, rest: string)
    requires Reads(f, pos, "$", rest)
    ensures pos < |f| && CharAt(f, pos) == '$'
  {
    ReadOn(f, pos, "$", rest);
  }

  lemma HeadCompose(f: string, c: Cursor, x: Form, end: nat, args: seq<FormatArg>)
    requires At(f, c) && end == c.pos + |PrintHead(x)|
    requires Header(f, c, args) == Headed(x.index, Placed(WidthMeant(x.width, Folded(x.flags, RIGHT), args, c.ix), end))
    ensures HeadIs(f, c, x, args)
  {
    hide Header, PrintHead, WidthMeant, Folded, Placed, Headed;
  }

  lemma PlainHeadReads(f: string, c: Cursor, x: Form, tail: string, args: seq<FormatArg>)
    requires At(f, c) && LegalForm(x) && x.index.None? && Reads(f, c.pos, PrintHead(x), tail) && EndsWidth(CharAt(tail, 0))
    requires !IsDigit(CharAt(f, c.pos))
    ensures HeadIs(f, c, x, args)
  {
    hide PrintWidth, FlagsAndWidth, Folded, WidthMeant, Disciplined;
    assert PrintHead(x) == x.flags + PrintWidth(x.width);
    FlagsAndWidthRead(f, c, x.flags, x.width, tail, RIGHT, args);
  }

  /** A width that is not taken for zero flags: its digits start the directive. */
  lemma WidthFirst(f: string, c: Cursor, x: Form, tail: string, args: seq<FormatArg>)
    requires At(f, c) && LegalForm(x) && x.index.None? && x.flags == [] && x.width.Digits?
    requires Reads(f, c.pos, PrintHead(x), tail) && EndsWidth(CharAt(tail, 0))
    ensures HeadIs(f, c, x, args)
  {
    hide *;
    WidthHead(x, args, c.ix);
    LegalParts(x);
    AtKnows(f, c);
    AfterNumber(CharAt(tail, 0));
    NumberReads(f, c.pos, x.width.n, tail);
    NumberStart(f, c.pos, x.width.n, tail);
    NumberCompose(f, c, x.width.n, c.pos + |Decimal(x.width.n)|, args);
    WidthPlaced(c, RIGHT.(width := x.width.n));
    HeadCompose(f, c, x, c.pos + |Decimal(x.width.n)|, args);
  }

  lemma WidthHead(x: Form, args: seq<FormatArg>, ix: Indexing)
    requires x.index.None? && x.flags == [] && x.width.Digits?
    ensures PrintHead(x) == Decimal(x.width.n)
    ensures Disciplined(ix) ==> WidthMeant(x.width, Folded(x.flags, RIGHT), args, ix) == Success((RIGHT.(width := x.width.n), ix))
  {
    hide Decimal, Disciplined;
  }

  lemma NumberStart(f: string, s: nat, n: nat, tail: string)
    requires Reads(f, s, Decimal(n), tail) && n > 0
    ensures CharAt(f, s) != '0' && s + |Decimal(n)| <= |f| && CharAt(f, s + |Decimal(n)|) == CharAt(tail, 0)
  {
    ReadOn(f, s, Decimal(n), tail);
    NoLeadingZero(n, 10, false);
  }

  lemma WidthPlaced(c: Cursor, spec: FormatSpec)
    ensures forall pos :: Headed(None, Placed(Success((spec, c.ix)), pos)) == Success(((None, spec), Cursor(pos, c.ix)))
  {
  }

  // ----- leading zero flags

  function Zeros(k: nat): (s: string)
    ensures |s| == k
  {
    seq(k, _ => '0')
  }

  lemma {:induction false} ZerosVanish(k: nat, ds: string)
    ensures Decode(Zeros(k) + ds, 10) == Decode(ds, 10)
    decreases k + |ds|
  {
    var s := Zeros(k) + ds;
    if ds != [] {
      assert s[..|s| - 1] == Zeros(k) + ds[..|ds| - 1];
      ZerosVanish(k, ds[..|ds| - 1]);
    } else if k > 0 {
      assert s[..|s| - 1] == Zeros(k - 1) + [];
      ZerosVanish(k - 1, []);
    }
  }

  lemma {:induction false} ZerosFolded(k: nat, rest: string, spec: FormatSpec)
    ensures Folded(Zeros(k) + rest, spec) == Folded(rest, if k > 0 then spec.(fill := '0') else spec)
    decreases k
  {
    if k == 0 {
      assert Zeros(0) + rest == rest;
    } else {
      assert (Zeros(k) + rest)[1..] == Zeros(k - 1) + rest;
      ZerosFolded(k - 1, rest, spec.(fill := '0'));
    }
  }

  /** How many zeros the flags start with. */
  function LeadingZeros(flags: string): (k: nat)
    ensures k <= |flags| && flags == Zeros(k) + flags[k..]
    ensures k < |flags| ==> flags[k] != '0'
  {
    if flags == [] || flags[0] != '0' then
      assert flags == Zeros(0) + flags;
      0
    else
      var k := LeadingZeros(flags[1..]);
      assert Zeros(k + 1) == ['0'] + Zeros(k);
      assert flags == ['0'] + (Zeros(k) + flags[1..][k..]) == Zeros(k + 1) + flags[k + 1..];
      k + 1
  }

  /** Zeros run into a width: one number, whose leading zero is the flag. */
  lemma ZerosThenWidth(f: string, c: Cursor, x: Form, tail: string, args: seq<FormatArg>)
    requires At(f, c) && LegalForm(x) && x.index.None? && x.width.Digits?
    requires |x.flags| > 0 && x.flags == Zeros(|x.flags|)
    requires Reads(f, c.pos, PrintHead(x), tail) && EndsWidth(CharAt(tail, 0))
    ensures HeadIs(f, c, x, args)
  {
    hide *;
    var k, n := |x.flags|, x.width.n;
    var ds := Zeros(k) + Decimal(n);
    LegalParts(x);
    ZeroNumber(k, n);
    ZeroWidthHead(x, args, c.ix);
    AtKnows(f, c);
    AfterNumber(CharAt(tail, 0));
    DigitsRead(f, c.pos, ds, n, tail);
    ZerosStart(f, c.pos, k, Decimal(n), tail);
    NumberCompose(f, c, n, c.pos + |ds|, args);
    WidthPlaced(c, RIGHT.(fill := '0').(width := n));
    HeadCompose(f, c, x, c.pos + |ds|, args);
  }

  lemma ZeroWidthHead(x: Form, args: seq<FormatArg>, ix: Indexing)
    requires x.index.None? && x.width.Digits? && |x.flags| > 0 && x.flags == Zeros(|x.flags|)
    ensures Disciplined(ix) ==>
              WidthMeant(x.width, Folded(x.flags, RIGHT), args, ix) == Success((RIGHT.(fill := '0').(width := x.width.n), ix))
    ensures PrintHead(x) == Zeros(|x.flags|) + Decimal(x.width.n)
  {
    ZerosFolded(|x.flags|, [], RIGHT);
    assert Zeros(|x.flags|) + [] == x.flags;
    hide Decimal, Disciplined;
  }

  lemma AfterNumber(c: char)
    requires EndsWidth(c)
    ensures !IsDigit(c) && c != '$'
  {
  }

  lemma ZerosStart(f: string, s: nat, k: nat, digits: string, tail: string)
    requires Reads(f, s, Zeros(k) + digits, tail) && k > 0
    ensures CharAt(f, s) == '0' && s + k + |digits| <= |f| && CharAt(f, s + k + |digits|) == CharAt(tail, 0)
  {
    ReadOn(f, s, Zeros(k) + digits, tail);
    assert (Zeros(k) + digits)[0] == '0';
  }

  lemma ZeroNumber(k: nat, n: nat)
    ensures Zeros(k) + Decimal(n) != [] && Decode(Zeros(k) + Decimal(n), 10) == n && AllDigits(Zeros(k) + Decimal(n))
  {
    hide Decimal, Numeral, Decode;
    ZerosVanish(k, Decimal(n));
    DecimalDecodes(n);
    DecimalDigits(n);
  }

  lemma DecimalDecodes(n: nat)
    ensures Decode(Decimal(n), 10) == n && Decimal(n) != []
  {
    DecodeNumeral(n, 10, false);
  }

  /** Zeros before another flag, a star or nothing: a zero, which is the flag. */
  lemma ZerosThenRest(f: string, c: Cursor, x: Form, tail: string, k: nat, args: seq<FormatArg>)
    requires At(f, c) && LegalForm(x) && x.index.None? && k == LeadingZeros(x.flags) > 0
    requires k < |x.flags| || !x.width.Digits?
    requires Reads(f, c.pos, PrintHead(x), tail) && EndsWidth(CharAt(tail, 0))
    ensures HeadIs(f, c, x, args)
  {
    hide *;
    var zeros, others := Zeros(k), x.flags[k..];
    var rest := others + PrintWidth(x.width);
    PaddedHead(x, k);
    RestStarts(x, k, tail);
    LegalParts(x);
    ZeroRun(k);
    ZerosFolded(k, others, RIGHT);
    Break(f, c.pos, zeros, rest, tail);
    ZerosAt(f, c.pos, k, rest + tail);
    StillAt(f, c, c.pos + k, rest, tail);
    FlagsAndWidthRead(f, Cursor(c.pos + k, c.ix), others, x.width, tail, RIGHT.(fill := '0'), args);
    PaddedCompose(f, c, c.pos + k, args);
    HeadCompose(f, c, x, c.pos + k + |others| + |PrintWidth(x.width)|, args);
  }

  lemma PaddedHead(x: Form, k: nat)
    requires x.index.None? && k == LeadingZeros(x.flags)
    ensures PrintHead(x) == Zeros(k) + (x.flags[k..] + PrintWidth(x.width))
    ensures |x.flags| == k + |x.flags[k..]|
  {
    hide LeadingZeros, PrintWidth, Zeros;
    assert PrintHead(x) == Zeros(k) + x.flags[k..] + PrintWidth(x.width);
  }

  lemma ZeroRun(k: nat)
    ensures Decode(Zeros(k), 10) == 0 && AllDigits(Zeros(k))
  {
    ZerosVanish(k, []);
    assert Zeros(k) + [] == Zeros(k);
  }

  lemma ZerosAt(f: string, s: nat, k: nat, tail: string)
    requires Reads(f, s, Zeros(k), tail) && k > 0 && !IsDigit(CharAt(tail, 0)) && CharAt(tail, 0) != '$'
    ensures CharAt(f, s) == '0' && ReadInt(f, s) == Success((0, s + k)) && s + k <= |f| && CharAt(f, s + k) != '$'
  {
    ZeroRun(k);
    hide Decode, AllDigits, ReadInt;
    DigitsRead(f, s, Zeros(k), 0, tail);
    ReadOn(f, s, Zeros(k), tail);
    assert Zeros(k)[0] == '0';
  }

  lemma RestStarts(x: Form, k: nat, tail: string)
    requires LegalForm(x) && k == LeadingZeros(x.flags) && EndsWidth(CharAt(tail, 0))
    requires k < |x.flags| || !x.width.Digits?
    ensures var c := CharAt(x.flags[k..] + PrintWidth(x.width) + tail, 0);
            !IsDigit(c) && c != '$'
  {
    var text := x.flags[k..] + PrintWidth(x.width) + tail;
    if k < |x.flags| {
      assert text[0] == x.flags[k] && IsFlag(x.flags[k]);
    } else if x.width.Star? {
      assert text[0] == '*';
    } else {
      assert text == tail;
    }
  }

  lemma HeadReads(f: string, c: Cursor, x: Form, tail: string, args: seq<FormatArg>)
    requires At(f, c) && LegalForm(x) && Reads(f, c.pos, PrintHead(x), tail) && EndsWidth(CharAt(tail, 0))
    ensures HeadIs(f, c, x, args)
  {
    var k := LeadingZeros(x.flags);
    hide HeadIs, Disciplined, Folded, WidthMeant;
    if x.index.Some? {
      IndexedHeadReads(f, c, x, tail, args);
    } else if k > 0 {
      if k == |x.flags| && x.width.Digits? {
        assert x.flags == Zeros(k) + [] == Zeros(k);
        ZerosThenWidth(f, c, x, tail, args);
      } else {
        ZerosThenRest(f, c, x, tail, k, args);
      }
    } else if x.flags == [] && x.width.Digits? {
      WidthFirst(f, c, x, tail, args);
    } else {
      HeadStarts(f, c, x, tail);
      PlainHeadReads(f, c, x, tail, args);
    }
  }

  lemma HeadStarts(f: string, c: Cursor, x: Form, tail: string)
    requires At(f, c) && LegalForm(x) && x.index.None? && LeadingZeros(x.flags) == 0
    requires x.flags != [] || !x.width.Digits?
    requires Reads(f, c.pos, PrintHead(x), tail) && EndsWidth(CharAt(tail, 0))
    ensures !IsDigit(CharAt(f, c.pos))
  {
    ReadOn(f, c.pos, PrintHead(x), tail);
    if x.flags != [] {
      assert PrintHead(x)[0] == x.flags[0] && IsFlag(x.flags[0]);
    } else if x.width.Star? {
      assert PrintHead(x)[0] == '*';
    } else {
      assert PrintHead(x) == [];
    }
  }

  // ----- precision, modifier and letter

  lemma PrecisionReads(f: string, c: Cursor, p: PrecisionForm, tail: string, args: seq<FormatArg>)
    requires At(f, c) && Reads(f, c.pos, PrintPrecision(p), tail) && EndsPrecision(CharAt(tail, 0))
    requires p.DotDigits? ==> p.n <= INT_MAX
    ensures PrintfPrecision(f, c, args) == Placed(PrecisionMeant(p, args, c.ix), c.pos + |PrintPrecision(p)|)
  {
    hide Decimal, ReadInt, NextArg, Disciplined, StarPrecision, Argument;
    match p
    case NoPrecision => ReadOn(f, c.pos, "", tail);
    case Dot => ReadOn(f, c.pos, ".", tail);
    case DotDigits(n) =>
      Break(f, c.pos, ".", Decimal(n), tail);
      ReadOn(f, c.pos, ".", Decimal(n) + tail);
      NumberReads(f, c.pos + 1, n, tail);
    case DotStar =>
      ReadOn(f, c.pos, ".*", tail);
      assert CharAt(f, c.pos + 1) == '*';
      StillLater(f, c, c.pos + 2);
      ArgumentReads(f, Cursor(c.pos + 2, c.ix), None, args);
  }

  lemma LengthReads(f: string, s: nat, x: Form, tail: string, arg: FormatArg)
    requires LegalForm(x) && Reads(f, s, PrintEnd(x), tail)
    ensures s + |PrintEnd(x)| <= |f|
    ensures Length(f, s, arg) == (Converted(x.modifier, arg, x.letter), s + |PrintModifier(x.modifier)|)
    ensures CharAt(f, s + |PrintModifier(x.modifier)|) == x.letter && CharAt(f, s) != '\0'
  {
    ReadOn(f, s, PrintEnd(x), tail);
    hide Convert;
    var m := PrintModifier(x.modifier);
    assert PrintEnd(x)[|m|] == x.letter;
    assert CharAt(f, s + |m|) == x.letter;
    assert m != "" ==> PrintEnd(x)[0] == m[0] && CharAt(f, s) == m[0];
    assert |m| == 2 ==> PrintEnd(x)[1] == m[1] && CharAt(f, s + 1) == m[1];
  }

  lemma EndReads(f: string, c: Cursor, x: Form, tail: string, spec: FormatSpec, args: seq<FormatArg>)
    requires At(f, c) && LegalForm(x) && Reads(f, c.pos, PrintEnd(x), tail)
    ensures Conversion(f, c, args, x.index, spec) == Placed(ArgumentMeant(x, spec, args, c.ix), c.pos + |PrintEnd(x)|)
  {
    var chosen := Chosen(x.index, args, c.ix);
    if chosen.Success? {
      LengthReads(f, c.pos, x, tail, chosen.value.0);
    } else {
      LengthReads(f, c.pos, x, tail, Arg(Number(0), INT));
    }
    hide Chosen, Argument, Length, Converted, Typed, Adjust, Disciplined, Reads, LegalForm;
    ArgumentReads(f, c, x.index, args);
  }

  // ----- the whole directive

  lemma DirectiveCompose(f: string, c: Cursor, d: nat, e: nat, end: nat, x: Form, args: seq<FormatArg>)
    requires At(f, c) && d <= e <= end <= |f|
    requires Header(f, c, args) == Headed(x.index, Placed(WidthMeant(x.width, Folded(x.flags, RIGHT), args, c.ix), d))
    requires forall ix :: Disciplined(ix) ==>
               PrintfPrecision(f, Cursor(d, ix), args) == Placed(PrecisionMeant(x.precision, args, ix), e)
    requires forall ix, spec :: Disciplined(ix) ==>
               Conversion(f, Cursor(e, ix), args, x.index, spec) == Placed(ArgumentMeant(x, spec, args, ix), end)
    ensures Directive(f, c, args) == Placed(FormMeant(x, args, c.ix), end)
  {
    hide Header, PrintfPrecision, Conversion, WidthMeant, PrecisionMeant, ArgumentMeant, Disciplined;
  }

  /** A printed directive is read as what it stands for, wherever it is, with the cursor just behind its letter. */
  lemma DirectiveReads(f: string, c: Cursor, x: Form, tail: string, args: seq<FormatArg>)
    requires At(f, c) && LegalForm(x) && Reads(f, c.pos, PrintForm(x), tail)
    ensures Directive(f, c, args) == Placed(FormMeant(x, args, c.ix), c.pos + |PrintForm(x)|)
  {
    hide *;
    var head, precision, last := PrintHead(x), PrintPrecision(x.precision), PrintEnd(x);
    var d: nat := c.pos + |head|;
    var e: nat := d + |precision|;
    FormParts(x);
    PrecisionStarts(x, tail);
    EndStarts(x, tail);
    Break(f, c.pos, head, precision + last, tail);
    Break(f, d, precision, last, tail);
    Within(f, e, last, tail);
    HeadReads(f, c, x, precision + last + tail, args);
    HeadRead(f, c, x, args);
    forall ix | Disciplined(ix)
      ensures At(f, Cursor(d, ix)) && PrintfPrecision(f, Cursor(d, ix), args) == Placed(PrecisionMeant(x.precision, args, ix), e)
    {
      AtOf(f, d, ix);
      PrecisionReads(f, Cursor(d, ix), x.precision, last + tail, args);
    }
    forall ix, spec | Disciplined(ix)
      ensures At(f, Cursor(e, ix)) && Conversion(f, Cursor(e, ix), args, x.index, spec) == Placed(ArgumentMeant(x, spec, args, ix), e + |last|)
    {
      AtOf(f, e, ix);
      EndReads(f, Cursor(e, ix), x, tail, spec, args);
    }
    DirectiveCompose(f, c, d, e, e + |last|, x, args);
  }

  lemma FormParts(x: Form)
    requires LegalForm(x)
    ensures PrintForm(x) == PrintHead(x) + (PrintPrecision(x.precision) + PrintEnd(x))
    ensures x.precision.DotDigits? ==> x.precision.n <= INT_MAX
  {
  }

  lemma HeadRead(f: string, c: Cursor, x: Form, args: seq<FormatArg>)
    requires At(f, c) && HeadIs(f, c, x, args)
    ensures Disciplined(c.ix)
    ensures Header(f, c, args)
         == Headed(x.index, Placed(WidthMeant(x.width, Folded(x.flags, RIGHT), args, c.ix), c.pos + |PrintHead(x)|))
  {
  }
}
