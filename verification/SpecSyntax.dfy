/** A printer of replacement-field specifications, and the proof that the parser inverts it. */
module SpecSyntax {
  import opened Wrappers
  import opened ArgList
  import opened FormatSpecs
  import opened Numerals
  import opened ParseInt
  import opened FormatterSpec
  import opened Reading
  import opened References

  datatype Sign = NoSign | Plus | Minus | Space

  /** The written form of a specification: every part is optional. */
  datatype Syntax = Syntax(
    fill: Option<char>, align: Align, sign: Sign, hash: bool, zero: bool,
    width: CountForm, precision: CountForm, typ: Option<char>)

  function AlignChar(a: Align): char {
    match a
    case AlignLeft => '<' case AlignRight => '>' case AlignNumeric => '=' case AlignCenter => '^' case AlignDefault => ' '
  }

  function PrintAlign(x: Syntax): string {
    if x.align.AlignDefault? then "" else (if x.fill.Some? then [x.fill.value] else "") + [AlignChar(x.align)]
  }

  function PrintSign(x: Syntax): string {
    match x.sign case NoSign => "" case Plus => "+" case Minus => "-" case Space => " "
  }

  function PrintHash(x: Syntax): string {
    if x.hash then "#" else ""
  }

  function PrintZero(x: Syntax): string {
    if x.zero then "0" else ""
  }

  function PrintWidth(x: Syntax): string {
    PrintCount(x.width)
  }

  function PrintPrecision(x: Syntax): string {
    if x.precision.NoCount? then "" else "." + PrintCount(x.precision)
  }

  function PrintType(x: Syntax): string {
    if x.typ.Some? then [x.typ.value] else ""
  }

  function PrintFlags(x: Syntax): string {
    PrintSign(x) + (PrintHash(x) + PrintZero(x))
  }

  function PrintSizes(x: Syntax): string {
    PrintWidth(x) + (PrintPrecision(x) + PrintType(x))
  }

  function Print(x: Syntax): string {
    (PrintAlign(x) + PrintFlags(x)) + PrintSizes(x)
  }

  function Fill(x: Syntax): char {
    if x.fill.Some? then x.fill.value else ' '
  }

  /** What the written form stands for once width and precision are known. */
  function Sized(x: Syntax, width: Option<nat>, precision: Option<nat>): FormatSpec {
    FormatSpec(
      if width.Some? then width.value else 0,
      if x.zero then '0' else Fill(x),
      if x.zero then AlignNumeric else x.align,
      x.sign.Plus? || x.sign.Space?, x.sign.Plus?, x.sign.Minus?, x.hash,
      if precision.Some? then precision.value else -1,
      if x.typ.Some? then x.typ.value else '\0')
  }

  /** What the written form stands for: nested width and precision are taken from the arguments, in this order. */
  ghost function SpecMeant(x: Syntax, args: seq<FormatArg>, ix: Indexing): (r: Result<(FormatSpec, Indexing), string>)
    requires Disciplined(ix)
    ensures r.Success? ==> Disciplined(r.value.1)
  {
    var width :- CountMeant(x.width, args, ix, "width");
    var precision :- CountMeant(x.precision, args, width.1, "precision");
    Success((Sized(x, width.0, precision.0), precision.1))
  }

  predicate Literal(x: Syntax) {
    !x.width.Nested? && !x.precision.Nested?
  }

  function LiteralCount(w: CountForm): Option<nat> {
    if w.Given? then Some(w.n) else None
  }

  /** The meaning of a form without nested fields. */
  function Meaning(x: Syntax): FormatSpec {
    Sized(x, LiteralCount(x.width), LiteralCount(x.precision))
  }

  lemma LiteralMeaning(x: Syntax, args: seq<FormatArg>, ix: Indexing)
    requires Disciplined(ix) && Literal(x)
    ensures SpecMeant(x, args, ix) == Success((Meaning(x), ix))
  {
    hide Disciplined, Sized;
  }

  predicate IsLetter(c: char) {
    'a' <= c <= 'z' || 'A' <= c <= 'Z'
  }

  /** A non-empty form that an argument of type typ admits. */
  ghost predicate Legal(x: Syntax, typ: nat) {
    && Print(x) != ""
    && (x.fill.Some? ==> !x.align.AlignDefault? && x.fill.value !in "{}\0")
    && (x.align.AlignNumeric? || x.hash || x.zero || !x.sign.NoSign? ==> typ <= LAST_NUMERIC_TYPE)
    && (!x.sign.NoSign? ==> typ != UINT && typ != ULONG_LONG)
    && LegalCount(x.width) && (x.width == Given(0) ==> x.zero)
    && LegalCount(x.precision) && (!x.precision.NoCount? ==> typ > LAST_INTEGER_TYPE && typ != POINTER_ARG)
    && (x.typ.Some? ==> IsLetter(x.typ.value))
  }

  /** The printed forms are those of the format language: fill and alignment, sign, `#`, `0`, width, precision, type. */
  lemma Spellings()
    ensures var none := Syntax(None, AlignDefault, NoSign, false, false, NoCount, NoCount, None);
            && Print(none.(align := AlignLeft, width := Given(4))) == "<4"
            && Print(none.(align := AlignRight, width := Given(4))) == ">4"
            && Print(none.(align := AlignNumeric, width := Given(4))) == "=4"
            && Print(none.(align := AlignCenter, fill := Some('*'), width := Given(4))) == "*^4"
            && Print(none.(sign := Plus)) == "+" && Print(none.(sign := Minus)) == "-" && Print(none.(sign := Space)) == " "
            && Print(none.(hash := true, typ := Some('x'))) == "#x"
            && Print(none.(zero := true, width := Given(4), precision := Given(2))) == "04.2"
            && Print(none.(width := Nested(Automatic), precision := Nested(Index(1)))) == "{}.{1}"
  {
    hide Decimal;
    SmallNumbers();
    NestedSpelling();
  }

  lemma NestedSpelling()
    ensures Print(Syntax(None, AlignDefault, NoSign, false, false, Nested(Automatic), Nested(Index(1)), None)) == "{}.{1}"
  {
    hide Decimal;
    SmallNumbers();
    assert "{" + ("" + "}") == "{}" && "." + ("{" + ("1" + "}")) == ".{1}";
  }

  lemma SmallNumbers()
    ensures Decimal(1) == "1" && Decimal(2) == "2" && Decimal(4) == "4"
  {
  }

  lemma PrintedParts(x: Syntax)
    ensures PrintFlags(x) == PrintSign(x) + (PrintHash(x) + PrintZero(x))
    ensures PrintSizes(x) == PrintWidth(x) + (PrintPrecision(x) + PrintType(x))
    ensures Print(x) == (PrintAlign(x) + PrintFlags(x)) + PrintSizes(x)
  {
  }

  // ----- the parts

  /** After the alignment comes no character that could be taken for an alignment. */
  ghost predicate Plainly(tail: string) {
    AlignOf(CharAt(tail, 0)) == AlignDefault && CharAt(tail, 0) != '\0'
  }

  lemma AlignReads(f: string, s: nat, x: Syntax, tail: string, typ: nat)
    requires Legal(x, typ) && Reads(f, s, PrintAlign(x), tail) && Plainly(tail)
    requires x.align.AlignDefault? ==> AlignOf(CharAt(tail, 1)) == AlignDefault
    ensures FillAlign(f, s, typ) == Success((x.align, Fill(x), s + |PrintAlign(x)|))
  {
    ReadOn(f, s, PrintAlign(x), tail);
    if x.align.AlignDefault? {
      assert |tail| > 1 ==> CharAt(f, s + 1) == CharAt(tail, 1);
    } else if x.fill.Some? {
      assert CharAt(f, s) == x.fill.value && CharAt(f, s + 1) == AlignChar(x.align);
    } else {
      assert CharAt(f, s) == AlignChar(x.align) && CharAt(f, s + 1) == CharAt(tail, 0);
    }
  }

  /** The specification after the alignment, after the sign, after `#` and after `0`. */
  function Aligned(x: Syntax): FormatSpec {
    PLAIN.(align := x.align, fill := Fill(x))
  }

  function Signed(x: Syntax): FormatSpec {
    Aligned(x).(sign := x.sign.Plus? || x.sign.Space?, plus := x.sign.Plus?, minus := x.sign.Minus?)
  }

  function Hashed(x: Syntax): FormatSpec {
    Signed(x).(hash := x.hash)
  }

  function Flagged(x: Syntax): FormatSpec {
    if x.zero then Hashed(x).(align := AlignNumeric, fill := '0') else Hashed(x)
  }

  lemma SignReads(f: string, s: nat, x: Syntax, tail: string, typ: nat)
    requires Legal(x, typ) && Reads(f, s, PrintSign(x), tail) && EndsSign(CharAt(tail, 0))
    ensures SignFlag(f, s, typ, Aligned(x)) == Success((Signed(x), s + |PrintSign(x)|))
  {
    hide LegalCount, Print, Fill;
    ReadOn(f, s, PrintSign(x), tail);
  }

  lemma HashReads(f: string, s: nat, x: Syntax, tail: string, typ: nat)
    requires Legal(x, typ) && Reads(f, s, PrintHash(x), tail) && EndsHash(CharAt(tail, 0))
    ensures HashFlag(f, s, typ, Signed(x)) == Success((Hashed(x), s + |PrintHash(x)|))
  {
    hide LegalCount, Print, Fill;
    ReadOn(f, s, PrintHash(x), tail);
  }

  lemma ZeroReads(f: string, s: nat, x: Syntax, tail: string, typ: nat)
    requires Legal(x, typ) && Reads(f, s, PrintZero(x), tail) && EndsFlags(x, CharAt(tail, 0))
    ensures ZeroFlag(f, s, typ, Hashed(x)) == Success((Flagged(x), s + |PrintZero(x)|))
  {
    hide LegalCount, Print, Fill;
    ReadOn(f, s, PrintZero(x), tail);
  }

  // What may stand behind the sign, the `#` and the `0`.

  predicate EndsSign(c: char) {
    c != '+' && c != '-' && c != ' '
  }

  predicate EndsHash(c: char) {
    EndsSign(c) && c != '#'
  }

  predicate EndsFlags(x: Syntax, c: char) {
    EndsHash(c) && (c == '0' ==> x.zero)
  }

  lemma FlagStarts(x: Syntax, tail: string)
    requires EndsFlags(x, CharAt(tail, 0))
    ensures EndsHash(CharAt(PrintZero(x) + tail, 0)) && EndsSign(CharAt(PrintHash(x) + PrintZero(x) + tail, 0))
  {
  }

  lemma OtherFlagsCompose(f: string, s: nat, s1: nat, s2: nat, s3: nat, typ: nat, x: Syntax)
    requires s <= |f| && SignFlag(f, s, typ, Aligned(x)) == Success((Signed(x), s1))
    requires HashFlag(f, s1, typ, Signed(x)) == Success((Hashed(x), s2))
    requires ZeroFlag(f, s2, typ, Hashed(x)) == Success((Flagged(x), s3))
    ensures OtherFlags(f, s, typ, Aligned(x)) == Success((Flagged(x), s3))
  {
    hide SignFlag, HashFlag, ZeroFlag, Flagged, Hashed, Signed, Aligned;
  }

  lemma OtherFlagsRead(f: string, s: nat, x: Syntax, tail: string, typ: nat)
    requires Legal(x, typ) && Reads(f, s, PrintFlags(x), tail) && EndsFlags(x, CharAt(tail, 0))
    ensures s <= |f| && OtherFlags(f, s, typ, Aligned(x)) == Success((Flagged(x), s + |PrintFlags(x)|))
  {
    hide *;
    var sign, hash, zero := PrintSign(x), PrintHash(x), PrintZero(x);
    PrintedParts(x);
    FlagStarts(x, tail);
    Break(f, s, sign, hash + zero, tail);
    Break(f, s + |sign|, hash, zero, tail);
    SignReads(f, s, x, hash + zero + tail, typ);
    HashReads(f, s + |sign|, x, zero + tail, typ);
    ZeroReads(f, s + |sign| + |hash|, x, tail, typ);
    OtherFlagsCompose(f, s, s + |sign|, s + |sign| + |hash|, s + |sign| + |hash| + |zero|, typ, x);
  }

  lemma FlagsCompose(f: string, s: nat, s1: nat, s2: nat, typ: nat, x: Syntax)
    requires s <= |f| && FillAlign(f, s, typ) == Success((x.align, Fill(x), s1))
    requires OtherFlags(f, s1, typ, Aligned(x)) == Success((Flagged(x), s2))
    ensures ParseFlags(f, s, typ) == Success((Flagged(x), s2))
  {
    hide FillAlign, OtherFlags, Flagged;
  }

  lemma FlagsRead(f: string, s: nat, x: Syntax, tail: string, typ: nat)
    requires Legal(x, typ) && Reads(f, s, PrintAlign(x) + PrintFlags(x), tail)
    requires Plainly(PrintFlags(x) + tail) && EndsFlags(x, CharAt(tail, 0))
    requires x.align.AlignDefault? ==> AlignOf(CharAt(PrintFlags(x) + tail, 1)) == AlignDefault
    ensures s <= |f| && ParseFlags(f, s, typ) == Success((Flagged(x), s + |PrintAlign(x) + PrintFlags(x)|))
  {
    hide *;
    Break(f, s, PrintAlign(x), PrintFlags(x), tail);
    AlignReads(f, s, x, PrintFlags(x) + tail, typ);
    OtherFlagsRead(f, s + |PrintAlign(x)|, x, tail, typ);
    FlagsCompose(f, s, s + |PrintAlign(x)|, s + |PrintAlign(x) + PrintFlags(x)|, typ, x);
  }

  lemma PrecisionReads(f: string, c: Cursor, x: Syntax, tail: string, typ: nat, args: seq<FormatArg>)
    requires At(f, c) && LegalCount(x.precision) && (!x.precision.NoCount? ==> typ > LAST_INTEGER_TYPE && typ != POINTER_ARG)
    requires Reads(f, c.pos, PrintPrecision(x), tail) && EndsPrecision(CharAt(tail, 0))
    ensures Precision(f, c, args, typ) == Placed(PrecisionMeant(x, args, c.ix), c.pos + |PrintPrecision(x)|)
  {
    hide Count, CountMeant, LegalCount, PrintCount, Disciplined;
    if x.precision.NoCount? {
      NoPrecisionMeant(x, args, c.ix);
      ReadOn(f, c.pos, "", tail);
    } else {
      var text := PrintCount(x.precision);
      Break(f, c.pos, ".", text, tail);
      ReadOn(f, c.pos, ".", text + tail);
      StillAt(f, c, c.pos + 1, text, tail);
      CountReads(f, Cursor(c.pos + 1, c.ix), x.precision, tail, args, "precision");
    }
  }

  ghost function PrecisionMeant(x: Syntax, args: seq<FormatArg>, ix: Indexing): (r: Result<(int, Indexing), string>)
    requires Disciplined(ix)
    ensures r.Success? ==> Disciplined(r.value.1)
  {
    var precision :- CountMeant(x.precision, args, ix, "precision");
    Success((if precision.0.Some? then precision.0.value as int else -1, precision.1))
  }

  lemma NoPrecisionMeant(x: Syntax, args: seq<FormatArg>, ix: Indexing)
    requires Disciplined(ix) && x.precision.NoCount?
    ensures PrecisionMeant(x, args, ix) == Success((-1, ix))
  {
  }

  // What may stand behind a precision and behind a width.

  predicate EndsPrecision(c: char) {
    c == '}' || IsLetter(c)
  }

  predicate EndsWidth(c: char) {
    EndsPrecision(c) || c == '.'
  }

  lemma SizeStarts(x: Syntax, typ: nat, tail: string)
    requires Legal(x, typ) && CharAt(tail, 0) == '}'
    ensures EndsPrecision(CharAt(PrintType(x) + tail, 0))
    ensures EndsWidth(CharAt(PrintPrecision(x) + PrintType(x) + tail, 0))
  {
    if !x.precision.NoCount? {
      assert (PrintPrecision(x) + PrintType(x) + tail)[0] == '.';
    } else {
      assert PrintPrecision(x) + PrintType(x) == PrintType(x);
    }
  }

  /** The type letter, or its absence before the closing brace. */
  lemma TypeReads(f: string, s: nat, x: Syntax, typ: nat, tail: string)
    requires Legal(x, typ) && Reads(f, s, PrintType(x), tail) && CharAt(tail, 0) == '}'
    ensures x.typ.Some? ==> CharAt(f, s) == x.typ.value && IsLetter(x.typ.value)
    ensures x.typ.None? ==> CharAt(f, s) == '}'
  {
    ReadOn(f, s, PrintType(x), tail);
  }

  lemma SizesCompose(f: string, c: Cursor, d: nat, e: nat, x: Syntax, typ: nat, args: seq<FormatArg>)
    requires At(f, c) && d <= e && e + |PrintType(x)| <= |f|
    requires Count(f, c, args, "width") == Placed(CountMeant(x.width, args, c.ix, "width"), d)
    requires forall ix :: Disciplined(ix) ==>
               At(f, Cursor(d, ix)) && Precision(f, Cursor(d, ix), args, typ) == Placed(PrecisionMeant(x, args, ix), e)
    requires x.typ.Some? ==> CharAt(f, e) == x.typ.value && IsLetter(x.typ.value)
    requires x.typ.None? ==> CharAt(f, e) == '}'
    ensures ParseSizes(f, c, args, typ, Flagged(x)) == Placed(SpecMeant(x, args, c.ix), e + |PrintType(x)|)
  {
    hide Count, Precision, CountMeant, Disciplined;
    if Count(f, c, args, "width").Success? {
      var ix := CountMeant(x.width, args, c.ix, "width").value.1;
      assert Precision(f, Cursor(d, ix), args, typ) == Placed(PrecisionMeant(x, args, ix), e);
    }
  }

  lemma SizesRead(f: string, c: Cursor, x: Syntax, tail: string, typ: nat, args: seq<FormatArg>)
    requires At(f, c) && Legal(x, typ) && Reads(f, c.pos, PrintSizes(x), tail) && CharAt(tail, 0) == '}'
    ensures ParseSizes(f, c, args, typ, Flagged(x)) == Placed(SpecMeant(x, args, c.ix), c.pos + |PrintSizes(x)|)
  {
    hide *;
    var width, precision, letter := PrintWidth(x), PrintPrecision(x), PrintType(x);
    PrintedParts(x);
    LegalSizes(x, typ);
    SizeStarts(x, typ, tail);
    AfterWidth(CharAt(precision + letter + tail, 0));
    var d: nat := c.pos + |width|;
    var e: nat := d + |precision|;
    Break(f, c.pos, width, precision + letter, tail);
    Break(f, d, precision, letter, tail);
    Within(f, e, letter, tail);
    CountReads(f, c, x.width, precision + letter + tail, args, "width");
    forall ix | Disciplined(ix)
      ensures At(f, Cursor(d, ix)) && Precision(f, Cursor(d, ix), args, typ) == Placed(PrecisionMeant(x, args, ix), e)
    {
      AtOf(f, d, ix);
      PrecisionReads(f, Cursor(d, ix), x, letter + tail, typ, args);
    }
    TypeReads(f, e, x, typ, tail);
    SizesCompose(f, c, d, e, x, typ, args);
  }

  lemma LegalSizes(x: Syntax, typ: nat)
    requires Legal(x, typ)
    ensures LegalCount(x.width) && LegalCount(x.precision) && PrintWidth(x) == PrintCount(x.width)
    ensures !x.precision.NoCount? ==> typ > LAST_INTEGER_TYPE && typ != POINTER_ARG
  {
  }

  lemma AfterWidth(c: char)
    requires EndsWidth(c)
    ensures !IsDigit(c) && c != '{'
  {
  }

  // ----- the whole

  /** No character that could be taken for an alignment. */
  ghost predicate AllPlain(s: string) {
    forall i :: 0 <= i < |s| ==> AlignOf(s[i]) == AlignDefault && s[i] != '\0'
  }

  lemma PlainConcat(a: string, b: string)
    requires AllPlain(a) && AllPlain(b)
    ensures AllPlain(a + b)
  {
  }

  lemma DecimalIsPlain(n: nat)
    ensures AllPlain(Decimal(n))
  {
    DecimalDigits(n);
    forall i | 0 <= i < |Decimal(n)| ensures AlignOf(Decimal(n)[i]) == AlignDefault && Decimal(n)[i] != '\0' {
      assert IsDigit(Decimal(n)[i]);
    }
  }

  lemma CountIsPlain(w: CountForm)
    requires LegalCount(w)
    ensures AllPlain(PrintCount(w))
  {
    match w
    case NoCount =>
    case Given(n) => DecimalIsPlain(n);
    case Nested(ref) =>
      match ref
      case Automatic =>
      case Index(n) => DecimalIsPlain(n);
      case Name(name) => assert forall i :: 0 <= i < |name| ==> IsNameChar(name[i]);
  }

  lemma PartIsPlain(x: Syntax, typ: nat)
    requires Legal(x, typ)
    ensures AllPlain(PrintSign(x)) && AllPlain(PrintHash(x)) && AllPlain(PrintZero(x))
    ensures AllPlain(PrintWidth(x)) && AllPlain(PrintPrecision(x)) && AllPlain(PrintType(x))
  {
    hide PrintCount, LegalCount;
    CountIsPlain(x.width);
    CountIsPlain(x.precision);
    PlainConcat(".", PrintCount(x.precision));
  }

  lemma PartsArePlain(x: Syntax, typ: nat)
    requires Legal(x, typ)
    ensures AllPlain(PrintFlags(x) + PrintSizes(x))
  {
    var sign, hash, zero := PrintSign(x), PrintHash(x), PrintZero(x);
    var width, precision, letter := PrintWidth(x), PrintPrecision(x), PrintType(x);
    PartIsPlain(x, typ);
    hide *;
    PrintedParts(x);
    PlainConcat(hash, zero);
    PlainConcat(sign, hash + zero);
    PlainConcat(precision, letter);
    PlainConcat(width, precision + letter);
    PlainConcat(PrintFlags(x), PrintSizes(x));
  }

  /** What width, precision and type can start with. */
  lemma SizesStart(x: Syntax, typ: nat, tail: string)
    requires Legal(x, typ) && CharAt(tail, 0) == '}'
    ensures EndsFlags(x, CharAt(PrintSizes(x) + tail, 0))
  {
    match x.width
    case Given(n) =>
      DecimalDigits(n);
      NoLeadingZero(n, 10, false);
      assert (PrintSizes(x) + tail)[0] == Decimal(n)[0];
    case Nested(_) => assert (PrintSizes(x) + tail)[0] == '{';
    case NoCount => assert !x.precision.NoCount? ==> (PrintSizes(x) + tail)[0] == '.';
  }

  lemma PlainStart(body: string, tail: string)
    requires AllPlain(body) && CharAt(tail, 0) == '}'
    ensures Plainly(body + tail)
    ensures body != "" ==> AlignOf(CharAt(body + tail, 1)) == AlignDefault
  {
  }

  lemma PrintStarts(x: Syntax, typ: nat, tail: string)
    requires Legal(x, typ) && CharAt(tail, 0) == '}'
    ensures Plainly(PrintFlags(x) + (PrintSizes(x) + tail))
    ensures x.align.AlignDefault? ==> AlignOf(CharAt(PrintFlags(x) + (PrintSizes(x) + tail), 1)) == AlignDefault
  {
    hide PrintFlags, PrintSizes, AllPlain;
    var flags, sizes := PrintFlags(x), PrintSizes(x);
    PartsArePlain(x, typ);
    assert x.align.AlignDefault? ==> flags + sizes != "";
    PlainStart(flags + sizes, tail);
    assert flags + sizes + tail == flags + (sizes + tail);
  }

  lemma SpecCompose(f: string, c: Cursor, s: nat, end: nat, x: Syntax, typ: nat, args: seq<FormatArg>)
    requires At(f, c) && ParseFlags(f, c.pos, typ) == Success((Flagged(x), s))
    requires ParseSizes(f, Cursor(s, c.ix), args, typ, Flagged(x)) == Placed(SpecMeant(x, args, c.ix), end)
    ensures ParseSpec(f, c, args, typ) == Placed(SpecMeant(x, args, c.ix), end)
  {
    hide ParseFlags, ParseSizes, SpecMeant, Flagged, Disciplined;
  }

  /** Parsing what was printed gives the meaning back, with the cursor at the closing brace. */
  lemma SpecReads(f: string, c: Cursor, x: Syntax, tail: string, typ: nat, args: seq<FormatArg>)
    requires At(f, c) && Legal(x, typ) && Reads(f, c.pos, Print(x), tail) && CharAt(tail, 0) == '}'
    ensures ParseSpec(f, c, args, typ) == Placed(SpecMeant(x, args, c.ix), c.pos + |Print(x)|)
  {
    hide *;
    var head, sizes := PrintAlign(x) + PrintFlags(x), PrintSizes(x);
    PrintedParts(x);
    Break(f, c.pos, head, sizes, tail);
    AtKnows(f, c);
    StillAt(f, c, c.pos + |head|, sizes, tail);
    PrintStarts(x, typ, tail);
    SizesStart(x, typ, tail);
    FlagsRead(f, c.pos, x, sizes + tail, typ);
    SizesRead(f, Cursor(c.pos + |head|, c.ix), x, tail, typ, args);
    SpecCompose(f, c, c.pos + |head|, c.pos + |Print(x)|, x, typ, args);
  }

  lemma FieldCompose(f: string, c: Cursor, end: nat, r: Result<(FormatSpec, Indexing), string>, typ: nat, args: seq<FormatArg>)
    requires At(f, c) && c.pos < |f| && CharAt(f, c.pos) == ':' && end < |f| && CharAt(f, end) == '}'
    requires ParseSpec(f, Cursor(c.pos + 1, c.ix), args, typ) == Placed(r, end)
    ensures ParseField(f, c, args, typ) == Placed(r, end + 1)
  {
    hide ParseSpec, Disciplined;
  }

  lemma FieldReads(f: string, c: Cursor, x: Syntax, text: string, rest: string, typ: nat, args: seq<FormatArg>)
    requires At(f, c) && Legal(x, typ) && text == Print(x) && Reads(f, c.pos, ":" + (text + "}"), rest)
    ensures ParseField(f, c, args, typ) == Placed(SpecMeant(x, args, c.ix), c.pos + |text| + 2)
  {
    hide Legal, Print, ParseField, ParseSpec, SpecMeant, Disciplined, Reads;
    Break(f, c.pos, ":", text + "}", rest);
    Break(f, c.pos + 1, text, "}", rest);
    ReadOn(f, c.pos, ":", text + "}" + rest);
    ReadOn(f, c.pos + 1, text, "}" + rest);
    Within(f, c.pos + 1 + |text|, "}", rest);
    StillAt(f, c, c.pos + 1, text, "}" + rest);
    assert ("}" + rest)[0] == '}';
    SpecReads(f, Cursor(c.pos + 1, c.ix), x, "}" + rest, typ, args);
    FieldCompose(f, c, c.pos + 1 + |text|, SpecMeant(x, args, c.ix), typ, args);
  }

  /**
   Every legal, non-empty specification parses back to what it stands for, whatever surrounds it,
   with the cursor just behind the closing brace.
   */
  lemma ParserInvertsPrinter(before: string, x: Syntax, rest: string, typ: nat, args: seq<FormatArg>, ix: Indexing)
    requires Legal(x, typ) && Disciplined(ix)
    ensures ParseField(before + (":" + Print(x) + "}") + rest, Cursor(|before|, ix), args, typ)
         == Placed(SpecMeant(x, args, ix), |before| + |Print(x)| + 2)
    ensures Literal(x) ==> SpecMeant(x, args, ix) == Success((Meaning(x), ix))
  {
    hide Legal, Print, ParseField, SpecMeant, Meaning;
    var text := Print(x);
    assert ":" + text + "}" == ":" + (text + "}");
    StandsAt(before, ":" + (text + "}"), rest);
    FieldReads(before + (":" + text + "}") + rest, Cursor(|before|, ix), x, text, rest, typ, args);
    if Literal(x) { LiteralMeaning(x, args, ix); }
  }

  /**
   The empty specification is the exception: the scan looks one character behind the brace, so
   `:}` means the default exactly when no alignment character follows it.
   */
  lemma EmptySpecLooksAhead(before: string, rest: string, typ: nat, args: seq<FormatArg>, ix: Indexing)
    requires Disciplined(ix)
    ensures ParseField(before + ":}" + rest, Cursor(|before|, ix), args, typ)
         == Success((PLAIN.(align := AlignOf(CharAt(rest, 0))), Cursor(|before| + 2, ix)))
  {
    StandsAt(before, ":}", rest);
    EmptySpecAt(before + ":}" + rest, Cursor(|before|, ix), rest, typ, args);
  }

  lemma EmptySpecAt(f: string, c: Cursor, rest: string, typ: nat, args: seq<FormatArg>)
    requires At(f, c) && Reads(f, c.pos, ":}", rest)
    ensures ParseField(f, c, args, typ) == Success((PLAIN.(align := AlignOf(CharAt(rest, 0))), c.(pos := c.pos + 2)))
  {
    ReadOn(f, c.pos, ":}", rest);
    var s := c.pos + 1;
    assert CharAt(f, s) == '}' && CharAt(f, s + 1) == CharAt(rest, 0);
    assert ParseFlags(f, s, typ) == Success((PLAIN.(align := AlignOf(CharAt(rest, 0))), s));
  }
}
