/** printf templates: literal text and directives in sequence, printed as one format string. */
module PrintfTemplate {
  import opened Wrappers
  import opened ArgList
  import opened Numerals
  import opened ParseInt
  import opened FormatSpecs
  import opened FormatterSpec
  import opened Reading
  import opened PrintfSpec
  import opened PrintfSyntax
  import DecimalText
  import IntWriter
  import Template

  datatype Piece = Text(s: string) | Field(x: Form)

  function PrintPiece(p: Piece): string {
    match p
    case Text(s) => DoublePercents(s)
    case Field(x) => "%" + PrintForm(x)
  }

  function PrintTemplate(ps: seq<Piece>): string {
    if ps == [] then "" else PrintPiece(ps[0]) + PrintTemplate(ps[1..])
  }

  /** Text is NUL-free and directives are legal. */
  ghost predicate Printable(p: Piece) {
    match p
    case Text(s) => '\0' !in s
    case Field(x) => LegalForm(x)
  }

  /** One directive: the chosen argument, converted and rendered. */
  ghost function Written(x: Form, args: seq<FormatArg>, render: Renderer, ix: Indexing): (r: Result<(string, Indexing), string>)
    requires Disciplined(ix)
    ensures r.Success? ==> Disciplined(r.value.1)
  {
    var meant :- FormMeant(x, args, ix);
    var text :- render(meant.0.0, meant.0.1);
    Success((text, meant.1))
  }

  /** What a template stands for: its texts and rendered directives in order. */
  ghost function Meant(ps: seq<Piece>, args: seq<FormatArg>, render: Renderer, ix: Indexing): Result<(string, Indexing), string>
    requires Disciplined(ix)
  {
    if ps == [] then Success(("", ix)) else
      match ps[0]
      case Text(s) => Prepend(s, Meant(ps[1..], args, render, ix))
      case Field(x) =>
        var field :- Written(x, args, render, ix);
        Prepend(field.0, Meant(ps[1..], args, render, field.1))
  }

  lemma NotDoubled(x: Form)
    requires LegalForm(x)
    ensures PrintForm(x) != "" && PrintForm(x)[0] != '%'
  {
    FormParts(x);
    PrecisionStarts(x, "");
    var tail := PrintPrecision(x.precision) + PrintEnd(x);
    assert tail + "" == tail;
    LegalParts(x);
    if x.index.Some? {
      DecimalDigits(x.index.value);
      assert PrintForm(x)[0] == Decimal(x.index.value)[0];
      assert IsDigit(PrintForm(x)[0]);
    } else {
      WidthStarts(x.width, tail);
      assert PrintForm(x) == x.flags + (PrintWidth(x.width) + tail);
      assert x.flags != [] ==> PrintForm(x)[0] == x.flags[0];
      assert x.flags == [] ==> PrintForm(x) == PrintWidth(x.width) + tail;
    }
  }

  lemma FieldOutput(f: string, s: nat, end: nat, x: Form, args: seq<FormatArg>, render: Renderer, ix: Indexing)
    requires s + 1 < end <= |f| && f[s] == '%' && f[s + 1] != '%' && Disciplined(ix)
    requires Directive(f, Cursor(s + 1, ix), args) == Placed(FormMeant(x, args, ix), end)
    ensures var w := Written(x, args, render, ix);
            PrintfOutput(f, Cursor(s, ix), args, render)
              == if w.Failure? then Failure(w.error)
                 else Prepend(w.value.0, PrintfOutput(f, Cursor(end, w.value.1), args, render))
  {
    hide Directive, FormMeant, Disciplined;
  }

  lemma FieldMeans(before: string, x: Form, rest: string, args: seq<FormatArg>, render: Renderer, ix: Indexing)
    requires Disciplined(ix) && LegalForm(x)
    ensures var f, w := before + PrintPiece(Field(x)) + rest, Written(x, args, render, ix);
            PrintfOutput(f, Cursor(|before|, ix), args, render)
              == if w.Failure? then Failure(w.error)
                 else Prepend(w.value.0, PrintfOutput(f, Cursor(|before + PrintPiece(Field(x))|, w.value.1), args, render))
  {
    hide PrintForm, LegalForm, PrintfOutput, Written, Disciplined, Directive, FormMeant;
    var f, s, text := before + PrintPiece(Field(x)) + rest, |before|, PrintForm(x);
    NotDoubled(x);
    assert f == before + "%" + text + rest;
    assert Reads(f, s + 1, text, rest);
    DirectiveReads(f, Cursor(s + 1, ix), x, rest, args);
    assert f[s] == '%' && f[s + 1] == text[0];
    FieldOutput(f, s, s + 1 + |text|, x, args, render, ix);
  }

  lemma {:induction false} PiecesMean(before: string, ps: seq<Piece>, args: seq<FormatArg>, render: Renderer, ix: Indexing)
    requires Disciplined(ix) && forall i :: 0 <= i < |ps| ==> Printable(ps[i])
    ensures PrintfOutput(before + PrintTemplate(ps), Cursor(|before|, ix), args, render) == Meant(ps, args, render, ix)
    decreases |ps|
  {
    hide Directive, LegalForm, PrintForm, Written, Disciplined, DoublePercents;
    var f := before + PrintTemplate(ps);
    if ps == [] {
      assert CharAt(f, |before|) == '\0';
    } else {
      var rest := PrintTemplate(ps[1..]);
      assert f == before + PrintPiece(ps[0]) + rest;
      assert Printable(ps[0]);
      match ps[0]
      case Text(s) =>
        EscapedPercents(before, s, rest, args, render, ix);
        PiecesMean(before + PrintPiece(ps[0]), ps[1..], args, render, ix);
      case Field(x) =>
        FieldMeans(before, x, rest, args, render, ix);
        if Written(x, args, render, ix).Success? {
          PiecesMean(before + PrintPiece(ps[0]), ps[1..], args, render, Written(x, args, render, ix).value.1);
        }
    }
  }

  /**
   Printing a template through the printf formatter gives its meaning: text and rendered directives
   interleaved in order, indices, stars and conversions included, errors included.
   */
  lemma TemplatesMean(ps: seq<Piece>, args: seq<FormatArg>, render: Renderer)
    requires forall i :: 0 <= i < |ps| ==> Printable(ps[i])
    ensures PrintfOutput(PrintTemplate(ps), Cursor(0, START), args, render) == Meant(ps, args, render, START)
  {
    PiecesMean("", ps, args, render, START);
    assert "" + PrintTemplate(ps) == PrintTemplate(ps);
  }

  // ----- integers

  /** An integer conversion of the next or the first argument, with literal or absent width and precision. */
  ghost predicate Integral(x: Form) {
    && LegalForm(x) && (x.index == None || x.index == Some(1)) && !x.width.Star? && !x.precision.DotStar?
    && (x.letter == 'd' || x.letter == 'i' || x.letter == 'u' || x.letter == 'x' || x.letter == 'X' || x.letter == 'o')
  }

  /** The specification of such a form, before the argument adjusts it. */
  function SpecOf(x: Form): FormatSpec
    requires !x.width.Star? && !x.precision.DotStar?
  {
    var flagged := Folded(x.flags, RIGHT);
    (if x.width.Digits? then flagged.(width := x.width.n) else flagged)
    .(precision := if x.precision.DotDigits? then x.precision.n else -1)
  }

  function LetterOf(x: Form): char {
    if x.letter == 'i' || x.letter == 'u' then 'd' else x.letter
  }

  /** How the argument is written: its converted value under the adjusted specification. */
  function IntegerText(x: Form, arg: FormatArg): string
    requires !x.width.Star? && !x.precision.DotStar? && IntWriter.BaseOf(LetterOf(x)).Some?
    requires Converted(x.modifier, arg, x.letter).value.Number?
  {
    IntWriter.Formatted(Converted(x.modifier, arg, x.letter).value.n, Adjust(SpecOf(x), arg).(typ := LetterOf(x)))
  }

  function RefOf(x: Form): Indexing {
    if x.index.None? then Indexing(1, [Auto(0)]) else Indexing(-1, [Manual(0)])
  }

  lemma ConvertedIsInteger(m: Modifier, arg: FormatArg, letter: char)
    requires INT <= arg.typ <= ULONG_LONG && arg.value.Number?
    ensures var c := Converted(m, arg, letter); INT <= c.typ <= ULONG_LONG && c.value.Number?
  {
    hide Wrap;
  }

  lemma OnlyArgument(x: Form, args: seq<FormatArg>)
    requires |args| == 1 && INT <= args[0].typ <= ULONG_LONG && (x.index == None || x.index == Some(1))
    ensures Chosen(x.index, args, START) == Success((args[0], RefOf(x)))
  {
    assert START.refs + [Auto(0)] == [Auto(0)] && START.refs + [Manual(0)] == [Manual(0)];
  }

  lemma IntegralMeant(x: Form, args: seq<FormatArg>)
    requires Integral(x) && |args| == 1 && INT <= args[0].typ <= ULONG_LONG && args[0].value.Number?
    ensures FormMeant(x, args, START)
         == Success(((Converted(x.modifier, args[0], x.letter), Adjust(SpecOf(x), args[0]).(typ := LetterOf(x))), RefOf(x)))
  {
    hide Converted, Adjust, Folded, Chosen, RefOf, Typed, LegalForm;
    OnlyArgument(x, args);
    ConvertedIsInteger(x.modifier, args[0], x.letter);
    IntegerTyped(Converted(x.modifier, args[0], x.letter), Adjust(SpecOf(x), args[0]), x);
  }

  lemma IntegerTyped(arg: FormatArg, spec: FormatSpec, x: Form)
    requires arg.typ <= LAST_INTEGER_TYPE && x.letter != 'c'
    ensures Typed(arg, spec, x.letter) == (arg, spec.(typ := LetterOf(x)))
  {
  }

  /**
   Any integer conversion (d, i, u, x, X, o) with any flags, literal width and precision and length modifier,
   in the middle of any escaped text: the output is the converted value, formatted in the base of the
   letter under the directive's own specification.
   */
  lemma IntegerPrinted(before: string, x: Form, after: string, n: int, typ: nat)
    requires Integral(x) && INT <= typ <= ULONG_LONG && '\0' !in before && '\0' !in after
    ensures IntWriter.BaseOf(LetterOf(x)).Some? && Converted(x.modifier, Arg(Number(n), typ), x.letter).value.Number?
    ensures PrintfOutput(DoublePercents(before) + ("%" + PrintForm(x)) + DoublePercents(after),
                         Cursor(0, START), [Arg(Number(n), typ)], Template.WriteInteger)
         == Success((before + IntegerText(x, Arg(Number(n), typ)) + after, RefOf(x)))
  {
    hide PrintForm, DoublePercents, FormMeant, Converted, Adjust, SpecOf, PrintfOutput, IntWriter.Formatted, LegalForm;
    var args: seq<FormatArg> := [Arg(Number(n), typ)];
    IntegralMeant(x, args);
    ConvertedIsInteger(x.modifier, args[0], x.letter);
    assert Written(x, args, Template.WriteInteger, START) == Success((IntegerText(x, args[0]), RefOf(x)));
    ThreePieces(before, x, after, args, IntegerText(x, args[0]), RefOf(x));
  }

  /** A bare decimal directive with a length modifier. */
  function Decimals(m: Modifier, letter: char): Form {
    Form(None, "", NoWidth, NoPrecision, m, letter)
  }

  lemma BareDecimal(value: int)
    ensures IntWriter.Formatted(value, RIGHT.(typ := 'd')) == DecimalText.SignedDecimal(value)
  {
    hide Numeral, IntWriter.Surroundings;
    var spec := RIGHT.(typ := 'd');
    var digits := Decimal(IntWriter.Magnitude(value));
    IntWriter.PlainSurroundings(|digits|, spec, IntWriter.Prefix(value < 0, spec));
    IntWriter.NoPadding(|digits|, spec, IntWriter.Prefix(value < 0, spec));
    assert IntWriter.Prefix(value < 0, spec) + digits + [] == DecimalText.SignedDecimal(value);
  }

  lemma DecimalsIntegral(m: Modifier, letter: char, arg: FormatArg)
    requires letter == 'd' || letter == 'i' || letter == 'u'
    ensures Integral(Decimals(m, letter)) && LetterOf(Decimals(m, letter)) == 'd'
    ensures Adjust(SpecOf(Decimals(m, letter)), arg).(typ := 'd') == RIGHT.(typ := 'd')
  {
    assert SpecOf(Decimals(m, letter)) == RIGHT;
    assert Adjust(RIGHT, arg) == RIGHT;
  }

  /** Under bare `%d`, `%i` or `%u`, with any length modifier, that is the signed decimal text of the converted value. */
  lemma DecimalPrinted(before: string, m: Modifier, letter: char, after: string, n: int, typ: nat)
    requires letter == 'd' || letter == 'i' || letter == 'u'
    requires INT <= typ <= ULONG_LONG && '\0' !in before && '\0' !in after
    ensures var arg := Converted(m, Arg(Number(n), typ), letter);
            && arg.value.Number?
            && PrintfOutput(DoublePercents(before) + ("%" + PrintForm(Decimals(m, letter))) + DoublePercents(after),
                            Cursor(0, START), [Arg(Number(n), typ)], Template.WriteInteger)
               == Success((before + DecimalText.SignedDecimal(arg.value.n) + after, Indexing(1, [Auto(0)])))
  {
    hide PrintForm, DoublePercents, Converted, Adjust, SpecOf, PrintfOutput, IntWriter.Formatted, LegalForm, Integral;
    DecimalsIntegral(m, letter, Arg(Number(n), typ));
    IntegerPrinted(before, Decimals(m, letter), after, n, typ);
    BareDecimal(Converted(m, Arg(Number(n), typ), letter).value.n);
  }

  lemma ThreePieces(before: string, x: Form, after: string, args: seq<FormatArg>, text: string, end: Indexing)
    requires LegalForm(x) && '\0' !in before && '\0' !in after && Disciplined(end)
    requires Written(x, args, Template.WriteInteger, START) == Success((text, end))
    ensures PrintfOutput(DoublePercents(before) + ("%" + PrintForm(x)) + DoublePercents(after), Cursor(0, START), args, Template.WriteInteger)
         == Success((before + text + after, end))
  {
    hide Written, PrintForm, LegalForm, DoublePercents, PrintfOutput;
    var ps := [Text(before), Field(x), Text(after)];
    assert ps[1..] == [Field(x), Text(after)] && ps[1..][1..] == [Text(after)] && ps[1..][1..][1..] == [];
    assert PrintTemplate([]) == "" && DoublePercents(after) + "" == DoublePercents(after);
    assert PrintTemplate([Text(after)]) == DoublePercents(after);
    assert PrintTemplate([Field(x), Text(after)]) == ("%" + PrintForm(x)) + DoublePercents(after);
    assert PrintTemplate(ps) == DoublePercents(before) + ("%" + PrintForm(x)) + DoublePercents(after);
    assert after + "" == after;
    assert Meant([Text(after)], args, Template.WriteInteger, end) == Success((after, end));
    assert Meant([Field(x), Text(after)], args, Template.WriteInteger, START) == Success((text + after, end));
    assert before + (text + after) == before + text + after;
    TemplatesMean(ps, args, Template.WriteInteger);
  }
}
