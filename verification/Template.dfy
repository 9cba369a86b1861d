/** Templates: literal text and replacement fields in sequence, printed as one format string. */
module Template {
  import opened Wrappers
  import opened ArgList
  import opened FormatSpecs
  import opened Numerals
  import opened ParseInt
  import opened FormatterSpec
  import opened Reading
  import opened References
  import opened SpecSyntax
  import opened IntWriter
  import MemoryBuffer

  datatype Piece = Text(s: string) | Field(ref: Reference, spec: Option<Syntax>)

  function PrintSpec(spec: Option<Syntax>): string {
    if spec.Some? then ":" + Print(spec.value) else ""
  }

  function PrintField(ref: Reference, spec: Option<Syntax>): string {
    "{" + (PrintRef(ref) + (PrintSpec(spec) + "}"))
  }

  function PrintPiece(p: Piece): string {
    match p
    case Text(s) => DoubleBraces(s)
    case Field(ref, spec) => PrintField(ref, spec)
  }

  function PrintTemplate(ps: seq<Piece>): string {
    if ps == [] then "" else PrintPiece(ps[0]) + PrintTemplate(ps[1..])
  }

  /** The specification of a field; a field without one is written plainly. */
  ghost function FieldSpecMeant(spec: Option<Syntax>, args: seq<FormatArg>, ix: Indexing): (r: Result<(FormatSpec, Indexing), string>)
    requires Disciplined(ix)
    ensures r.Success? ==> Disciplined(r.value.1)
  {
    if spec.Some? then SpecMeant(spec.value, args, ix) else Success((PLAIN, ix))
  }

  /** The reference is well written, and the specification legal for the argument it gets. */
  ghost predicate FieldFits(ref: Reference, spec: Option<Syntax>, args: seq<FormatArg>, ix: Indexing)
    requires Disciplined(ix)
  {
    && LegalRef(ref)
    && (spec.Some? && RefMeant(ref, args, ix).Success? ==> Legal(spec.value, RefMeant(ref, args, ix).value.0.typ))
  }

  /** One field: its argument, its specification, and the argument rendered under it. */
  ghost function Written(ref: Reference, spec: Option<Syntax>, args: seq<FormatArg>, render: Renderer, ix: Indexing)
    : (r: Result<(string, Indexing), string>)
    requires Disciplined(ix)
    ensures r.Success? ==> Disciplined(r.value.1)
  {
    var arg :- RefMeant(ref, args, ix);
    var meant :- FieldSpecMeant(spec, args, arg.1);
    var text :- render(arg.0, meant.0);
    Success((text, meant.1))
  }

  /** Text is NUL-free, and every field fits the arguments, as far as formatting gets. */
  ghost predicate Fits(ps: seq<Piece>, args: seq<FormatArg>, render: Renderer, ix: Indexing)
    requires Disciplined(ix)
  {
    ps != [] ==>
      match ps[0]
      case Text(s) => '\0' !in s && Fits(ps[1..], args, render, ix)
      case Field(ref, spec) =>
        && FieldFits(ref, spec, args, ix)
        && (Written(ref, spec, args, render, ix).Success? ==>
              Fits(ps[1..], args, render, Written(ref, spec, args, render, ix).value.1))
  }

  /** What a template stands for: its texts and its rendered fields, in order. */
  ghost function Meant(ps: seq<Piece>, args: seq<FormatArg>, render: Renderer, ix: Indexing): Result<(string, Indexing), string>
    requires Disciplined(ix)
  {
    if ps == [] then Success(("", ix)) else
      match ps[0]
      case Text(s) => Prepend(s, Meant(ps[1..], args, render, ix))
      case Field(ref, spec) =>
        var field :- Written(ref, spec, args, render, ix);
        Prepend(field.0, Meant(ps[1..], args, render, field.1))
  }

  lemma FieldOutput(f: string, s: nat, mid: nat, end: nat, ref: Reference, spec: Option<Syntax>,
                    args: seq<FormatArg>, render: Renderer, ix: Indexing)
    requires s + 1 <= mid < end <= |f| && f[s] == '{' && f[s + 1] != '{' && Disciplined(ix)
    requires ParseRef(f, Cursor(s + 1, ix), args) == Placed(RefMeant(ref, args, ix), mid)
    requires RefMeant(ref, args, ix).Success? ==>
               var (arg, after) := RefMeant(ref, args, ix).value;
               ParseField(f, Cursor(mid, after), args, arg.typ) == Placed(FieldSpecMeant(spec, args, after), end)
    ensures var w := Written(ref, spec, args, render, ix);
            Output(f, Cursor(s, ix), args, render)
              == if w.Failure? then Failure(w.error)
                 else Prepend(w.value.0, Output(f, Cursor(end, w.value.1), args, render))
  {
    hide ParseRef, ParseField, RefMeant, FieldSpecMeant, Disciplined;
  }

  lemma SpecStarts(spec: Option<Syntax>, rest: string)
    ensures EndsRef(CharAt(PrintSpec(spec) + "}" + rest, 0))
  {
    if spec.Some? {
      assert (PrintSpec(spec) + "}" + rest)[0] == ':';
    } else {
      assert PrintSpec(spec) + "}" + rest == "}" + rest;
    }
  }

  lemma RefStarts(ref: Reference, tail: string)
    requires LegalRef(ref) && EndsRef(CharAt(tail, 0))
    ensures CharAt(PrintRef(ref) + tail, 0) != '{' && PrintRef(ref) + tail != ""
  {
    match ref
    case Automatic => assert PrintRef(ref) + tail == tail;
    case Index(n) =>
      DecimalDigits(n);
      assert (PrintRef(ref) + tail)[0] == Decimal(n)[0] && IsDigit(Decimal(n)[0]);
    case Name(name) => assert (PrintRef(ref) + tail)[0] == name[0];
  }

  lemma SpecFieldReads(f: string, c: Cursor, spec: Option<Syntax>, rest: string, typ: nat, args: seq<FormatArg>)
    requires At(f, c) && (spec.Some? ==> Legal(spec.value, typ)) && Reads(f, c.pos, PrintSpec(spec) + "}", rest)
    ensures ParseField(f, c, args, typ) == Placed(FieldSpecMeant(spec, args, c.ix), c.pos + |PrintSpec(spec)| + 1)
  {
    hide Legal, Print, ParseSpec, SpecMeant, Disciplined;
    if spec.Some? {
      var text := Print(spec.value);
      assert PrintSpec(spec) + "}" == ":" + (text + "}");
      FieldReads(f, c, spec.value, text, rest, typ, args);
    } else {
      assert PrintSpec(spec) + "}" == "}";
      ReadOn(f, c.pos, "}", rest);
      assert CharAt(f, c.pos) == '}';
    }
  }

  lemma FieldMeansAt(f: string, s: nat, ref: Reference, spec: Option<Syntax>, rest: string,
                     args: seq<FormatArg>, render: Renderer, ix: Indexing)
    requires Disciplined(ix) && FieldFits(ref, spec, args, ix) && Reads(f, s, PrintField(ref, spec), rest)
    ensures s + |PrintField(ref, spec)| <= |f|
    ensures var w := Written(ref, spec, args, render, ix);
            Output(f, Cursor(s, ix), args, render)
              == if w.Failure? then Failure(w.error)
                 else Prepend(w.value.0, Output(f, Cursor(s + |PrintField(ref, spec)|, w.value.1), args, render))
  {
    hide Legal, PrintSpec, PrintRef, LegalRef, ParseRef, ParseField, Output, Written, RefMeant, FieldSpecMeant, Disciplined, Reads;
    var name, tail := PrintRef(ref), PrintSpec(spec) + "}";
    var mid: nat := s + 1 + |name|;
    Break(f, s, "{", name + tail, rest);
    ReadOn(f, s, "{", name + tail + rest);
    assert ("{")[0] == '{';
    Break(f, s + 1, name, tail, rest);
    SpecStarts(spec, rest);
    RefStarts(ref, tail + rest);
    assert name + tail + rest == name + (tail + rest);
    Within(f, mid, tail, rest);
    AtOf(f, s + 1, ix);
    RefReads(f, Cursor(s + 1, ix), ref, tail + rest, args);
    if RefMeant(ref, args, ix).Success? {
      var (arg, after) := RefMeant(ref, args, ix).value;
      AtOf(f, mid, after);
      SpecFieldReads(f, Cursor(mid, after), spec, rest, arg.typ, args);
    }
    FieldOutput(f, s, mid, mid + |PrintSpec(spec)| + 1, ref, spec, args, render, ix);
  }

  lemma {:induction false} PiecesMean(before: string, ps: seq<Piece>, args: seq<FormatArg>, render: Renderer, ix: Indexing)
    requires Disciplined(ix) && Fits(ps, args, render, ix)
    ensures Output(before + PrintTemplate(ps), Cursor(|before|, ix), args, render) == Meant(ps, args, render, ix)
    decreases |ps|
  {
    hide ParseRef, ParseField, FieldFits, PrintField, Written, Disciplined, DoubleBraces;
    var f := before + PrintTemplate(ps);
    if ps == [] {
      assert CharAt(f, |before|) == '\0';
    } else {
      var rest := PrintTemplate(ps[1..]);
      assert f == before + PrintPiece(ps[0]) + rest;
      match ps[0]
      case Text(s) =>
        EscapedText(before, s, rest, args, render, ix);
        PiecesMean(before + PrintPiece(ps[0]), ps[1..], args, render, ix);
      case Field(ref, spec) =>
        StandsAt(before, PrintField(ref, spec), rest);
        FieldMeansAt(f, |before|, ref, spec, rest, args, render, ix);
        if Written(ref, spec, args, render, ix).Success? {
          PiecesMean(before + PrintPiece(ps[0]), ps[1..], args, render, Written(ref, spec, args, render, ix).value.1);
        }
    }
  }

  /**
   Formatting a printed template gives its meaning: text and rendered fields interleaved in order, with
   automatic, numbered and named references and nested widths and precisions, errors included.
   */
  lemma TemplatesMean(ps: seq<Piece>, args: seq<FormatArg>, render: Renderer)
    requires Fits(ps, args, render, START)
    ensures Output(PrintTemplate(ps), Cursor(0, START), args, render) == Meant(ps, args, render, START)
  {
    PiecesMean("", ps, args, render, START);
    assert "" + PrintTemplate(ps) == PrintTemplate(ps);
  }

  // ----- integer arguments

  /** How integer arguments are written; the other types are not part of this model. */
  function WriteInteger(arg: FormatArg, spec: FormatSpec): Result<string, string> {
    if !(INT <= arg.typ <= ULONG_LONG && arg.value.Number?) then Failure("not an integer")
    else if BaseOf(spec.typ).None? then Failure("unknown format code")
    else Success(Formatted(arg.value.n, spec))
  }

  /**
   From specification text to digits: formatting an integer under any legal literal specification with a
   base gives the formatted integer, at the place where the field stands in its text.
   */
  lemma IntegerFormatted(before: string, x: Syntax, after: string, n: int, typ: nat)
    requires INT <= typ <= ULONG_LONG && Legal(x, typ) && Literal(x) && BaseOf(Meaning(x).typ).Some?
    requires '\0' !in before && '\0' !in after
    ensures Output(PrintTemplate([Text(before), Field(Automatic, Some(x)), Text(after)]),
                   Cursor(0, START), [Arg(Number(n), typ)], WriteInteger)
         == Success((before + Formatted(n, Meaning(x)) + after, Indexing(1, [Auto(0)])))
  {
    hide Legal, Meaning, Formatted, BaseOf, SpecMeant, Output, Literal;
    var args: seq<FormatArg> := [Arg(Number(n), typ)];
    var text, end := Formatted(n, Meaning(x)), Indexing(1, [Auto(0)]);
    FirstArgument(args);
    LiteralMeaning(x, args, end);
    assert FieldFits(Automatic, Some(x), args, START);
    assert Written(Automatic, Some(x), args, WriteInteger, START) == Success((text, end));
    BetweenTexts(before, Automatic, Some(x), after, args, WriteInteger, text, end);
  }

  /** The fill: a `0` in the specification overrules the fill character given. */
  function Filled(x: Syntax, k: nat): string {
    MemoryBuffer.Rep(if x.zero then '0' else if x.fill.Some? then x.fill.value else ' ', k)
  }

  /** The digits in the base and case of the letter. */
  function LookDigits(letter: char, n: int): string {
    var size: nat := if n < 0 then -n else n;
    match letter
    case 'x' => Numeral(size, 16, false)
    case 'X' => Numeral(size, 16, true)
    case 'b' => Numeral(size, 2, false)
    case 'B' => Numeral(size, 2, false)
    case 'o' => Numeral(size, 8, false)
    case _ => Decimal(size)
  }

  /** How an integer is to look under a specification: sign and base prefix, digits, and fill on the side asked for. */
  function Look(x: Syntax, n: int): string {
    var letter := if x.typ.Some? then x.typ.value else 'd';
    var digits, head := LookDigits(letter, n), SignAndBase(n < 0, x.sign.Plus?, x.sign.Space?, x.hash, letter);
    var padding := Max(0, (if x.width.Given? then x.width.n else 0) - |head| - |digits|);
    if x.zero || x.align.AlignNumeric? then head + Filled(x, padding) + digits
    else match x.align
         case AlignLeft => head + digits + Filled(x, padding)
         case AlignCenter => Filled(x, padding / 2) + head + digits + Filled(x, padding - padding / 2)
         case _ => Filled(x, padding) + head + digits
  }

  lemma LookParts(x: Syntax, n: int)
    requires Literal(x) && x.precision.NoCount? && BaseOf(Meaning(x).typ).Some?
    ensures var letter, spec := if x.typ.Some? then x.typ.value else 'd', Meaning(x);
            && LookDigits(letter, n) == Numeral(Magnitude(n), BaseOf(spec.typ).value, spec.typ == 'X')
            && Prefix(n < 0, spec) == SignAndBase(n < 0, x.sign.Plus?, x.sign.Space?, x.hash, letter)
            && spec.precision == -1 && spec.width == (if x.width.Given? then x.width.n else 0)
            && (forall k: nat :: MemoryBuffer.Rep(spec.fill, k) == Filled(x, k))
            && spec.align == if x.zero then AlignNumeric else x.align
  {
    hide Numeral, MemoryBuffer.Rep;
  }

  lemma LooksSo(x: Syntax, n: int)
    requires Literal(x) && x.precision.NoCount? && BaseOf(Meaning(x).typ).Some?
    ensures Formatted(n, Meaning(x)) == Look(x, n)
  {
    hide Numeral, Surrounded, MemoryBuffer.Rep, LookDigits, SignAndBase, Prefix, Meaning, Literal, BaseOf, Filled;
    LookParts(x, n);
    PlainText(LookDigits(if x.typ.Some? then x.typ.value else 'd', n), Meaning(x), Prefix(n < 0, Meaning(x)));
  }

  /** Integer fields look as their specification says: signs, prefixes, letter case, width, fill and alignment. */
  lemma IntegerLooks(before: string, x: Syntax, after: string, n: int, typ: nat)
    requires INT <= typ <= ULONG_LONG && Legal(x, typ) && Literal(x) && BaseOf(Meaning(x).typ).Some?
    requires '\0' !in before && '\0' !in after
    ensures Output(PrintTemplate([Text(before), Field(Automatic, Some(x)), Text(after)]),
                   Cursor(0, START), [Arg(Number(n), typ)], WriteInteger)
         == Success((before + Look(x, n) + after, Indexing(1, [Auto(0)])))
  {
    hide Meaning, Formatted, BaseOf, Output, Look, PrintTemplate, LegalCount, Print;
    IntegerFormatted(before, x, after, n, typ);
    LooksSo(x, n);
  }

  lemma FirstArgument(args: seq<FormatArg>)
    requires |args| == 1 && INT <= args[0].typ <= ULONG_LONG
    ensures RefMeant(Automatic, args, START) == Success((args[0], Indexing(1, [Auto(0)])))
    ensures Disciplined(Indexing(1, [Auto(0)]))
  {
    assert START.refs + [Auto(0)] == [Auto(0)] == AutoRefs(1);
  }

  // ----- templates put together from the end

  lemma TextFirst(s: string, ps: seq<Piece>, args: seq<FormatArg>, render: Renderer, ix: Indexing, text: string, end: Indexing)
    requires Disciplined(ix) && '\0' !in s && Fits(ps, args, render, ix) && Meant(ps, args, render, ix) == Success((text, end))
    ensures Fits([Text(s)] + ps, args, render, ix) && Meant([Text(s)] + ps, args, render, ix) == Success((s + text, end))
    ensures PrintTemplate([Text(s)] + ps) == DoubleBraces(s) + PrintTemplate(ps)
  {
    hide Disciplined, DoubleBraces;
    assert ([Text(s)] + ps)[1..] == ps;
  }

  lemma FieldFirst(ref: Reference, spec: Option<Syntax>, ps: seq<Piece>, args: seq<FormatArg>, render: Renderer, ix: Indexing,
                   field: string, mid: Indexing, text: string, end: Indexing)
    requires Disciplined(ix) && FieldFits(ref, spec, args, ix) && Written(ref, spec, args, render, ix) == Success((field, mid))
    requires Fits(ps, args, render, mid) && Meant(ps, args, render, mid) == Success((text, end))
    ensures var all := [Field(ref, spec)] + ps;
            Fits(all, args, render, ix) && Meant(all, args, render, ix) == Success((field + text, end))
    ensures PrintTemplate([Field(ref, spec)] + ps) == PrintField(ref, spec) + PrintTemplate(ps)
  {
    hide Disciplined, Written, FieldFits, PrintField;
    assert ([Field(ref, spec)] + ps)[1..] == ps;
  }

  lemma NothingLeft(args: seq<FormatArg>, render: Renderer, ix: Indexing)
    requires Disciplined(ix)
    ensures Fits([], args, render, ix) && Meant([], args, render, ix) == Success(("", ix)) && PrintTemplate([]) == ""
  {
  }

  /** One field between two texts. */
  lemma BetweenTexts(before: string, ref: Reference, spec: Option<Syntax>, after: string, args: seq<FormatArg>, render: Renderer,
                     text: string, end: Indexing)
    requires '\0' !in before && '\0' !in after && FieldFits(ref, spec, args, START)
    requires Written(ref, spec, args, render, START) == Success((text, end))
    ensures Output(PrintTemplate([Text(before), Field(ref, spec), Text(after)]), Cursor(0, START), args, render)
         == Success((before + text + after, end))
  {
    hide *;
    WrittenDisciplined(ref, spec, args, render);
    NothingLeft(args, render, end);
    TextFirst(after, [], args, render, end, "", end);
    FieldFirst(ref, spec, [Text(after)] + [], args, render, START, text, end, after + "", end);
    var tail := [Field(ref, spec)] + ([Text(after)] + []);
    TextFirst(before, tail, args, render, START, text + (after + ""), end);
    assert [Text(before)] + tail == [Text(before), Field(ref, spec), Text(after)];
    assert before + (text + (after + "")) == before + text + after;
    TemplatesMean([Text(before)] + tail, args, render);
  }

  lemma WrittenDisciplined(ref: Reference, spec: Option<Syntax>, args: seq<FormatArg>, render: Renderer)
    ensures Disciplined(START)
    ensures Written(ref, spec, args, render, START).Success? ==> Disciplined(Written(ref, spec, args, render, START).value.1)
  {
  }

  // ----- plain fields

  /** Integers as above; a string without specification stands for itself. */
  function WriteArgument(arg: FormatArg, spec: FormatSpec): Result<string, string> {
    if arg.typ == STRING && arg.value.Chars? && spec == PLAIN then Success(arg.value.s) else WriteInteger(arg, spec)
  }

  lemma PlainInteger(n: nat)
    ensures Formatted(n, PLAIN) == Decimal(n)
  {
    hide Numeral, Surroundings;
    PlainSurroundings(|Decimal(n)|, PLAIN, Prefix(false, PLAIN));
    NoPadding(|Decimal(n)|, PLAIN, Prefix(false, PLAIN));
    assert [] + Decimal(n) + [] == Decimal(n);
  }

  /** A plain field takes the next argument: a string as it is, a natural number in decimal. */
  lemma PlainField(args: seq<FormatArg>, k: nat, text: string)
    requires k < |args|
    requires (args[k].typ == STRING && args[k].value == Chars(text))
             || (args[k].typ == ULONG_LONG && args[k].value.Number? && args[k].value.n >= 0 && text == Decimal(args[k].value.n))
    ensures var ix, after := Indexing(k, AutoRefs(k)), Indexing(k + 1, AutoRefs(k + 1));
            && Disciplined(ix) && Disciplined(after) && FieldFits(Automatic, None, args, ix)
            && Written(Automatic, None, args, WriteArgument, ix) == Success((text, after))
  {
    assert AutoRefs(k) + [Auto(k)] == AutoRefs(k + 1);
    if args[k].value.Number? { PlainInteger(args[k].value.n); }
    hide Formatted;
  }
}
