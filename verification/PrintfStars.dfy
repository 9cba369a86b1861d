/** Flags in any order, and stars that stand for numbers. */
module PrintfStars {
  import opened Wrappers
  import opened ArgList
  import opened FormatSpecs
  import opened Numerals
  import opened ParseInt
  import opened FormatterSpec
  import opened MemoryBuffer
  import opened IntWriter
  import opened PrintfSpec
  import opened PrintfSyntax
  import opened PrintfTemplate
  import Template

  // ----- what a string of flags comes to

  lemma {:induction false} FoldedSnoc(flags: string, c: char, spec: FormatSpec)
    ensures Folded(flags + [c], spec) == WithFlag(Folded(flags, spec), c)
    decreases |flags|
  {
    if flags != [] {
      assert (flags + [c])[0] == flags[0] && (flags + [c])[1..] == flags[1..] + [c];
      FoldedSnoc(flags[1..], c, WithFlag(spec, flags[0]));
    } else {
      assert (flags + [c])[1..] == [];
    }
  }

  /** The order and number of flags do not matter: each sets its own part of the specification. */
  lemma {:induction false} FlagsMean(flags: string)
    ensures Folded(flags, RIGHT)
         == FormatSpec(0, if '0' in flags then '0' else ' ', if '-' in flags then AlignLeft else AlignRight,
                       '+' in flags || ' ' in flags, '+' in flags, false, '#' in flags, -1, '\0')
    decreases |flags|
  {
    if flags != [] {
      var front, c := flags[..|flags| - 1], flags[|flags| - 1];
      assert flags == front + [c];
      FlagsMean(front);
      FoldedSnoc(front, c, RIGHT);
      assert forall d :: d in flags <==> d in front || d == c;
    }
  }

  // ----- stars

  /** An integer conversion of the next argument; width and precision may be stars. */
  ghost predicate StarIntegral(x: Form) {
    && LegalForm(x) && x.index == None
    && (x.letter == 'd' || x.letter == 'i' || x.letter == 'u' || x.letter == 'x' || x.letter == 'X' || x.letter == 'o')
  }

  /** The arguments: one for each star, then the number. */
  function StarArgs(x: Form, w: int, p: int, n: int, typ: nat): seq<FormatArg> {
    (if x.width.Star? then [Arg(Number(w), INT)] else [])
    + ((if x.precision.DotStar? then [Arg(Number(p), INT)] else []) + [Arg(Number(n), typ)])
  }

  /** The directive with the stars written out: a negative width is a `-` flag and a width, a negative precision is none. */
  function Spelled(x: Form, w: int, p: int): Form {
    var size: nat := if w < 0 then -w else w;
    x.(flags := if x.width.Star? && w < 0 then x.flags + "-" else x.flags,
       width := if !x.width.Star? then x.width else if w == 0 then NoWidth else Digits(size),
       precision := if !x.precision.DotStar? then x.precision else if p < 0 then NoPrecision else DotDigits(p))
  }

  ghost predicate StarValues(w: int, p: int) {
    -INT_MAX <= w <= INT_MAX && -INT_MAX - 1 <= p <= INT_MAX
  }

  lemma SpelledLegal(x: Form, w: int, p: int)
    requires StarIntegral(x) && StarValues(w, p)
    ensures Integral(Spelled(x, w, p))
  {
  }

  function After(ix: Indexing): Indexing {
    Indexing(ix.next + 1, ix.refs + [Auto(|ix.refs|)])
  }

  lemma WidthIsSpelled(x: Form, w: int, p: int, args: seq<FormatArg>, ix: Indexing)
    requires -INT_MAX <= w <= INT_MAX && Disciplined(ix) && ix.next >= 0
    requires x.width.Star? ==> ix.next < |args| && args[ix.next] == Arg(Number(w), INT)
    ensures WidthMeant(x.width, Folded(x.flags, RIGHT), args, ix)
         == Success((SpecOf(Spelled(x, w, p)).(precision := -1), if x.width.Star? then After(ix) else ix))
  {
    hide Folded, Disciplined;
    FlagsMean(x.flags);
    FoldedSnoc(x.flags, '-', RIGHT);
    FlagsMean(Spelled(x, w, p).flags);
  }

  /** A star of negative value sets no precision; the specification keeps the number, which then means nothing. */
  lemma PrecisionIsSpelled(x: Form, w: int, p: int, args: seq<FormatArg>, ix: Indexing)
    requires -INT_MAX - 1 <= p <= INT_MAX && Disciplined(ix) && ix.next >= 0
    requires x.precision.DotStar? ==> ix.next < |args| && args[ix.next] == Arg(Number(p), INT)
    ensures PrecisionMeant(x.precision, args, ix)
         == (if x.precision.DotStar? then Success((p, After(ix))) else Success((SpecOf(Spelled(x, w, p)).precision, ix)))
  {
    hide Folded, Disciplined;
  }

  function StarIx(x: Form): (ix: Indexing)
    ensures Disciplined(ix)
  {
    var k := (if x.width.Star? then 1 else 0) + (if x.precision.DotStar? then 1 else 0) + 1;
    Indexing(k, AutoRefs(k))
  }

  lemma ChosenNext(args: seq<FormatArg>, ix: Indexing, arg: FormatArg)
    requires Disciplined(ix) && 0 <= ix.next < |args| && args[ix.next] == arg && arg.typ != NONE && !IsNamed(arg)
    ensures Chosen(None, args, ix) == Success((arg, After(ix)))
  {
  }

  lemma StarMeant(x: Form, w: int, p: int, n: int, typ: nat)
    requires StarIntegral(x) && StarValues(w, p) && INT <= typ <= ULONG_LONG
    ensures var (arg, spec) := (Arg(Number(n), typ), SpecOf(Spelled(x, w, p)));
            FormMeant(x, StarArgs(x, w, p, n, typ), START) ==
              Success(((Converted(x.modifier, arg, x.letter),
                        Adjust(spec.(precision := if x.precision.DotStar? then p else spec.precision), arg).(typ := LetterOf(x))), StarIx(x)))
  {
    hide Folded, LegalForm, Converted, Adjust, SpecOf, Typed, Chosen, WidthMeant, PrecisionMeant;
    var args, arg := StarArgs(x, w, p, n, typ), Arg(Number(n), typ);
    var ix1 := if x.width.Star? then After(START) else START;
    var ix2 := if x.precision.DotStar? then After(ix1) else ix1;
    WidthIsSpelled(x, w, p, args, START);
    PrecisionIsSpelled(x, w, p, args, ix1);
    assert After(ix2) == StarIx(x);
    ChosenNext(args, ix2, arg);
    ConvertedIsInteger(x.modifier, arg, x.letter);
    var spec := SpecOf(Spelled(x, w, p));
    IntegerTyped(Converted(x.modifier, arg, x.letter),
                 Adjust(spec.(precision := if x.precision.DotStar? then p else spec.precision), arg), x);
  }

  lemma NegativePrecisionIsNone(value: int, spec: FormatSpec, p: int)
    requires BaseOf(spec.typ).Some? && p < 0 && spec.precision < 0
    ensures Formatted(value, spec.(precision := p)) == Formatted(value, spec)
  {
    hide Numeral, Rep;
  }

  lemma AdjustKeepsPrecision(spec: FormatSpec, arg: FormatArg, p: int, letter: char)
    ensures Adjust(spec.(precision := p), arg).(typ := letter) == Adjust(spec, arg).(typ := letter, precision := p)
    ensures Adjust(spec, arg).precision == spec.precision
  {
  }

  lemma StarRendered(x: Form, w: int, p: int, n: int, typ: nat)
    requires StarIntegral(x) && StarValues(w, p) && INT <= typ <= ULONG_LONG
    ensures Integral(Spelled(x, w, p)) && BaseOf(LetterOf(x)).Some?
    ensures Converted(x.modifier, Arg(Number(n), typ), x.letter).value.Number?
    ensures Written(x, StarArgs(x, w, p, n, typ), Template.WriteInteger, START)
         == Success((IntegerText(Spelled(x, w, p), Arg(Number(n), typ)), StarIx(x)))
  {
    hide Folded, LegalForm, Converted, Adjust, SpecOf, FormMeant, Formatted, StarArgs;
    var arg, spec := Arg(Number(n), typ), SpecOf(Spelled(x, w, p));
    var q := if x.precision.DotStar? then p else spec.precision;
    SpelledLegal(x, w, p);
    StarMeant(x, w, p, n, typ);
    ConvertedIsInteger(x.modifier, arg, x.letter);
    AdjustKeepsPrecision(spec, arg, q, LetterOf(x));
    if x.precision.DotStar? {
      SpelledPrecision(x, w, p);
      if p < 0 {
        NegativePrecisionIsNone(Converted(x.modifier, arg, x.letter).value.n, Adjust(spec, arg).(typ := LetterOf(x)), p);
      }
    }
  }

  lemma SpelledPrecision(x: Form, w: int, p: int)
    requires x.precision.DotStar?
    ensures SpecOf(Spelled(x, w, p)).precision == if p < 0 then -1 else p
  {
    hide Folded;
  }

  /**
   Stars are the numbers they stand for: a directive with `*` for its width or precision prints what the directive
   does that spells them out, a negative width being the flag `-` and a width, a negative precision none at all.
   */
  lemma StarsArePrintedOut(before: string, x: Form, after: string, w: int, p: int, n: int, typ: nat)
    requires StarIntegral(x) && StarValues(w, p) && INT <= typ <= ULONG_LONG && '\0' !in before && '\0' !in after
    ensures Integral(Spelled(x, w, p)) && LegalForm(x)
    ensures var star := PrintfOutput(DoublePercents(before) + ("%" + PrintForm(x)) + DoublePercents(after),
                                     Cursor(0, START), StarArgs(x, w, p, n, typ), Template.WriteInteger);
            var spelled := PrintfOutput(DoublePercents(before) + ("%" + PrintForm(Spelled(x, w, p))) + DoublePercents(after),
                                        Cursor(0, START), [Arg(Number(n), typ)], Template.WriteInteger);
            star.Success? && spelled.Success? && star.value.0 == spelled.value.0
  {
    hide PrintForm, DoublePercents, FormMeant, Converted, Adjust, SpecOf, PrintfOutput, Formatted, IntegerText, Spelled;
    SameEnd(x, w, p);
    StarRendered(x, w, p, n, typ);
    ThreePieces(before, x, after, StarArgs(x, w, p, n, typ), IntegerText(Spelled(x, w, p), Arg(Number(n), typ)), StarIx(x));
    IntegerPrinted(before, Spelled(x, w, p), after, n, typ);
  }

  lemma SameEnd(x: Form, w: int, p: int)
    ensures Spelled(x, w, p).letter == x.letter && Spelled(x, w, p).modifier == x.modifier
  {
  }
}
