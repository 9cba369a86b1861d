/** The names of the rotating sink are what the formatter makes of the format strings in the code. */
module FileNames {
  import opened Wrappers
  import opened ArgList
  import opened Numerals
  import opened FormatterSpec
  import opened References
  import opened Template
  import RotatingSink

  /** The arguments of the two calls of `write`. */
  function NameArgs(base: string, ext: string, index: nat): seq<FormatArg> {
    if index != 0 then [Arg(Chars(base), STRING), Arg(Number(index), ULONG_LONG), Arg(Chars(ext), STRING)]
    else [Arg(Chars(base), STRING), Arg(Chars(ext), STRING)]
  }

  function Consumed(k: nat): Indexing {
    Indexing(k, AutoRefs(k))
  }

  /** A template whose output from argument k on is text. */
  ghost predicate Spells(ps: seq<Piece>, args: seq<FormatArg>, k: nat, f: string, text: string) {
    && Disciplined(Consumed(k)) && Fits(ps, args, WriteArgument, Consumed(k))
    && Meant(ps, args, WriteArgument, Consumed(k)) == Success((text, Consumed(|args|)))
    && PrintTemplate(ps) == f
  }

  ghost predicate IsPart(arg: FormatArg, text: string) {
    (arg.typ == STRING && arg.value == Chars(text))
    || (arg.typ == ULONG_LONG && arg.value.Number? && arg.value.n >= 0 && text == Decimal(arg.value.n))
  }

  lemma PlainBraces()
    ensures PrintField(Automatic, None) == "{}" && DoubleBraces(".") == "."
  {
    assert PrintRef(Automatic) + (PrintSpec(None) + "}") == "}";
    assert "."[1..] == "";
  }

  lemma LastPart(args: seq<FormatArg>, k: nat, part: string) returns (ps: seq<Piece>)
    requires k + 1 == |args| && IsPart(args[k], part)
    ensures Spells(ps, args, k, "{}", part)
  {
    hide Written, FieldFits, PrintTemplate, Fits, Meant, Disciplined, PrintField, DoubleBraces;
    PlainBraces();
    PlainField(args, k, part);
    NothingLeft(args, WriteArgument, Consumed(k + 1));
    FieldFirst(Automatic, None, [], args, WriteArgument, Consumed(k), part, Consumed(k + 1), "", Consumed(k + 1));
    ps := [Field(Automatic, None)] + [];
    assert part + "" == part && "{}" + "" == "{}";
  }

  lemma PartAndDot(args: seq<FormatArg>, k: nat, part: string, rest: seq<Piece>, f: string, text: string) returns (ps: seq<Piece>)
    requires k < |args| && IsPart(args[k], part) && Spells(rest, args, k + 1, f, text)
    ensures Spells(ps, args, k, "{}" + ("." + f), part + ("." + text))
  {
    hide Written, FieldFits, PrintTemplate, Fits, Meant, Disciplined, PrintField, DoubleBraces;
    PlainBraces();
    PlainField(args, k, part);
    TextFirst(".", rest, args, WriteArgument, Consumed(k + 1), text, Consumed(|args|));
    ps := [Text(".")] + rest;
    FieldFirst(Automatic, None, ps, args, WriteArgument, Consumed(k), part, Consumed(k + 1), "." + text, Consumed(|args|));
    ps := [Field(Automatic, None)] + ps;
  }

  lemma SpelledOut(ps: seq<Piece>, args: seq<FormatArg>, f: string, text: string)
    requires Spells(ps, args, 0, f, text)
    ensures Output(f, Cursor(0, START), args, WriteArgument) == Success((text, Consumed(|args|)))
  {
    hide PrintTemplate, Fits, Meant, Output;
    assert Consumed(0) == START;
    TemplatesMean(ps, args, WriteArgument);
  }

  /** Formatting the two format strings of the code gives the file name. */
  lemma FileNameFormatted(base: string, ext: string, index: nat)
    ensures var args := NameArgs(base, ext, index);
            Output(if index != 0 then "{}.{}.{}" else "{}.{}", Cursor(0, START), args, WriteArgument)
              == Success((RotatingSink.FileName(base, ext, index), Consumed(|args|)))
  {
    hide Spells, Output, Decimal;
    var args := NameArgs(base, ext, index);
    var ps := LastPart(args, |args| - 1, ext);
    if index != 0 {
      ps := PartAndDot(args, 1, Decimal(index), ps, "{}", ext);
      ps := PartAndDot(args, 0, base, ps, "{}" + ("." + "{}"), Decimal(index) + ("." + ext));
      assert "{}" + ("." + ("{}" + ("." + "{}"))) == "{}.{}.{}";
      assert base + ("." + (Decimal(index) + ("." + ext))) == RotatingSink.FileName(base, ext, index);
      SpelledOut(ps, args, "{}.{}.{}", RotatingSink.FileName(base, ext, index));
    } else {
      ps := PartAndDot(args, 0, base, ps, "{}", ext);
      assert "{}" + ("." + "{}") == "{}.{}";
      assert base + ("." + ext) == RotatingSink.FileName(base, ext, index);
      SpelledOut(ps, args, "{}.{}", RotatingSink.FileName(base, ext, index));
    }
  }
}
