/** The printf formatter: it advances a cursor through the format string and fills a specification as it goes. */
module Printf {
  import opened Wrappers
  import opened FormatSpecs
  import opened Numerals
  import opened ParseInt
  import opened FormatterSpec
  import opened FormatterBases
  import opened PrintfSpec

  lemma PlainStep(f: string, text: string, start: nat, s: nat, ix: Indexing, args: seq<FormatArg>, render: Renderer)
    requires start <= s < |f| && Disciplined(ix) && f[s] != '\0' && f[s] != '%'
    ensures Prepend(text + f[start..s], PrintfOutput(f, Cursor(s, ix), args, render))
         == Prepend(text + f[start..s + 1], PrintfOutput(f, Cursor(s + 1, ix), args, render))
  {
    hide Directive, Disciplined;
    PrependTwice(text + f[start..s], [f[s]], PrintfOutput(f, Cursor(s + 1, ix), args, render));
    assert text + f[start..s] + [f[s]] == text + f[start..s + 1];
  }

  lemma PercentStep(f: string, text: string, start: nat, s: nat, ix: Indexing, args: seq<FormatArg>, render: Renderer)
    requires start <= s && s + 1 < |f| && Disciplined(ix) && f[s] == '%' && f[s + 1] == '%'
    ensures Prepend(text + f[start..s], PrintfOutput(f, Cursor(s, ix), args, render))
         == Prepend(text + f[start..s + 1], PrintfOutput(f, Cursor(s + 2, ix), args, render))
  {
    hide Directive, Disciplined;
    PrependTwice(text + f[start..s], [f[s]], PrintfOutput(f, Cursor(s + 2, ix), args, render));
    assert text + f[start..s] + [f[s]] == text + f[start..s + 1];
  }

  lemma DirectiveStep(f: string, text: string, s: nat, ix: Indexing, arg: FormatArg, spec: FormatSpec, e: Cursor,
                      t: string, args: seq<FormatArg>, render: Renderer)
    requires s < |f| && Disciplined(ix) && f[s] == '%' && CharAt(f, s + 1) != '%'
    requires Directive(f, Cursor(s + 1, ix), args) == Success(((arg, spec), e)) && render(arg, spec) == Success(t)
    ensures Prepend(text, PrintfOutput(f, Cursor(s, ix), args, render)) == Prepend(text + t, PrintfOutput(f, e, args, render))
  {
    hide Directive;
    PrependTwice(text, t, PrintfOutput(f, e, args, render));
  }

  class PrintfFormatter {
    const base: FormatterBase
    const render: Renderer
    var text: string

    ghost function Ix(): Indexing
      reads base
    {
      base.Ix()
    }

    ghost predicate At(f: string, s: nat)
      reads base
    {
      base.Valid() && s <= |f|
    }

    constructor (args: seq<FormatArg>, render: Renderer)
      ensures base.Valid() && fresh(base) && Ix() == START && text == "" && base.args == args && this.render == render
    {
      base := new FormatterBase(args);
      this.render := render;
      text := "";
    }

    static method ParseFlags(f: string, s: nat, spec: FormatSpec) returns (flagged: FormatSpec, cursor: nat)
      requires s <= |f|
      ensures (flagged, cursor) == Flags(f, s, spec)
    {
      flagged, cursor := spec, s;
      while true
        invariant s <= cursor <= |f| && Flags(f, cursor, flagged) == Flags(f, s, spec)
        decreases |f| - cursor
      {
        match CharAt(f, cursor) {
          case '-' => flagged := flagged.(align := AlignLeft);
          case '+' => flagged := flagged.(sign := true, plus := true);
          case '0' => flagged := flagged.(fill := '0');
          case ' ' => flagged := flagged.(sign := true);
          case '#' => flagged := flagged.(hash := true);
          case _ => return;
        }
        cursor := cursor + 1;
      }
    }

    method GetArgument(f: string, s: nat, index: Option<nat>) returns (r: Result<(FormatArg, nat), string>)
      requires At(f, s)
      modifies base
      ensures base.Ends(Argument(f, Cursor(s, old(Ix())), index, base.args), r)
    {
      var got := Failure("");
      if index.None? {
        got := base.NextArgument();
      } else {
        got := base.ArgumentAt(if index.value == 0 then UINT_MAX else index.value - 1);
      }
      if got.Failure? { return Failure(if CharAt(f, s) == '\0' then "invalid format string" else got.error); }
      return Success((got.value, s));
    }

    method ReadWidth(f: string, s: nat, spec: FormatSpec) returns (r: Result<(FormatSpec, nat), string>)
      requires At(f, s)
      modifies base
      ensures base.Ends(Width(f, Cursor(s, old(Ix())), base.args, spec), r)
    {
      hide Argument, StarWidth;
      if IsDigit(CharAt(f, s)) {
        var number := ParseNonnegativeInt(f, s);
        if number.Failure? { return Failure(number.error); }
        return Success((spec.(width := number.value.0), number.value.1));
      }
      if CharAt(f, s) != '*' { return Success((spec, s)); }
      var got := GetArgument(f, s + 1, None);
      if got.Failure? { return Failure(got.error); }
      var wide := StarWidth(got.value.0, spec);
      if wide.Failure? { return Failure(wide.error); }
      return Success((wide.value, got.value.1));
    }

    method ReadFlagsAndWidth(f: string, s: nat, spec: FormatSpec) returns (r: Result<(FormatSpec, nat), string>)
      requires At(f, s)
      modifies base
      ensures base.Ends(FlagsAndWidth(f, Cursor(s, old(Ix())), base.args, spec), r)
    {
      var flagged, cursor := ParseFlags(f, s, spec);
      r := ReadWidth(f, cursor, flagged);
    }

    method ParseHeader(f: string, s: nat) returns (r: Result<((Option<nat>, FormatSpec), nat), string>)
      requires At(f, s)
      modifies base
      ensures base.Ends(Header(f, Cursor(s, old(Ix())), base.args), r)
    {
      hide FlagsAndWidth;
      var index, spec, cursor := None, RIGHT, s;
      var c := CharAt(f, s);
      if IsDigit(c) {
        var number := ParseNonnegativeInt(f, s);
        if number.Failure? { return Failure(number.error); }
        var value := number.value.0;
        cursor := number.value.1;
        if CharAt(f, cursor) == '$' {
          cursor := cursor + 1;
          index := Some(value);
        } else {
          if c == '0' { spec := spec.(fill := '0'); }
          if value != 0 {
            spec := spec.(width := value);
            return Success(((index, spec), cursor));
          }
        }
      }
      var rest := ReadFlagsAndWidth(f, cursor, spec);
      if rest.Failure? { return Failure(rest.error); }
      return Success(((index, rest.value.0), rest.value.1));
    }

    method ReadPrecision(f: string, s: nat) returns (r: Result<(int, nat), string>)
      requires At(f, s)
      modifies base
      ensures base.Ends(PrintfPrecision(f, Cursor(s, old(Ix())), base.args), r)
    {
      hide Argument, StarPrecision;
      if CharAt(f, s) != '.' { return Success((-1, s)); }
      var cursor := s + 1;
      if IsDigit(CharAt(f, cursor)) {
        var number := ParseNonnegativeInt(f, cursor);
        if number.Failure? { return Failure(number.error); }
        return Success((number.value.0, number.value.1));
      }
      if CharAt(f, cursor) != '*' { return Success((-1, cursor)); }
      var got := GetArgument(f, cursor + 1, None);
      if got.Failure? { return Failure(got.error); }
      var precision := StarPrecision(got.value.0);
      if precision.Failure? { return Failure(precision.error); }
      return Success((precision.value, got.value.1));
    }

    method ReadConversion(f: string, s: nat, index: Option<nat>, spec: FormatSpec)
      returns (r: Result<((FormatArg, FormatSpec), nat), string>)
      requires At(f, s)
      modifies base
      ensures base.Ends(Conversion(f, Cursor(s, old(Ix())), base.args, index, spec), r)
    {
      hide Argument;
      var got := GetArgument(f, s, index);
      if got.Failure? { return Failure(got.error); }
      var (arg, cursor) := got.value;
      var adjusted := Adjust(spec, arg);
      var (converted, end) := Length(f, cursor, arg);
      if CharAt(f, end) == '\0' { return Failure("invalid format string"); }
      return Success((Typed(converted, adjusted, CharAt(f, end)), end + 1));
    }

    /** One directive, after its `%`. */
    method ReadDirective(f: string, s: nat) returns (r: Result<((FormatArg, FormatSpec), nat), string>)
      requires At(f, s)
      modifies base
      ensures base.Ends(Directive(f, Cursor(s, old(Ix())), base.args), r)
    {
      hide Header, PrintfPrecision, Conversion;
      var head := ParseHeader(f, s);
      if head.Failure? { return Failure(head.error); }
      var ((index, spec), cursor) := head.value;
      var precision := ReadPrecision(f, cursor);
      if precision.Failure? { return Failure(precision.error); }
      r := ReadConversion(f, precision.value.1, index, spec.(precision := precision.value.0));
    }

    method Write(f: string, start: nat, end: nat)
      requires start <= end <= |f|
      modifies `text
      ensures text == old(text) + f[start..end]
    {
      if start != end { text := text + f[start..end]; }
    }

    ghost predicate Progress(f: string, start: nat, s: nat, before: string, whole: Result<(string, Indexing), string>)
      requires start <= s && At(f, s)
      reads base, `text
    {
      Prepend(before, whole) == Prepend(text + f[start..s], PrintfOutput(f, Cursor(s, Ix()), base.args, render))
    }

    /** The output is what the format string denotes, appended to what was there; errors are its errors. */
    method Format(f: string) returns (r: Result<(), string>)
      requires base.Valid()
      modifies `text, base
      ensures match PrintfOutput(f, Cursor(0, old(Ix())), base.args, render)
              case Failure(e) => r == Failure(e)
              case Success((t, ix)) => r == Success(()) && text == old(text) + t && Ix() == ix
    {
      hide Directive, Disciplined;
      ghost var before, whole := text, PrintfOutput(f, Cursor(0, Ix()), base.args, render);
      assert text + f[0..0] == text;
      var s: nat, start: nat := 0, 0;
      while CharAt(f, s) != '\0'
        invariant start <= s && At(f, s) && Progress(f, start, s, before, whole)
        decreases |f| - s
      {
        var c := f[s];
        s := s + 1;
        if c != '%' {
          PlainStep(f, text, start, s - 1, Ix(), base.args, render);
          continue;
        }
        if CharAt(f, s) == c {
          PercentStep(f, text, start, s - 1, Ix(), base.args, render);
          Write(f, start, s);
          s := s + 1;
          start := s;
          assert text + f[s..s] == text;
          continue;
        }
        Write(f, start, s - 1);
        ghost var ix, written := Ix(), text;
        var got := ReadDirective(f, s);
        if got.Failure? { return Failure(got.error); }
        var ((arg, spec), cursor) := got.value;
        var rendered := render(arg, spec);
        if rendered.Failure? { return Failure(rendered.error); }
        text := text + rendered.value;
        DirectiveStep(f, written, s - 1, ix, arg, spec, Cursor(cursor, Ix()), rendered.value, base.args, render);
        s := cursor;
        start := s;
        assert text + f[s..s] == text;
      }
      Write(f, start, s);
      return Success(());
    }
  }
}
