/** The formatter itself: an object with an argument counter and an output buffer, reading a format string by a cursor. */
module Formatter {
  import opened Wrappers
  import opened ArgList
  import opened FormatSpecs
  import opened Numerals
  import opened ParseInt
  import opened FormatterSpec
  import opened FormatterBases

  /** A character that is not a brace joins the pending literal. */
  lemma LiteralStep(f: string, text: string, start: nat, s: nat, ix: Indexing, args: seq<FormatArg>, render: Renderer)
    requires start <= s < |f| && Disciplined(ix) && f[s] != '\0' && f[s] != '{' && f[s] != '}'
    ensures Prepend(text + f[start..s], Output(f, Cursor(s, ix), args, render))
         == Prepend(text + f[start..s + 1], Output(f, Cursor(s + 1, ix), args, render))
  {
    PrependTwice(text + f[start..s], [f[s]], Output(f, Cursor(s + 1, ix), args, render));
    assert text + f[start..s] + [f[s]] == text + f[start..s + 1];
  }

  /** Of a doubled brace the first is written with the literal and the second is dropped. */
  lemma DoubledStep(f: string, text: string, start: nat, s: nat, ix: Indexing, args: seq<FormatArg>, render: Renderer)
    requires start <= s && s + 1 < |f| && Disciplined(ix) && (f[s] == '{' || f[s] == '}') && f[s + 1] == f[s]
    ensures Prepend(text + f[start..s], Output(f, Cursor(s, ix), args, render))
         == Prepend(text + f[start..s + 1], Output(f, Cursor(s + 2, ix), args, render))
  {
    PrependTwice(text + f[start..s], [f[s]], Output(f, Cursor(s + 2, ix), args, render));
    assert text + f[start..s] + [f[s]] == text + f[start..s + 1];
  }

  class BasicFormatter {
    const base: FormatterBase
    const render: Renderer
    var text: string

    ghost function Ix(): Indexing
      reads base
    {
      base.Ix()
    }

    ghost predicate At(f: string, s: nat)
      reads base
    {
      base.Valid() && s <= |f|
    }

    constructor (args: seq<FormatArg>, render: Renderer)
      ensures base.Valid() && fresh(base) && Ix() == START && text == "" && base.args == args && this.render == render
    {
      base := new FormatterBase(args);
      this.render := render;
      text := "";
    }

    method ArgumentNamed(name: string) returns (r: Result<FormatArg, string>)
      requires base.Valid()
      modifies base
      ensures match GetNamedArg(base.args, name, old(Ix()))
              case Failure(e) => r == Failure(e)
              case Success((arg, ix)) => r == Success(arg) && Ix() == ix
    {
      var ok := base.CheckNoAutoIndex();
      if ok.Failure? { return Failure(ok.error); }
      var found := FindNamed(base.args, name);
      if found.None? { return Failure("argument not found"); }
      base.refs := base.refs + [ByName(name)];
      return Success(found.value);
    }

    method ReadArgIndex(f: string, s: nat) returns (r: Result<(FormatArg, nat), string>)
      requires At(f, s)
      modifies base
      ensures base.Ends(ParseArgIndex(f, Cursor(s, old(Ix())), base.args), r)
    {
      var pos, got := s, Failure("");
      if !IsDigit(CharAt(f, s)) {
        got := base.NextArgument();
      } else {
        var number := ParseNonnegativeInt(f, s);
        if number.Failure? { return Failure(number.error); }
        pos := number.value.1;
        got := base.ArgumentAt(number.value.0);
      }
      if got.Failure? {
        return Failure(if CharAt(f, pos) != '}' && CharAt(f, pos) != ':' then "invalid format string" else got.error);
      }
      return Success((got.value, pos));
    }

    method ReadArgName(f: string, s: nat) returns (r: Result<(FormatArg, nat), string>)
      requires At(f, s) && IsNameStart(CharAt(f, s))
      modifies base
      ensures base.Ends(ParseArgName(f, Cursor(s, old(Ix())), base.args), r)
    {
      var end := s + 1;
      while IsNameStart(CharAt(f, end)) || IsDigit(CharAt(f, end))
        invariant s < end <= |f| && NameEnd(f, s) == NameEnd(f, end)
        decreases |f| - end
      {
        end := end + 1;
      }
      var got := ArgumentNamed(f[s..end]);
      if got.Failure? { return Failure(got.error); }
      return Success((got.value, end));
    }

    method ReadRef(f: string, s: nat) returns (r: Result<(FormatArg, nat), string>)
      requires At(f, s)
      modifies base
      ensures base.Ends(ParseRef(f, Cursor(s, old(Ix())), base.args), r)
    {
      if IsNameStart(CharAt(f, s)) { r := ReadArgName(f, s); } else { r := ReadArgIndex(f, s); }
    }

    // ----- specifications

    /** The backwards scan: the character behind the cursor is tried for an alignment first, then the one at it. */
    static method ScanAlign(f: string, s: nat, typ: nat) returns (r: Result<(Align, char, nat), string>)
      requires s <= |f|
      ensures r == FillAlign(f, s, typ)
    {
      var align, fill, end := AlignDefault, ' ', s;
      var c := CharAt(f, s);
      if c != '\0' {
        var p: int := s + 1;
        while p >= s
          invariant s - 1 <= p <= s + 1 && align == AlignDefault && fill == ' ' && end == s
          invariant p <= s ==> AlignOf(CharAt(f, s + 1)) == AlignDefault
          invariant p < s ==> AlignOf(c) == AlignDefault
        {
          align := AlignOf(CharAt(f, p));
          if align != AlignDefault {
            if p != s {
              if c == '}' { break; }
              if c == '{' { return Failure("invalid fill character '{'"); }
              end, fill := s + 2, c;
            } else {
              end := s + 1;
            }
            if align == AlignNumeric {
              var numeric := NeedNumeric(typ);
              if numeric.Failure? { return Failure(numeric.error); }
            }
            break;
          }
          p := p - 1;
        }
      }
      return Success((align, fill, end));
    }

    /** Digits, or the number in a nested `{...}`; None when neither stands here. */
    method ReadCount(f: string, s: nat, what: string) returns (r: Result<(Option<nat>, nat), string>)
      requires At(f, s)
      modifies base
      ensures base.Ends(Count(f, Cursor(s, old(Ix())), base.args, what), r)
    {
      hide ParseRef, CountFromArg, Disciplined;
      if IsDigit(CharAt(f, s)) {
        var number := ParseNonnegativeInt(f, s);
        if number.Failure? { return Failure(number.error); }
        return Success((Some(number.value.0), number.value.1));
      }
      if CharAt(f, s) != '{' { return Success((None, s)); }
      var got := ReadRef(f, s + 1);
      if got.Failure? { return Failure(got.error); }
      if CharAt(f, got.value.1) != '}' { return Failure("invalid format string"); }
      var n := CountFromArg(got.value.0, what);
      if n.Failure? { return Failure(n.error); }
      return Success((Some(n.value), got.value.1 + 1));
    }

    method ReadPrecision(f: string, s: nat, typ: nat) returns (r: Result<(int, nat), string>)
      requires At(f, s)
      modifies base
      ensures base.Ends(Precision(f, Cursor(s, old(Ix())), base.args, typ), r)
    {
      hide Count, Disciplined;
      if CharAt(f, s) != '.' { return Success((-1, s)); }
      var got := ReadCount(f, s + 1, "precision");
      if got.Failure? { return Failure(got.error); }
      if got.value.0.None? { return Failure("missing precision specifier"); }
      if typ <= LAST_INTEGER_TYPE || typ == POINTER_ARG { return Failure("precision not allowed in this format specifier"); }
      return Success((got.value.0.value, got.value.1));
    }

    method ReadSizes(f: string, s: nat, typ: nat, flagged: FormatSpec) returns (r: Result<(FormatSpec, nat), string>)
      requires At(f, s)
      modifies base
      ensures base.Ends(ParseSizes(f, Cursor(s, old(Ix())), base.args, typ, flagged), r)
    {
      hide Count, Precision, Disciplined;
      var spec := flagged.(width := 0, precision := -1);
      var width := ReadCount(f, s, "width");
      if width.Failure? { return Failure(width.error); }
      if width.value.0.Some? { spec := spec.(width := width.value.0.value); }
      var precision := ReadPrecision(f, width.value.1, typ);
      if precision.Failure? { return Failure(precision.error); }
      spec := spec.(precision := precision.value.0);
      var cursor := precision.value.1;
      if CharAt(f, cursor) != '}' && CharAt(f, cursor) != '\0' {
        spec := spec.(typ := CharAt(f, cursor));
        cursor := cursor + 1;
      }
      return Success((spec, cursor));
    }

    /** Everything between the colon and the closing brace. */
    method ReadSpec(f: string, s: nat, typ: nat) returns (r: Result<(FormatSpec, nat), string>)
      requires At(f, s)
      modifies base
      ensures base.Ends(ParseSpec(f, Cursor(s, old(Ix())), base.args, typ), r)
    {
      var scan := ScanAlign(f, s, typ);
      if scan.Failure? { return Failure(scan.error); }
      var (align, fill, cursor) := scan.value;
      var flags := OtherFlags(f, cursor, typ, PLAIN.(align := align, fill := fill));
      if flags.Failure? { return Failure(flags.error); }
      r := ReadSizes(f, flags.value.1, typ, flags.value.0);
    }

    /** One replacement field after its argument; the argument is written when the field is complete. */
    method FormatField(f: string, s: nat, arg: FormatArg) returns (r: Result<nat, string>)
      requires At(f, s)
      modifies `text, base
      ensures match ParseField(f, Cursor(s, old(Ix())), base.args, arg.typ)
              case Failure(e) => r == Failure(e) && text == old(text)
              case Success((spec, c)) =>
                match render(arg, spec)
                case Failure(e) => r == Failure(e) && text == old(text)
                case Success(t) => r == Success(c.pos) && Ix() == c.ix && text == old(text) + t
    {
      hide ParseSpec, Disciplined;
      var spec, cursor := PLAIN, s;
      if CharAt(f, s) == ':' {
        var got := ReadSpec(f, s + 1, arg.typ);
        if got.Failure? { return Failure(got.error); }
        spec, cursor := got.value.0, got.value.1;
      }
      if CharAt(f, cursor) != '}' { return Failure("missing '}' in format string"); }
      var rendered := render(arg, spec);
      if rendered.Failure? { return Failure(rendered.error); }
      text := text + rendered.value;
      return Success(cursor + 1);
    }

    // ----- the format string

    /** Writes the literal text in [start, end). */
    method Write(f: string, start: nat, end: nat)
      requires start <= end <= |f|
      modifies `text
      ensures text == old(text) + f[start..end]
    {
      if start != end { text := text + f[start..end]; }
    }

    /** The whole output so far, the literal run [start, s) still to be written, and what the rest stands for. */
    ghost predicate Progress(f: string, start: nat, s: nat, before: string, whole: Result<(string, Indexing), string>)
      requires start <= s && At(f, s)
      reads base, `text
    {
      Prepend(before, whole) == Prepend(text + f[start..s], Output(f, Cursor(s, Ix()), base.args, render))
    }

    /** The output is what the format string denotes, appended to what was there; errors are its errors. */
    method Format(f: string) returns (r: Result<(), string>)
      requires base.Valid()
      modifies `text, base
      ensures match Output(f, Cursor(0, old(Ix())), base.args, render)
              case Failure(e) => r == Failure(e)
              case Success((t, ix)) => r == Success(()) && text == old(text) + t && Ix() == ix
    {
      hide ParseRef, ParseField, Disciplined;
      ghost var before, whole := text, Output(f, Cursor(0, Ix()), base.args, render);
      assert text + f[0..0] == text;
      var s: nat, start: nat := 0, 0;
      while CharAt(f, s) != '\0'
        invariant start <= s && At(f, s) && Progress(f, start, s, before, whole)
        decreases |f| - s
      {
        var c := f[s];
        s := s + 1;
        if c != '{' && c != '}' {
          LiteralStep(f, text, start, s - 1, Ix(), base.args, render);
          continue;
        }
        if CharAt(f, s) == c {
          DoubledStep(f, text, start, s - 1, Ix(), base.args, render);
          Write(f, start, s);
          s := s + 1;
          start := s;
          assert text + f[s..s] == text;
          continue;
        }
        if c == '}' { return Failure("unmatched '}' in format string"); }
        Write(f, start, s - 1);
        ghost var ix, written := Ix(), text;
        var got := ReadRef(f, s);
        if got.Failure? { return Failure(got.error); }
        ghost var arg, d := got.value.0, Cursor(got.value.1, Ix());
        var field := FormatField(f, got.value.1, got.value.0);
        if field.Failure? { return Failure(field.error); }
        ghost var spec, e := ParseField(f, d, base.args, arg.typ).value.0, Cursor(field.value, Ix());
        FieldStep(f, written, s - 1, ix, arg, d, spec, e, render(arg, spec).value, base.args, render);
        s := field.value;
        assert text + f[s..s] == text;
        start := s;
      }
      Write(f, start, s);
      return Success(());
    }
  }
}
