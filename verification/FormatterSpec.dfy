/**
 The replacement-field language of `format`: what a format string means, as functions of the
 string, the arguments and the argument-indexing state.
 */
module FormatterSpec {
  import opened Wrappers
  import opened ArgList
  import opened FormatSpecs
  import opened Numerals
  import opened ParseInt

  // ----- arguments and the indexing state

  /** A named argument holds the argument it names. */
  datatype Value = Number(n: int) | Named(name: string, arg: Arg<Value>) | Chars(s: string) | Other(id: nat)

  type FormatArg = Arg<Value>

  datatype Ref = Auto(i: nat) | Manual(i: nat) | ByName(name: string)

  /** `next_arg_index_`, negative once manual indexing is used; refs records every reference made. */
  datatype Indexing = Indexing(next: int, refs: seq<Ref>)

  const START := Indexing(0, [])

  function AutoRefs(k: nat): (r: seq<Ref>)
    ensures |r| == k && forall i :: 0 <= i < k ==> r[i] == Auto(i)
  {
    seq(k, i requires 0 <= i < k => Auto(i))
  }

  /** All automatic, consuming 0, 1, 2, ... once each in order; or none automatic. */
  ghost predicate Disciplined(ix: Indexing) {
    if ix.next >= 0 then ix.refs == AutoRefs(ix.next)
    else forall i :: 0 <= i < |ix.refs| ==> !ix.refs[i].Auto?
  }

  /** There is an argument at index i. */
  predicate HasArg(args: seq<FormatArg>, i: nat) {
    i < |args| && args[i].typ != NONE
  }

  predicate IsNamed(arg: FormatArg) {
    arg.typ == NAMED_ARG && arg.value.Named?
  }

  predicate BearsName(arg: FormatArg, name: string) {
    IsNamed(arg) && arg.value.name == name
  }

  /** The argument itself, or the one it names. */
  function Unnamed(arg: FormatArg): FormatArg {
    if IsNamed(arg) then arg.value.arg else arg
  }

  /** `do_get_arg` */
  function FetchArg(args: seq<FormatArg>, i: nat): (r: Result<FormatArg, string>)
    ensures r.Success? <==> HasArg(args, i)
    ensures r.Success? ==> r.value == Unnamed(args[i])
  {
    if i >= |args| || args[i].typ == NONE then Failure("argument index out of range")
    else if args[i].typ == NAMED_ARG && args[i].value.Named? then Success(args[i].value.arg)
    else Success(args[i])
  }

  /** `next_arg`: the argument behind those already taken automatically. */
  function NextArg(args: seq<FormatArg>, ix: Indexing): (r: Result<(FormatArg, Indexing), string>)
    requires Disciplined(ix)
    ensures r.Success? <==> ix.next >= 0 && HasArg(args, ix.next)
    ensures r.Success? ==>
              Disciplined(r.value.1) && r.value == (Unnamed(args[|ix.refs|]), Indexing(ix.next + 1, ix.refs + [Auto(|ix.refs|)]))
  {
    if ix.next < 0 then Failure("cannot switch from manual to automatic argument indexing")
    else
      var arg :- FetchArg(args, ix.next);
      assert ix.refs + [Auto(ix.next)] == AutoRefs(ix.next + 1);
      Success((arg, Indexing(ix.next + 1, ix.refs + [Auto(ix.next)])))
  }

  /** `get_arg` by index, behind `check_no_auto_index`: the argument at that very index, unless one was taken automatically. */
  function GetArg(args: seq<FormatArg>, i: nat, ix: Indexing): (r: Result<(FormatArg, Indexing), string>)
    requires Disciplined(ix)
    ensures r.Success? <==> ix.next <= 0 && HasArg(args, i)
    ensures r.Success? ==> Disciplined(r.value.1) && r.value == (Unnamed(args[i]), Indexing(-1, ix.refs + [Manual(i)]))
  {
    if ix.next > 0 then Failure("cannot switch from automatic to manual argument indexing")
    else
      var arg :- FetchArg(args, i);
      Success((arg, Indexing(-1, ix.refs + [Manual(i)])))
  }

  /** The argument map: the first named argument of that name. */
  function FindNamed(args: seq<FormatArg>, name: string): Option<FormatArg> {
    if args == [] then None
    else if args[0].typ == NAMED_ARG && args[0].value.Named? && args[0].value.name == name then Some(args[0].value.arg)
    else FindNamed(args[1..], name)
  }

  /** A name stands for what the first argument of that name holds, and for nothing when no argument bears it. */
  lemma {:induction false} FindsFirst(args: seq<FormatArg>, name: string, i: nat)
    ensures i < |args| && BearsName(args[i], name) && (forall j :: 0 <= j < i ==> !BearsName(args[j], name)) ==>
              FindNamed(args, name) == Some(args[i].value.arg)
    ensures (forall j :: 0 <= j < |args| ==> !BearsName(args[j], name)) ==> FindNamed(args, name) == None
    decreases |args|
  {
    if args != [] && !BearsName(args[0], name) { FindsFirst(args[1..], name, if i > 0 then i - 1 else 0); }
  }

  /** `get_arg` by name */
  function GetNamedArg(args: seq<FormatArg>, name: string, ix: Indexing): (r: Result<(FormatArg, Indexing), string>)
    requires Disciplined(ix)
    ensures r.Success? <==> ix.next <= 0 && FindNamed(args, name).Some?
    ensures r.Success? ==>
              Disciplined(r.value.1) && r.value == (FindNamed(args, name).value, Indexing(-1, ix.refs + [ByName(name)]))
  {
    if ix.next > 0 then Failure("cannot switch from automatic to manual argument indexing")
    else
      match FindNamed(args, name)
      case None => Failure("argument not found")
      case Some(arg) => Success((arg, Indexing(-1, ix.refs + [ByName(name)])))
  }

  // ----- references

  /** Where the parser stands. */
  datatype Cursor = Cursor(pos: nat, ix: Indexing)

  predicate IsNameStart(c: char) {
    'a' <= c <= 'z' || 'A' <= c <= 'Z' || '_' == c
  }

  function NameEnd(f: string, i: nat): (j: nat)
    ensures i <= j && (i <= |f| ==> j <= |f|)
    decreases |f| - i
  {
    if IsNameStart(CharAt(f, i)) || IsDigit(CharAt(f, i)) then NameEnd(f, i + 1) else i
  }

  /** `parse_nonnegative_int` at a position. */
  ghost function ReadInt(f: string, i: nat): (r: Result<(nat, nat), string>)
    requires i <= |f|
    ensures r.Success? ==> r.value.1 == RunEnd(f, i) <= |f| && r.value.0 <= INT_MAX
  {
    var n :- Verdict(f[i..RunEnd(f, i)]);
    Success((n, RunEnd(f, i)))
  }

  /** An error before anything but `}` or `:` is reported as a malformed string. */
  function IndexError(f: string, pos: nat, error: string): string {
    if CharAt(f, pos) != '}' && CharAt(f, pos) != ':' then "invalid format string" else error
  }

  ghost predicate At(f: string, c: Cursor) {
    c.pos <= |f| && Disciplined(c.ix)
  }

  /** `parse_arg_index` */
  ghost function ParseArgIndex(f: string, c: Cursor, args: seq<FormatArg>): (r: Result<(FormatArg, Cursor), string>)
    requires At(f, c)
    ensures r.Success? ==> At(f, r.value.1) && r.value.1.pos >= c.pos
  {
    if !IsDigit(CharAt(f, c.pos)) then
      match NextArg(args, c.ix)
      case Failure(e) => Failure(IndexError(f, c.pos, e))
      case Success((arg, ix)) => Success((arg, Cursor(c.pos, ix)))
    else
      var (n, pos) :- ReadInt(f, c.pos);
      match GetArg(args, n, c.ix)
      case Failure(e) => Failure(IndexError(f, pos, e))
      case Success((arg, ix)) => Success((arg, Cursor(pos, ix)))
  }

  /** `parse_arg_name` */
  ghost function ParseArgName(f: string, c: Cursor, args: seq<FormatArg>): (r: Result<(FormatArg, Cursor), string>)
    requires At(f, c)
    ensures r.Success? ==> At(f, r.value.1) && r.value.1.pos >= c.pos
  {
    var end := NameEnd(f, c.pos);
    var (arg, ix) :- GetNamedArg(args, f[c.pos..end], c.ix);
    Success((arg, Cursor(end, ix)))
  }

  ghost function ParseRef(f: string, c: Cursor, args: seq<FormatArg>): (r: Result<(FormatArg, Cursor), string>)
    requires At(f, c)
    ensures r.Success? ==> At(f, r.value.1) && r.value.1.pos >= c.pos
  {
    if IsNameStart(CharAt(f, c.pos)) then ParseArgName(f, c, args) else ParseArgIndex(f, c, args)
  }

  // ----- the parts of a specification

  function AlignOf(c: char): Align {
    if c == '<' then AlignLeft else if c == '>' then AlignRight
    else if c == '=' then AlignNumeric else if c == '^' then AlignCenter else AlignDefault
  }

  function NeedNumeric(typ: nat): Result<(), string> {
    if typ > LAST_NUMERIC_TYPE then Failure("format specifier requires numeric argument") else Success(())
  }

  /** Fill and alignment; an alignment right behind a `}` is taken without being consumed. */
  function FillAlign(f: string, s: nat, typ: nat): (r: Result<(Align, char, nat), string>)
    requires s <= |f|
    ensures r.Success? ==> s <= r.value.2 <= |f|
  {
    var c := CharAt(f, s);
    var second := AlignOf(CharAt(f, s + 1));
    if c == '\0' then Success((AlignDefault, ' ', s))
    else if second != AlignDefault then
      if c == '}' then Success((second, ' ', s))
      else if c == '{' then Failure("invalid fill character '{'")
      else
        var _ :- if second == AlignNumeric then NeedNumeric(typ) else Success(());
        Success((second, c, s + 2))
    else if AlignOf(c) != AlignDefault then
      var _ :- if AlignOf(c) == AlignNumeric then NeedNumeric(typ) else Success(());
      Success((AlignOf(c), ' ', s + 1))
    else Success((AlignDefault, ' ', s))
  }

  function CheckSign(typ: nat): Result<(), string> {
    var _ :- NeedNumeric(typ);
    if typ == UINT || typ == ULONG_LONG then Failure("format specifier requires signed argument") else Success(())
  }

  function SignFlag(f: string, s: nat, typ: nat, spec: FormatSpec): (r: Result<(FormatSpec, nat), string>)
    requires s <= |f|
    ensures r.Success? ==> s <= r.value.1 <= |f|
  {
    var sign := CharAt(f, s);
    if sign != '+' && sign != '-' && sign != ' ' then Success((spec, s))
    else
      var _ :- CheckSign(typ);
      Success((if sign == '+' then spec.(sign := true, plus := true)
               else if sign == '-' then spec.(minus := true) else spec.(sign := true), s + 1))
  }

  function HashFlag(f: string, s: nat, typ: nat, spec: FormatSpec): (r: Result<(FormatSpec, nat), string>)
    requires s <= |f|
    ensures r.Success? ==> s <= r.value.1 <= |f|
  {
    if CharAt(f, s) != '#' then Success((spec, s))
    else
      var _ :- NeedNumeric(typ);
      Success((spec.(hash := true), s + 1))
  }

  function ZeroFlag(f: string, s: nat, typ: nat, spec: FormatSpec): (r: Result<(FormatSpec, nat), string>)
    requires s <= |f|
    ensures r.Success? ==> s <= r.value.1 <= |f|
  {
    if CharAt(f, s) != '0' then Success((spec, s))
    else
      var _ :- NeedNumeric(typ);
      Success((spec.(align := AlignNumeric, fill := '0'), s + 1))
  }

  /** Sign, `#` and `0`. */
  function OtherFlags(f: string, s: nat, typ: nat, spec: FormatSpec): (r: Result<(FormatSpec, nat), string>)
    requires s <= |f|
    ensures r.Success? ==> s <= r.value.1 <= |f|
  {
    var (signed, s2) :- SignFlag(f, s, typ, spec);
    var (hashed, s3) :- HashFlag(f, s2, typ, signed);
    ZeroFlag(f, s3, typ, hashed)
  }

  /** Fill, alignment, sign, `#` and `0`. */
  function ParseFlags(f: string, s: nat, typ: nat): (r: Result<(FormatSpec, nat), string>)
    requires s <= |f|
    ensures r.Success? ==> s <= r.value.1 <= |f|
  {
    var (align, fill, s1) :- FillAlign(f, s, typ);
    OtherFlags(f, s1, typ, PLAIN.(align := align, fill := fill))
  }

  /** A width or precision taken from an argument. */
  function CountFromArg(arg: FormatArg, what: string): (r: Result<nat, string>)
    ensures r.Success? <==> INT <= arg.typ <= ULONG_LONG && arg.value.Number? && 0 <= arg.value.n <= INT_MAX
    ensures r.Success? ==> r.value == arg.value.n
  {
    if !arg.value.Number? || arg.typ < INT || arg.typ > ULONG_LONG then Failure(what + " is not integer")
    else if arg.value.n < 0 then Failure("negative " + what)
    else if arg.value.n > INT_MAX then Failure(TOO_BIG)
    else Success(arg.value.n)
  }

  /** Digits or a nested `{...}`; absent when neither stands here. */
  ghost function Count(f: string, c: Cursor, args: seq<FormatArg>, what: string): (r: Result<(Option<nat>, Cursor), string>)
    requires At(f, c)
    ensures r.Success? ==> At(f, r.value.1) && r.value.1.pos >= c.pos
    ensures r.Success? && r.value.0.Some? ==> r.value.0.value <= INT_MAX
  {
    if IsDigit(CharAt(f, c.pos)) then
      var (n, pos) :- ReadInt(f, c.pos);
      Success((Some(n), Cursor(pos, c.ix)))
    else if CharAt(f, c.pos) == '{' then
      var (arg, d) :- ParseRef(f, Cursor(c.pos + 1, c.ix), args);
      if CharAt(f, d.pos) != '}' then Failure("invalid format string")
      else
        var n :- CountFromArg(arg, what);
        Success((Some(n), Cursor(d.pos + 1, d.ix)))
    else Success((None, c))
  }

  /** `.` and a count, not allowed for integers and pointers. */
  ghost function Precision(f: string, c: Cursor, args: seq<FormatArg>, typ: nat): (r: Result<(int, Cursor), string>)
    requires At(f, c)
    ensures r.Success? ==> At(f, r.value.1) && r.value.1.pos >= c.pos && -1 <= r.value.0 <= INT_MAX
  {
    if CharAt(f, c.pos) != '.' then Success((-1, c))
    else
      var (n, d) :- Count(f, Cursor(c.pos + 1, c.ix), args, "precision");
      match n
      case None => Failure("missing precision specifier")
      case Some(p) =>
        if typ <= LAST_INTEGER_TYPE || typ == POINTER_ARG then Failure("precision not allowed in this format specifier")
        else Success((p as int, d))
  }

  /** Width, precision and type letter. */
  ghost function ParseSizes(f: string, c: Cursor, args: seq<FormatArg>, typ: nat, flagged: FormatSpec): (r: Result<(FormatSpec, Cursor), string>)
    requires At(f, c)
    ensures r.Success? ==> At(f, r.value.1) && r.value.1.pos >= c.pos
  {
    var (width, d) :- Count(f, c, args, "width");
    var (precision, e) :- Precision(f, d, args, typ);
    var spec := flagged.(width := if width.Some? then width.value else 0, precision := precision);
    var t := CharAt(f, e.pos);
    if t != '}' && t != '\0' then Success((spec.(typ := t), e.(pos := e.pos + 1))) else Success((spec, e))
  }

  /** What follows the colon, up to the closing brace. */
  ghost function ParseSpec(f: string, c: Cursor, args: seq<FormatArg>, typ: nat): (r: Result<(FormatSpec, Cursor), string>)
    requires At(f, c)
    ensures r.Success? ==> At(f, r.value.1) && r.value.1.pos >= c.pos
  {
    var (flagged, s) :- ParseFlags(f, c.pos, typ);
    ParseSizes(f, c.(pos := s), args, typ, flagged)
  }

  /** The rest of a replacement field after its argument: specification and closing brace. */
  ghost function ParseField(f: string, c: Cursor, args: seq<FormatArg>, typ: nat): (r: Result<(FormatSpec, Cursor), string>)
    requires At(f, c)
    ensures r.Success? ==> At(f, r.value.1) && r.value.1.pos > c.pos
  {
    var (spec, d) :- if CharAt(f, c.pos) == ':' then ParseSpec(f, Cursor(c.pos + 1, c.ix), args, typ) else Success((PLAIN, c));
    if CharAt(f, d.pos) != '}' then Failure("missing '}' in format string")
    else Success((spec, Cursor(d.pos + 1, d.ix)))
  }

  // ----- what is refused

  lemma FlagsSuit(f: string, s: nat, typ: nat)
    requires s <= |f| && ParseFlags(f, s, typ).Success?
    ensures var spec := ParseFlags(f, s, typ).value.0;
            && (spec.sign || spec.minus ==> typ <= LAST_NUMERIC_TYPE && typ != UINT && typ != ULONG_LONG)
            && (spec.hash ==> typ <= LAST_NUMERIC_TYPE)
            && (spec.align.AlignNumeric? && CharAt(f, s) != '}' ==> typ <= LAST_NUMERIC_TYPE)
            && (spec.plus ==> spec.sign)
  {
  }

  /**
   Whatever the text, a specification is accepted only when it suits the argument: signs only for signed numbers,
   `#` and numeric alignment only for numbers, a precision for neither integers nor pointers. Only the alignment of an
   empty specification, which stands behind its brace, escapes the test.
   */
  lemma AcceptedSuits(f: string, c: Cursor, args: seq<FormatArg>, typ: nat)
    requires At(f, c) && ParseSpec(f, c, args, typ).Success?
    ensures var spec := ParseSpec(f, c, args, typ).value.0;
            && (spec.sign || spec.minus ==> typ <= LAST_NUMERIC_TYPE && typ != UINT && typ != ULONG_LONG)
            && (spec.hash ==> typ <= LAST_NUMERIC_TYPE)
            && (spec.align.AlignNumeric? && CharAt(f, c.pos) != '}' ==> typ <= LAST_NUMERIC_TYPE)
            && (spec.precision >= 0 ==> typ > LAST_INTEGER_TYPE && typ != POINTER_ARG)
            && (spec.plus ==> spec.sign)
  {
    hide ParseFlags, Count, Disciplined;
    FlagsSuit(f, c.pos, typ);
  }

  /** A field ends with its closing brace and nowhere else. */
  lemma FieldsClose(f: string, c: Cursor, args: seq<FormatArg>, typ: nat)
    requires At(f, c) && ParseField(f, c, args, typ).Success?
    ensures var end := ParseField(f, c, args, typ).value.1.pos; c.pos < end <= |f| && f[end - 1] == '}'
  {
    hide ParseSpec, Disciplined;
  }

  // ----- format strings

  /** How an argument is written under a specification, or why it cannot be. */
  type Renderer = (FormatArg, FormatSpec) -> Result<string, string>

  function Prepend(text: string, r: Result<(string, Indexing), string>): Result<(string, Indexing), string> {
    match r
    case Failure(e) => Failure(e)
    case Success((t, ix)) => Success((text + t, ix))
  }

  /** The output of a format string from a position on: literal characters and rendered fields in order. */
  ghost function Output(f: string, c: Cursor, args: seq<FormatArg>, render: Renderer): (r: Result<(string, Indexing), string>)
    requires At(f, c)
    ensures r.Success? ==> Disciplined(r.value.1)
    decreases |f| - c.pos
  {
    var ch := CharAt(f, c.pos);
    if ch == '\0' then Success(("", c.ix))
    else if ch != '{' && ch != '}' then Prepend([ch], Output(f, Cursor(c.pos + 1, c.ix), args, render))
    else if CharAt(f, c.pos + 1) == ch then Prepend([ch], Output(f, Cursor(c.pos + 2, c.ix), args, render))
    else if ch == '}' then Failure("unmatched '}' in format string")
    else
      var (arg, d) :- ParseRef(f, Cursor(c.pos + 1, c.ix), args);
      var (spec, e) :- ParseField(f, d, args, arg.typ);
      var text :- render(arg, spec);
      Prepend(text, Output(f, e, args, render))
  }

  /**
   Argument indexing never mixes: on every successful run either all references, those of nested
   widths and precisions included, were automatic and consumed 0, 1, 2, ..., or none was.
   */
  lemma IndexingNeverMixes(f: string, args: seq<FormatArg>, render: Renderer)
    requires Output(f, Cursor(0, START), args, render).Success?
    ensures var ix := Output(f, Cursor(0, START), args, render).value.1;
            || (exists k: nat :: ix.refs == AutoRefs(k))
            || (forall i :: 0 <= i < |ix.refs| ==> !ix.refs[i].Auto?)
  {
  }

  lemma PrependTwice(a: string, b: string, r: Result<(string, Indexing), string>)
    ensures Prepend(a, Prepend(b, r)) == Prepend(a + b, r)
  {
    if r.Success? { assert a + (b + r.value.0) == a + b + r.value.0; }
  }

  /** A replacement field contributes what its argument renders to. */
  lemma FieldStep(f: string, text: string, s: nat, ix: Indexing, arg: FormatArg, d: Cursor, spec: FormatSpec, e: Cursor,
                  t: string, args: seq<FormatArg>, render: Renderer)
    requires s < |f| && Disciplined(ix) && f[s] == '{' && CharAt(f, s + 1) != '{'
    requires ParseRef(f, Cursor(s + 1, ix), args) == Success((arg, d))
    requires ParseField(f, d, args, arg.typ) == Success((spec, e)) && render(arg, spec) == Success(t)
    ensures Prepend(text, Output(f, Cursor(s, ix), args, render)) == Prepend(text + t, Output(f, e, args, render))
  {
    hide ParseRef, ParseField;
    PrependTwice(text, t, Output(f, e, args, render));
  }

  // ----- doubled braces

  function DoubleBraces(s: string): string {
    if s == [] then []
    else (if s[0] == '{' || s[0] == '}' then [s[0], s[0]] else [s[0]]) + DoubleBraces(s[1..])
  }

  /** Escaped text stands for itself wherever it occurs in a format string. */
  lemma {:induction false} EscapedText(before: string, s: string, tail: string, args: seq<FormatArg>, render: Renderer, ix: Indexing)
    requires Disciplined(ix) && '\0' !in s
    ensures var f := before + DoubleBraces(s) + tail;
            Output(f, Cursor(|before|, ix), args, render)
              == Prepend(s, Output(f, Cursor(|before + DoubleBraces(s)|, ix), args, render))
    decreases |s|
  {
    hide Disciplined, ParseRef, ParseField;
    var f := before + DoubleBraces(s) + tail;
    var rest := Output(f, Cursor(|before + DoubleBraces(s)|, ix), args, render);
    if s == [] {
      assert rest.Success? ==> "" + rest.value.0 == rest.value.0;
    } else {
      var piece := if s[0] == '{' || s[0] == '}' then [s[0], s[0]] else [s[0]];
      assert before + DoubleBraces(s) == (before + piece) + DoubleBraces(s[1..]);
      assert s[0] in s && '\0' !in s[1..];
      EscapedText(before + piece, s[1..], tail, args, render, ix);
      assert CharAt(f, |before|) == s[0];
      assert |piece| == 2 ==> CharAt(f, |before| + 1) == s[0];
      PrependTwice([s[0]], s[1..], rest);
      assert [s[0]] + s[1..] == s;
    }
  }

  /** Doubling the braces of any NUL-free text makes a format string for that text. */
  lemma DoubledBracesEscape(s: string, args: seq<FormatArg>, render: Renderer)
    requires '\0' !in s
    ensures Output(DoubleBraces(s), Cursor(0, START), args, render) == Success((s, START))
  {
    var f := DoubleBraces(s);
    EscapedText("", s, "", args, render, START);
    assert "" + f + "" == f && "" + f == f && s + "" == s;
    assert CharAt(f, |f|) == '\0';
  }

  /** A closing brace that closes nothing is an error, and so is an opening one at the end. */
  lemma StrayBraces(s: string, tail: string, args: seq<FormatArg>, render: Renderer)
    requires '\0' !in s && CharAt(tail, 0) != '}'
    ensures Output(DoubleBraces(s) + ("}" + tail), Cursor(0, START), args, render) == Failure("unmatched '}' in format string")
    ensures Output(DoubleBraces(s) + "{", Cursor(0, START), args, render).Failure?
  {
    hide DoubleBraces;
    AfterText(s, "}" + tail, args, render);
    StrayClosing(DoubleBraces(s), tail, args, render);
    AfterText(s, "{", args, render);
    StrayOpening(DoubleBraces(s), args, render);
  }

  lemma AfterText(s: string, rest: string, args: seq<FormatArg>, render: Renderer)
    requires '\0' !in s
    ensures var f := DoubleBraces(s) + rest;
            Output(f, Cursor(0, START), args, render) == Prepend(s, Output(f, Cursor(|DoubleBraces(s)|, START), args, render))
  {
    hide DoubleBraces, Output;
    EscapedText("", s, rest, args, render, START);
    assert "" + DoubleBraces(s) == DoubleBraces(s);
  }

  lemma StrayClosing(before: string, tail: string, args: seq<FormatArg>, render: Renderer)
    requires CharAt(tail, 0) != '}'
    ensures Output(before + ("}" + tail), Cursor(|before|, START), args, render) == Failure("unmatched '}' in format string")
  {
    var f := before + ("}" + tail);
    assert CharAt(f, |before|) == '}' && CharAt(f, |before| + 1) == CharAt(tail, 0);
  }

  lemma StrayOpening(before: string, args: seq<FormatArg>, render: Renderer)
    ensures Output(before + "{", Cursor(|before|, START), args, render).Failure?
  {
    hide Disciplined, NextArg;
    var f := before + "{";
    assert CharAt(f, |before|) == '{' && CharAt(f, |before| + 1) == '\0';
  }
}
