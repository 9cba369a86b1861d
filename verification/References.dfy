/** Argument references of replacement fields, and counts that may be taken from an argument. */
module References {
  import opened Wrappers
  import opened Numerals
  import opened ParseInt
  import opened FormatterSpec
  import opened Reading

  datatype Reference = Automatic | Index(n: nat) | Name(name: string)

  function PrintRef(r: Reference): string {
    match r case Automatic => "" case Index(n) => Decimal(n) case Name(name) => name
  }

  predicate IsNameChar(c: char) {
    IsNameStart(c) || IsDigit(c)
  }

  ghost predicate LegalRef(r: Reference) {
    match r
    case Automatic => true
    case Index(n) => n <= INT_MAX
    case Name(name) => name != "" && IsNameStart(name[0]) && forall i :: 0 <= i < |name| ==> IsNameChar(name[i])
  }

  /** The argument that is meant. */
  ghost function RefMeant(r: Reference, args: seq<FormatArg>, ix: Indexing): (m: Result<(FormatArg, Indexing), string>)
    requires Disciplined(ix)
    ensures m.Success? ==> Disciplined(m.value.1)
  {
    match r
    case Automatic => NextArg(args, ix)
    case Index(n) => GetArg(args, n, ix)
    case Name(name) => GetNamedArg(args, name, ix)
  }

  /** What stands behind a reference. */
  predicate EndsRef(c: char) {
    c == '}' || c == ':'
  }

  lemma {:induction false} NameEndAt(f: string, i: nat, j: nat)
    requires i <= j <= |f| && (forall k :: i <= k < j ==> IsNameChar(f[k])) && !IsNameChar(CharAt(f, j))
    ensures NameEnd(f, i) == j
    decreases j - i
  {
    if i < j { NameEndAt(f, i + 1, j); }
  }

  lemma NameReads(f: string, s: nat, name: string, tail: string)
    requires Reads(f, s, name, tail) && LegalRef(Name(name)) && EndsRef(CharAt(tail, 0))
    ensures IsNameStart(CharAt(f, s)) && NameEnd(f, s) == s + |name| && s + |name| <= |f| && f[s..s + |name|] == name
  {
    ReadOn(f, s, name, tail);
    assert CharAt(f, s) == name[0];
    forall k | s <= k < s + |name| ensures IsNameChar(f[k]) {
      assert CharAt(f, s + (k - s)) == name[k - s];
    }
    NameEndAt(f, s, s + |name|);
    assert f[s..s + |name|] == f[s..][..|name|];
  }

  lemma NamedReads(f: string, c: Cursor, name: string, tail: string, args: seq<FormatArg>)
    requires At(f, c) && LegalRef(Name(name)) && Reads(f, c.pos, name, tail) && EndsRef(CharAt(tail, 0))
    ensures ParseRef(f, c, args) == Placed(GetNamedArg(args, name, c.ix), c.pos + |name|)
  {
    hide GetNamedArg, NameEnd, IsNameStart, LegalRef, Reads, Disciplined, ParseArgIndex;
    NameReads(f, c.pos, name, tail);
  }

  lemma IndexedReads(f: string, c: Cursor, n: nat, tail: string, args: seq<FormatArg>)
    requires At(f, c) && n <= INT_MAX && Reads(f, c.pos, Decimal(n), tail) && EndsRef(CharAt(tail, 0))
    ensures ParseRef(f, c, args) == Placed(GetArg(args, n, c.ix), c.pos + |Decimal(n)|)
  {
    hide GetArg, Decimal, ReadInt, Disciplined, ParseArgName;
    NumberReads(f, c.pos, n, tail);
    ReadOn(f, c.pos, Decimal(n), tail);
  }

  lemma AutomaticReads(f: string, c: Cursor, tail: string, args: seq<FormatArg>)
    requires At(f, c) && Reads(f, c.pos, "", tail) && EndsRef(CharAt(tail, 0))
    ensures ParseRef(f, c, args) == Placed(NextArg(args, c.ix), c.pos)
  {
    hide NextArg, Disciplined, ParseArgName;
    ReadOn(f, c.pos, "", tail);
  }

  /** A printed reference is read as what it means, wherever it stands. */
  lemma RefReads(f: string, c: Cursor, r: Reference, tail: string, args: seq<FormatArg>)
    requires At(f, c) && LegalRef(r) && Reads(f, c.pos, PrintRef(r), tail) && EndsRef(CharAt(tail, 0))
    ensures ParseRef(f, c, args) == Placed(RefMeant(r, args, c.ix), c.pos + |PrintRef(r)|)
  {
    hide ParseRef, NextArg, GetArg, GetNamedArg, Disciplined, Decimal, Reads;
    match r
    case Automatic => AutomaticReads(f, c, tail, args);
    case Index(n) => IndexedReads(f, c, n, tail, args);
    case Name(name) => NamedReads(f, c, name, tail, args);
  }

  // ----- counts

  datatype CountForm = NoCount | Given(n: nat) | Nested(ref: Reference)

  function PrintCount(w: CountForm): string {
    match w case NoCount => "" case Given(n) => Decimal(n) case Nested(ref) => "{" + (PrintRef(ref) + "}")
  }

  ghost predicate LegalCount(w: CountForm) {
    (w.Given? ==> w.n <= INT_MAX) && (w.Nested? ==> LegalRef(w.ref))
  }

  /** The number that is meant, if any. */
  ghost function CountMeant(w: CountForm, args: seq<FormatArg>, ix: Indexing, what: string): (m: Result<(Option<nat>, Indexing), string>)
    requires Disciplined(ix)
    ensures m.Success? ==> Disciplined(m.value.1)
    ensures m.Success? ==> (m.value.0.None? <==> w.NoCount?)
  {
    match w
    case NoCount => Success((None, ix))
    case Given(n) => Success((Some(n), ix))
    case Nested(ref) =>
      var arg :- RefMeant(ref, args, ix);
      var n :- CountFromArg(arg.0, what);
      Success((Some(n), arg.1))
  }

  lemma NestedReads(f: string, c: Cursor, ref: Reference, tail: string, args: seq<FormatArg>, what: string)
    requires At(f, c) && LegalRef(ref) && Reads(f, c.pos, "{" + (PrintRef(ref) + "}"), tail)
    ensures Count(f, c, args, what) == Placed(CountMeant(Nested(ref), args, c.ix, what), c.pos + |PrintRef(ref)| + 2)
  {
    var text := PrintRef(ref);
    hide PrintRef, LegalRef, Reads, ParseRef, RefMeant, CountFromArg, Disciplined;
    Break(f, c.pos, "{", text + "}", tail);
    ReadOn(f, c.pos, "{", text + "}" + tail);
    Break(f, c.pos + 1, text, "}", tail);
    ReadOn(f, c.pos + 1, text, "}" + tail);
    assert ("}" + tail)[0] == '}';
    StillAt(f, c, c.pos + 1, text, "}" + tail);
    RefReads(f, Cursor(c.pos + 1, c.ix), ref, "}" + tail, args);
  }

  /** A printed count is read as what it means. */
  lemma CountReads(f: string, c: Cursor, w: CountForm, tail: string, args: seq<FormatArg>, what: string)
    requires At(f, c) && LegalCount(w) && Reads(f, c.pos, PrintCount(w), tail)
    requires !IsDigit(CharAt(tail, 0)) && CharAt(tail, 0) != '{'
    ensures Count(f, c, args, what) == Placed(CountMeant(w, args, c.ix, what), c.pos + |PrintCount(w)|)
  {
    hide Decimal, ReadInt, ParseRef, CountFromArg, RefMeant, PrintRef, Disciplined;
    match w
    case NoCount => ReadOn(f, c.pos, "", tail);
    case Given(n) => NumberReads(f, c.pos, n, tail);
    case Nested(ref) => NestedReads(f, c, ref, tail, args, what);
  }
}
