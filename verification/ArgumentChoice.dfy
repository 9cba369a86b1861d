/** Which argument a reference brings out, seen in the output of whole format strings. */
module ArgumentChoice {
  import opened Wrappers
  import opened ArgList
  import opened FormatSpecs
  import opened Numerals
  import opened ParseInt
  import opened FormatterSpec
  import opened References
  import opened Template
  import PrintfSpec
  import PrintfSyntax
  import P = PrintfTemplate

  /** A string argument, with or without a name. */
  datatype Item = Item(name: Option<string>, text: string)

  function Pass(item: Item): FormatArg {
    var arg := Arg(Chars(item.text), STRING);
    if item.name.Some? then Arg(Named(item.name.value, arg), NAMED_ARG) else arg
  }

  function PassAll(items: seq<Item>): (args: seq<FormatArg>)
    ensures |args| == |items| && forall i :: 0 <= i < |items| ==> args[i] == Pass(items[i])
  {
    seq(|items|, i requires 0 <= i < |items| => Pass(items[i]))
  }

  /** The place of the first item of that name, |items| when there is none. */
  function Place(items: seq<Item>, name: string): (k: nat)
    ensures k <= |items| && (k < |items| ==> items[k].name == Some(name))
    ensures forall j :: 0 <= j < k ==> items[j].name != Some(name)
  {
    if items == [] || items[0].name == Some(name) then 0 else 1 + Place(items[1..], name)
  }

  /** An explicit reference is to the item at that index or to the first of that name. */
  function PlaceOf(items: seq<Item>, ref: Reference): nat {
    match ref case Automatic => |items| case Index(n) => n case Name(name) => Place(items, name)
  }

  ghost predicate AllFound(items: seq<Item>, refs: seq<Reference>) {
    forall k :: 0 <= k < |refs| ==> PlaceOf(items, refs[k]) < |items|
  }

  function Texts(items: seq<Item>, places: seq<int>): string
    requires forall k :: 0 <= k < |places| ==> 0 <= places[k] < |items|
  {
    if places == [] then "" else items[places[0]].text + Texts(items, places[1..])
  }

  function Places(items: seq<Item>, refs: seq<Reference>): (r: seq<int>)
    ensures |r| == |refs| && forall k :: 0 <= k < |refs| ==> r[k] == PlaceOf(items, refs[k])
  {
    seq(|refs|, k requires 0 <= k < |refs| => PlaceOf(items, refs[k]))
  }

  // ----- replacement fields

  /** `{ref}{ref}...` */
  function Fields(refs: seq<Reference>): (ps: seq<Piece>)
    ensures |ps| == |refs| && forall k :: 0 <= k < |refs| ==> ps[k] == Field(refs[k], None)
  {
    seq(|refs|, k requires 0 <= k < |refs| => Field(refs[k], None))
  }

  lemma RefChooses(items: seq<Item>, ref: Reference, ix: Indexing)
    requires Disciplined(ix) && ix.next <= 0 && !ref.Automatic?
    ensures var m := RefMeant(ref, PassAll(items), ix);
            && (m.Success? <==> PlaceOf(items, ref) < |items|)
            && (m.Success? ==> m.value.1.next == -1 && m.value.0 == Arg(Chars(items[PlaceOf(items, ref)].text), STRING))
  {
    var args := PassAll(items);
    if ref.Name? {
      var k := Place(items, ref.name);
      assert forall j :: 0 <= j < |args| ==> (BearsName(args[j], ref.name) <==> items[j].name == Some(ref.name));
      FindsFirst(args, ref.name, k);
    }
  }

  lemma {:induction false} FieldsBringOut(items: seq<Item>, refs: seq<Reference>, ix: Indexing)
    requires Disciplined(ix) && ix.next <= 0
    requires forall k :: 0 <= k < |refs| ==> !refs[k].Automatic? && LegalRef(refs[k])
    ensures var args, ps := PassAll(items), Fields(refs);
            && Fits(ps, args, WriteArgument, ix)
            && var m := Meant(ps, args, WriteArgument, ix);
               && (m.Success? <==> AllFound(items, refs))
               && (m.Success? ==> m.value.0 == Texts(items, Places(items, refs)))
    decreases |refs|
  {
    hide LegalRef, RefMeant, Disciplined;
    var args, ps := PassAll(items), Fields(refs);
    if refs != [] {
      RefChooses(items, refs[0], ix);
      assert ps[1..] == Fields(refs[1..]);
      var w := Written(refs[0], None, args, WriteArgument, ix);
      if w.Success? {
        FieldsBringOut(items, refs[1..], w.value.1);
        assert Places(items, refs)[1..] == Places(items, refs[1..]);
        assert AllFound(items, refs) <==> AllFound(items, refs[1..]);
      }
    }
  }

  /**
   Numbered and named references in any order and number: the format string succeeds exactly when every index is
   in range and every name is borne by an argument, and then the output is the texts of just those arguments, in
   the order of the references.
   */
  lemma ReferencesBringOut(items: seq<Item>, refs: seq<Reference>)
    requires forall k :: 0 <= k < |refs| ==> !refs[k].Automatic? && LegalRef(refs[k])
    ensures var r := Output(PrintTemplate(Fields(refs)), Cursor(0, START), PassAll(items), WriteArgument);
            && (r.Success? <==> AllFound(items, refs))
            && (r.Success? ==> r.value.0 == Texts(items, Places(items, refs)))
  {
    hide Fits, Meant, Output;
    FieldsBringOut(items, refs, START);
    TemplatesMean(Fields(refs), PassAll(items), WriteArgument);
  }

  /** Swapped references swap the texts. */
  lemma Swapped(a: string, b: string)
    ensures var r := Output("{1}{0}", Cursor(0, START), PassAll([Item(None, a), Item(None, b)]), WriteArgument);
            r.Success? && r.value.0 == b + a
  {
    hide Output, PrintTemplate, Texts, PassAll;
    var items, refs := [Item(None, a), Item(None, b)], [Index(1), Index(0)];
    ReferencesBringOut(items, refs);
    assert AllFound(items, refs);
    SwappedFields();
    SwappedTexts(items, Places(items, refs));
  }

  lemma SwappedTexts(items: seq<Item>, places: seq<int>)
    requires |items| == 2 && places == [1, 0]
    ensures Texts(items, places) == items[1].text + items[0].text
  {
    assert places[1..] == [0] && [0][1..] == [];
    assert items[0].text + "" == items[0].text;
    assert Texts(items, [0]) == items[0].text;
  }

  lemma SwappedFields()
    ensures PrintTemplate(Fields([Index(1), Index(0)])) == "{1}{0}"
  {
    var ps := Fields([Index(1), Index(0)]);
    assert Decimal(0) == "0" && Decimal(1) == "1";
    assert PrintPiece(ps[0]) == "{1}" && PrintPiece(ps[1]) == "{0}";
    hide PrintPiece, Fields;
    assert ps[1..][1..] == [];
    assert PrintTemplate(ps[1..]) == "{0}" + "" == "{0}";
    assert PrintTemplate(ps) == "{1}" + PrintTemplate(ps[1..]);
  }

  lemma AutomaticWritten(items: seq<Item>, k: nat)
    ensures var ix := Indexing(k, AutoRefs(k));
            && Disciplined(ix) && FieldFits(Automatic, None, PassAll(items), ix)
            && var w := Written(Automatic, None, PassAll(items), WriteArgument, ix);
               if k < |items| then w == Success((items[k].text, Indexing(k + 1, AutoRefs(k + 1)))) else w.Failure?
  {
    assert AutoRefs(k) + [Auto(k)] == AutoRefs(k + 1);
  }

  function Range(k: nat, n: nat): (r: seq<int>)
    ensures |r| == n && forall i :: 0 <= i < n ==> r[i] == k + i
  {
    seq(n, i => k + i)
  }

  function Automatics(n: nat): (r: seq<Reference>)
    ensures |r| == n && forall i :: 0 <= i < n ==> r[i] == Automatic
  {
    seq(n, _ => Automatic)
  }

  lemma {:induction false} AutomaticBringOut(items: seq<Item>, k: nat, n: nat)
    requires k <= |items|
    ensures Disciplined(Indexing(k, AutoRefs(k)))
    ensures var args, ps, ix := PassAll(items), Fields(Automatics(n)), Indexing(k, AutoRefs(k));
            && Fits(ps, args, WriteArgument, ix)
            && var m := Meant(ps, args, WriteArgument, ix);
               && (m.Success? <==> k + n <= |items|)
               && (m.Success? ==> m.value.0 == Texts(items, Range(k, n)))
    decreases n
  {
    hide Disciplined, Written, FieldFits, PassAll;
    AutomaticWritten(items, k);
    if n > 0 {
      assert Fields(Automatics(n))[1..] == Fields(Automatics(n - 1));
      if k < |items| {
        AutomaticBringOut(items, k + 1, n - 1);
        assert Range(k, n)[1..] == Range(k + 1, n - 1);
      }
    }
  }

  /** Automatic references bring out the texts one after the other, and fail exactly when there are not enough. */
  lemma AutomaticInOrder(items: seq<Item>, n: nat)
    ensures var r := Output(PrintTemplate(Fields(Automatics(n))), Cursor(0, START), PassAll(items), WriteArgument);
            && (r.Success? <==> n <= |items|)
            && (r.Success? ==> r.value.0 == Texts(items, Range(0, n)))
  {
    hide Fits, Meant, Output;
    assert START == Indexing(0, AutoRefs(0));
    AutomaticBringOut(items, 0, n);
    TemplatesMean(Fields(Automatics(n)), PassAll(items), WriteArgument);
  }

  // ----- printf directives

  /** A string under a directive without width and precision stands for itself. */
  function PrintArgument(arg: FormatArg, spec: FormatSpec): Result<string, string> {
    if arg.typ == STRING && arg.value.Chars? && spec.width == 0 && spec.precision < 0 then Success(arg.value.s)
    else WriteInteger(arg, spec)
  }

  /** `%n$s` */
  function Directive(n: nat): PrintfSyntax.Form {
    PrintfSyntax.Form(Some(n), "", PrintfSyntax.NoWidth, PrintfSyntax.NoPrecision, PrintfSyntax.NoModifier, 's')
  }

  function Directives(ns: seq<nat>): (ps: seq<P.Piece>)
    ensures |ps| == |ns| && forall k :: 0 <= k < |ns| ==> ps[k] == P.Field(Directive(ns[k]))
  {
    seq(|ns|, k requires 0 <= k < |ns| => P.Field(Directive(ns[k])))
  }

  /** The indices count from 1. */
  ghost predicate AllIn(items: seq<Item>, ns: seq<nat>) {
    forall k :: 0 <= k < |ns| ==> 1 <= ns[k] <= |items|
  }

  function Before(ns: seq<nat>): (r: seq<int>)
    ensures |r| == |ns| && forall k :: 0 <= k < |ns| ==> r[k] == ns[k] as int - 1
  {
    seq(|ns|, k requires 0 <= k < |ns| => ns[k] as int - 1)
  }

  lemma DirectiveChooses(items: seq<Item>, n: nat, ix: Indexing)
    requires Disciplined(ix) && ix.next <= 0 && |items| <= PrintfSpec.UINT_MAX
    ensures var w := P.Written(Directive(n), PassAll(items), PrintArgument, ix);
            && (w.Success? <==> 1 <= n <= |items|)
            && (w.Success? ==> w.value.1.next == -1 && w.value.0 == items[n - 1].text)
  {
  }

  lemma {:induction false} DirectivesBringOut(items: seq<Item>, ns: seq<nat>, ix: Indexing)
    requires Disciplined(ix) && ix.next <= 0 && |items| <= PrintfSpec.UINT_MAX
    ensures var m := P.Meant(Directives(ns), PassAll(items), PrintArgument, ix);
            && (m.Success? <==> AllIn(items, ns))
            && (m.Success? ==> m.value.0 == Texts(items, Before(ns)))
    decreases |ns|
  {
    hide Disciplined, P.Written;
    if ns != [] {
      DirectiveChooses(items, ns[0], ix);
      assert Directives(ns)[1..] == Directives(ns[1..]);
      var w := P.Written(Directive(ns[0]), PassAll(items), PrintArgument, ix);
      if w.Success? {
        DirectivesBringOut(items, ns[1..], w.value.1);
        assert Before(ns)[1..] == Before(ns[1..]);
        assert AllIn(items, ns) <==> AllIn(items, ns[1..]);
      }
    }
  }

  /** The same for numbered printf directives, whose indices count from 1. */
  lemma DirectivesChoose(items: seq<Item>, ns: seq<nat>)
    requires |items| <= PrintfSpec.UINT_MAX && forall k :: 0 <= k < |ns| ==> ns[k] <= INT_MAX
    ensures var r := PrintfSpec.PrintfOutput(P.PrintTemplate(Directives(ns)), Cursor(0, START), PassAll(items), PrintArgument);
            && (r.Success? <==> AllIn(items, ns))
            && (r.Success? ==> r.value.0 == Texts(items, Before(ns)))
  {
    hide P.Meant, PrintfSpec.PrintfOutput;
    DirectivesBringOut(items, ns, START);
    P.TemplatesMean(Directives(ns), PassAll(items), PrintArgument);
  }
}
