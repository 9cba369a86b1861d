/** The argument counter shared by the brace formatter and the printf formatter. */
module FormatterBases {
  import opened Wrappers
  import opened FormatterSpec

  /** The arguments and the next automatic index. */
  class FormatterBase {
    const args: seq<FormatArg>
    var nextArgIndex: int
    ghost var refs: seq<Ref>

    ghost function Ix(): Indexing
      reads this
    {
      Indexing(nextArgIndex, refs)
    }

    ghost predicate Valid()
      reads this
    {
      Disciplined(Ix())
    }

    /** What a parse that ends with value v at position s comes to, by its specification. */
    ghost predicate Ends<V>(spec: Result<(V, Cursor), string>, r: Result<(V, nat), string>)
      reads this
    {
      match spec
      case Failure(e) => r == Failure(e)
      case Success((v, c)) => r == Success((v, c.pos)) && Ix() == c.ix
    }

    constructor (args: seq<FormatArg>)
      ensures Valid() && Ix() == START && this.args == args
    {
      this.args := args;
      nextArgIndex, refs := 0, [];
    }

    method NextArgument() returns (r: Result<FormatArg, string>)
      requires Valid()
      modifies this
      ensures r.Success? <==> old(nextArgIndex) >= 0 && HasArg(args, old(nextArgIndex))
      ensures r.Success? ==> r.value == Unnamed(args[old(nextArgIndex)]) && nextArgIndex == old(nextArgIndex) + 1
      ensures match NextArg(args, old(Ix()))
              case Failure(e) => r == Failure(e)
              case Success((arg, ix)) => r == Success(arg) && Ix() == ix
    {
      if nextArgIndex < 0 { return Failure("cannot switch from manual to automatic argument indexing"); }
      r := FetchArg(args, nextArgIndex);
      refs := refs + [Auto(nextArgIndex)];
      nextArgIndex := nextArgIndex + 1;
    }

    method CheckNoAutoIndex() returns (r: Result<(), string>)
      modifies `nextArgIndex
      ensures old(nextArgIndex) > 0 ==> r == Failure("cannot switch from automatic to manual argument indexing")
      ensures old(nextArgIndex) <= 0 ==> r == Success(()) && nextArgIndex == -1
    {
      if nextArgIndex > 0 { return Failure("cannot switch from automatic to manual argument indexing"); }
      nextArgIndex := -1;
      return Success(());
    }

    method ArgumentAt(i: nat) returns (r: Result<FormatArg, string>)
      requires Valid()
      modifies this
      ensures r.Success? <==> old(nextArgIndex) <= 0 && HasArg(args, i)
      ensures r.Success? ==> r.value == Unnamed(args[i]) && nextArgIndex == -1
      ensures match GetArg(args, i, old(Ix()))
              case Failure(e) => r == Failure(e)
              case Success((arg, ix)) => r == Success(arg) && Ix() == ix
    {
      var ok := CheckNoAutoIndex();
      if ok.Failure? { return Failure(ok.error); }
      r := FetchArg(args, i);
      refs := refs + [Manual(i)];
    }
  }
}
