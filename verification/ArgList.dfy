/** Argument lists: the first sixteen types packed in a word, the rest marked by a sentinel. */
module ArgList {
  import Bits
  import opened DigitCount

  const MAX_PACKED_ARGS: nat := 16

  // Argument types; the numeric ones come first.
  const NONE: nat := 0
  const NAMED_ARG: nat := 1
  const INT: nat := 2
  const UINT: nat := 3
  const LONG_LONG: nat := 4
  const ULONG_LONG: nat := 5
  const BOOL: nat := 6
  const CHAR: nat := 7
  const LAST_INTEGER_TYPE := CHAR
  const DOUBLE: nat := 8
  const LONG_DOUBLE: nat := 9
  const LAST_NUMERIC_TYPE := LONG_DOUBLE
  const CSTRING: nat := 10
  const STRING: nat := 11
  const WSTRING: nat := 12
  const POINTER_ARG: nat := 13
  const CUSTOM: nat := 14

  datatype Arg<V> = Arg(value: V, typ: nat)

  /** The union: bare values when fewer than sixteen arguments, values with types otherwise. */
  datatype Store<V> = Values(values: seq<V>) | Args(args: seq<Arg<V>>)

  predicate RealType(typ: nat) {
    NONE < typ <= CUSTOM
  }

  // ----- packing

  /** `make_type(first, tail...)`: four bits an argument; what does not fit is shifted out. */
  function MakeType(types: seq<nat>): nat {
    if types == [] then 0 else Bits.Or(types[0], Bits.Shl(MakeType(types[1..]), 4) % UINT64_LIMIT)
  }

  /** `type(index)`: mask and shift. */
  function TypeAt(types: nat, index: nat): nat {
    Bits.Shr(Bits.And(types, Bits.Shl(0xf, 4 * index)), 4 * index)
  }

  /** The hexadecimal digit of x at position k. */
  function HexDigit(x: nat, k: nat): nat {
    if k == 0 then x % 16 else HexDigit(x / 16, k - 1)
  }

  lemma ShrFour(x: nat, k: nat)
    ensures Bits.Shr(x, k + 4) == Bits.Shr(x / 16, k)
  {
    assert x / 2 / 2 / 2 / 2 == x / 16;
    assert Bits.Shr(x, k + 4) == Bits.Shr(x / 2 / 2, k + 2);
    assert Bits.Shr(x / 2 / 2, k + 2) == Bits.Shr(x / 2 / 2 / 2 / 2, k);
  }

  lemma {:induction false} ShrIsHexDigit(x: nat, k: nat)
    ensures Bits.Shr(x, 4 * k) % 16 == HexDigit(x, k)
  {
    if k > 0 {
      ShrFour(x, 4 * (k - 1));
      ShrIsHexDigit(x / 16, k - 1);
    }
  }

  lemma TypeAtIsHexDigit(types: nat, index: nat)
    ensures TypeAt(types, index) == HexDigit(types, index)
  {
    Bits.ShrAnd(types, 0xf, 4 * index);
    Pow2Of4();
    Bits.MaskIsMod(Bits.Shr(types, 4 * index), 4);
    ShrIsHexDigit(types, index);
  }

  lemma Pow2Of4()
    ensures Bits.Pow2(4) == 16
  {
    assert Bits.Pow2(2) == 4;
  }

  function Pow16(w: nat): (r: nat)
    ensures r > 0
  {
    if w == 0 then 1 else 16 * Pow16(w - 1)
  }

  /** Cutting a number at digit w keeps the digits below. */
  lemma {:induction false} CutKeepsDigit(x: nat, w: nat, k: nat)
    requires k < w
    ensures HexDigit(x % Pow16(w), k) == HexDigit(x, k)
  {
    CutOneDigit(x, Pow16(w - 1));
    if k > 0 { CutKeepsDigit(x / 16, w - 1, k - 1); }
  }

  lemma CutOneDigit(x: nat, p: nat)
    requires p > 0
    ensures x % (16 * p) % 16 == x % 16 && x % (16 * p) / 16 == x / 16 % p
  {
    var q, r := x / 16 / p, x / 16 % p;
    assert x / 16 == q * p + r;
    assert x == q * (16 * p) + (16 * r + x % 16) by { assert q * (16 * p) == 16 * (q * p); }
    Bits.ModUnique(x, 16 * p, q, 16 * r + x % 16);
  }

  const CUT := 0x1000_0000_0000_0000

  lemma CutIsPow16()
    ensures CUT == Pow16(15)
  {
    var k: nat := 0;
    FiveDigits(k);
    FiveDigits(k + 5);
    FiveDigits(k + 10);
  }

  lemma FiveDigits(k: nat)
    ensures Pow16(k + 5) == 0x10_0000 * Pow16(k)
  {
    assert Pow16(k + 2) == 0x100 * Pow16(k);
    assert Pow16(k + 4) == 0x100 * Pow16(k + 2);
  }

  lemma PackStep(first: nat, rest: nat)
    requires first < 16
    ensures Bits.Or(first, Bits.Shl(rest, 4) % UINT64_LIMIT) == first + 16 * (rest % CUT)
  {
    var low := rest % CUT;
    ShlFour(rest);
    ShlFour(low);
    Bits.ModUnique(16 * rest, UINT64_LIMIT, rest / CUT, 16 * low);
    Pow2Of4();
    Bits.OrShl(first, low, 4);
  }

  lemma ShlFour(x: nat)
    ensures Bits.Shl(x, 4) == 16 * x
  {
    var k: nat := 2;
    assert Bits.Shl(x, k) == 2 * Bits.Shl(x, k - 1);
    assert Bits.Shl(x, k + 2) == 4 * Bits.Shl(x, k);
  }

  /** Packing and unpacking the first sixteen types; positions beyond the list read NONE. */
  lemma {:induction false} PackedTypes(types: seq<nat>, i: nat)
    requires i < MAX_PACKED_ARGS && forall j :: 0 <= j < |types| ==> types[j] < 16
    ensures TypeAt(MakeType(types), i) == if i < |types| then types[i] else NONE
  {
    TypeAtIsHexDigit(MakeType(types), i);
    PackedDigits(types, i);
  }

  lemma DigitStep(first: nat, rest: nat, i: nat)
    requires first < 16 && i < 16
    ensures HexDigit(first + 16 * (rest % CUT), i) == if i == 0 then first else HexDigit(rest, i - 1)
  {
    assert (first + 16 * (rest % CUT)) / 16 == rest % CUT && (first + 16 * (rest % CUT)) % 16 == first;
    if i > 0 {
      CutIsPow16();
      CutKeepsDigit(rest, 15, i - 1);
    }
  }

  lemma {:induction false} PackedDigits(types: seq<nat>, i: nat)
    requires i < MAX_PACKED_ARGS && forall j :: 0 <= j < |types| ==> types[j] < 16
    ensures HexDigit(MakeType(types), i) == if i < |types| then types[i] else NONE
    decreases |types|, i
  {
    if types != [] {
      var rest := MakeType(types[1..]);
      PackStep(types[0], rest);
      DigitStep(types[0], rest, i);
      if i > 0 { PackedDigits(types[1..], i - 1); }
    } else if i > 0 {
      PackedDigits(types, i - 1);
    }
  }

  // ----- the list

  function Types<V>(args: seq<Arg<V>>): (r: seq<nat>)
    ensures |r| == |args| && forall i :: 0 <= i < |r| ==> r[i] == args[i].typ
  {
    seq(|args|, i requires 0 <= i < |args| => args[i].typ)
  }

  /**
   `make_arg_list`: the array is uninitialised storage, one element longer when there are no
   arguments (an array cannot be empty) or at least sixteen (for the sentinel). Types are stored
   only when there are more than sixteen.
   */
  function MakeStore<V>(args: seq<Arg<V>>, storage: seq<Arg<V>>): Store<V>
    requires |storage| == |args| + 1
  {
    var n := |args|;
    if n < MAX_PACKED_ARGS
    then Values(seq(if n == 0 then 1 else n, i requires 0 <= i <= n => if i < n then args[i].value else storage[i].value))
    else Args(seq(n, i requires 0 <= i < n =>
                Arg(args[i].value, if n > MAX_PACKED_ARGS then args[i].typ else storage[i].typ))
              + [Arg(storage[n].value, NONE)])
  }

  /** What every store made from these arguments has in common. */
  ghost predicate StoreOf<V>(args: seq<Arg<V>>, store: Store<V>) {
    var n := |args|;
    if n < MAX_PACKED_ARGS
    then store.Values? && |store.values| >= n && forall i :: 0 <= i < n ==> store.values[i] == args[i].value
    else
      && store.Args? && |store.args| == n + 1 && store.args[n].typ == NONE
      && forall i :: 0 <= i < n ==>
           store.args[i].value == args[i].value && (n > MAX_PACKED_ARGS ==> store.args[i].typ == args[i].typ)
  }

  class ArgList<V> {
    const types: nat
    const store: Store<V>
    ghost const args: seq<Arg<V>>

    ghost predicate Valid() {
      && (forall i :: 0 <= i < |args| ==> RealType(args[i].typ))
      && types == MakeType(Types(args))
      && StoreOf(args, store)
    }

    constructor (args: seq<Arg<V>>, storage: seq<Arg<V>>)
      requires |storage| == |args| + 1 && forall i :: 0 <= i < |args| ==> RealType(args[i].typ)
      ensures Valid() && this.args == args && store == MakeStore(args, storage)
    {
      types := MakeType(Types(args));
      store := MakeStore(args, storage);
      this.args := args;
    }

    /** `operator[]`: the argument at the index, or a typeless one; blank is an uninitialised value. */
    method Get(index: nat, blank: V) returns (arg: Arg<V>)
      requires Valid()
      ensures if index < |args| then arg == args[index] else arg.typ == NONE
    {
      UnionTag(args, types);
      var useValues := TypeAt(types, MAX_PACKED_ARGS - 1) == NONE;
      if index < MAX_PACKED_ARGS {
        PackedTypes(Types(args), index);
        var typ := TypeAt(types, index);
        if typ == NONE { return Arg(blank, NONE); }
        return Arg(if useValues then store.values[index] else store.args[index].value, typ);
      }
      if useValues { return Arg(blank, NONE); }
      for i := MAX_PACKED_ARGS to index + 1
        invariant i <= |args|
      {
        if store.args[i].typ == NONE { return store.args[i]; }
      }
      return store.args[index];
    }
  }

  /** The sixteenth packed type is NONE exactly when there are fewer than sixteen arguments. */
  lemma UnionTag<V>(args: seq<Arg<V>>, types: nat)
    requires types == MakeType(Types(args)) && forall i :: 0 <= i < |args| ==> RealType(args[i].typ)
    ensures TypeAt(types, MAX_PACKED_ARGS - 1) == NONE <==> |args| < MAX_PACKED_ARGS
  {
    PackedTypes(Types(args), MAX_PACKED_ARGS - 1);
  }
}
