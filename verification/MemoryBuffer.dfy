/** The growable buffer behind every writer: a sequence stored in an array that is replaced when full. */
module MemoryBuffer {

  /** `std::uninitialized_copy` into the cells from `at`. */
  method CopyInto<T>(data: array<T>, at: nat, values: seq<T>)
    requires at + |values| <= data.Length
    modifies data
    ensures data[..] == old(data[..at]) + values + old(data[at + |values|..])
  {
    for i := 0 to |values|
      invariant data[..at] == old(data[..at])
      invariant data[at..at + i] == values[..i]
      invariant data[at + |values|..] == old(data[at + |values|..])
    {
      data[at + i] := values[i];
    }
    assert data[..] == data[..at] + data[at..at + |values|] + data[at + |values|..];
  }

  function Rep<T>(c: T, n: nat): seq<T> {
    seq(n, _ => c)
  }

  /** `std::uninitialized_fill_n` */
  method FillInto<T>(data: array<T>, at: nat, n: nat, c: T)
    requires at + n <= data.Length
    modifies data
    ensures data[..] == old(data[..at]) + Rep(c, n) + old(data[at + n..])
  {
    for i := 0 to n
      invariant data[..at] == old(data[..at])
      invariant data[at..at + i] == Rep(c, i)
      invariant data[at + n..] == old(data[at + n..])
    {
      data[at + i] := c;
    }
    assert data[..] == data[..at] + data[at..at + n] + data[at + n..];
  }

  // ----- what growing costs

  /** Size, capacity, elements copied by all growths so far, and the largest size ever asked for. */
  datatype Account = Account(size: nat, capacity: nat, copied: nat, requested: nat)

  datatype Op = PushedBack | Appended(n: nat) | Resized(n: nat) | Reserved(n: nat) | Cleared

  function MaxNat(a: nat, b: nat): nat {
    if a > b then a else b
  }

  /** At least half as much again. */
  function Grown(capacity: nat, n: nat): nat {
    MaxNat(capacity + capacity / 2, n)
  }

  /** The size an operation needs room for. */
  function Needs(op: Op, size: nat): nat {
    match op
    case PushedBack => size + 1
    case Appended(n) => size + n
    case Resized(n) => n
    case Reserved(n) => n
    case Cleared => 0
  }

  function SizeAfter(op: Op, size: nat): nat {
    match op
    case Reserved(_) => size
    case _ => Needs(op, size)
  }

  /** Storage is replaced exactly when the room needed exceeds the capacity. */
  function After(a: Account, op: Op): Account {
    var n := Needs(op, a.size);
    if n > a.capacity then Account(SizeAfter(op, a.size), Grown(a.capacity, n), a.copied + a.size, MaxNat(a.requested, n))
    else Account(SizeAfter(op, a.size), a.capacity, a.copied, MaxNat(a.requested, n))
  }

  function AfterAll(a: Account, ops: seq<Op>): Account
    decreases |ops|
  {
    if ops == [] then a else AfterAll(After(a, ops[0]), ops[1..])
  }

  /** The largest size a run of operations needs room for. */
  function Largest(ops: seq<Op>, size: nat): nat {
    if ops == [] then 0 else MaxNat(Needs(ops[0], size), Largest(ops[1..], SizeAfter(ops[0], size)))
  }

  ghost predicate Moderate(a: Account, inline: nat) {
    && a.size <= a.capacity && inline <= a.capacity
    && a.copied <= 3 * a.capacity
    && (a.capacity <= inline || 2 * a.capacity <= 3 * a.requested)
  }

  lemma StaysModerate(a: Account, op: Op, inline: nat)
    requires Moderate(a, inline)
    ensures Moderate(After(a, op), inline)
  {
  }

  lemma {:induction false} RunStaysModerate(a: Account, ops: seq<Op>, inline: nat)
    requires Moderate(a, inline)
    ensures Moderate(AfterAll(a, ops), inline)
    ensures AfterAll(a, ops).requested == MaxNat(a.requested, Largest(ops, a.size))
    decreases |ops|
  {
    if ops != [] {
      StaysModerate(a, ops[0], inline);
      RunStaysModerate(After(a, ops[0]), ops[1..], inline);
    }
  }

  /**
   Under any mix of operations on a new buffer, all growths together copy at most three times the
   capacity, and the capacity is at most the inline size or one and a half times the largest request.
   */
  lemma GrowthBounded(inline: nat, ops: seq<Op>)
    ensures var a := AfterAll(Account(0, inline, 0, 0), ops);
            && a.size <= a.capacity && a.copied <= 3 * a.capacity
            && (a.capacity == inline || 2 * a.capacity <= 3 * Largest(ops, 0))
  {
    RunStaysModerate(Account(0, inline, 0, 0), ops, inline);
  }

  class Buffer<T(0)> {
    var data: array<T>
    var size: nat
    ghost const inline: nat    // elements held in the object itself
    ghost var requested: nat   // the largest size ever asked for
    ghost var copied: nat      // elements copied by all growths so far

    ghost function Ledger(): Account
      reads this
    {
      Account(size, data.Length, copied, requested)
    }

    ghost predicate Valid()
      reads this
    {
      Moderate(Ledger(), inline)
    }

    ghost function Contents(): (s: seq<T>)
      requires Valid()
      reads this, data
      ensures |s| == size
    {
      data[..size]
    }

    constructor (SIZE: nat)
      ensures Valid() && fresh(data) && Contents() == [] && inline == SIZE && Ledger() == Account(0, SIZE, 0, 0)
    {
      data := new T[SIZE];
      size, inline, requested, copied := 0, SIZE, 0, 0;
    }

    /** `grow`: at least half as much again, all elements copied. */
    method Grow(n: nat)
      requires Valid() && n > data.Length
      modifies this
      ensures Valid() && fresh(data)
      ensures Contents() == old(Contents())
      ensures Ledger() == After(old(Ledger()), Reserved(n))
    {
      var newCapacity := data.Length + data.Length / 2;
      if n > newCapacity { newCapacity := n; }
      var newData := new T[newCapacity];
      for i := 0 to size
        modifies newData
        invariant newData[..i] == data[..i]
      {
        newData[i] := data[i];
      }
      copied := copied + size;
      requested := MaxNat(requested, n);
      data := newData;
    }

    method Reserve(capacity: nat)
      requires Valid()
      modifies this
      ensures Valid() && (data == old(data) || fresh(data)) && data.Length >= capacity
      ensures Contents() == old(Contents())
      ensures Ledger() == After(old(Ledger()), Reserved(capacity))
    {
      if capacity > data.Length { Grow(capacity); }
      requested := MaxNat(requested, capacity);
    }

    /** New elements are whatever the storage holds. */
    method Resize(n: nat)
      requires Valid()
      modifies this
      ensures Valid() && (data == old(data) || fresh(data)) && size == n
      ensures if n <= old(size) then Contents() == old(Contents())[..n] else Contents()[..old(size)] == old(Contents())
      ensures Ledger() == After(old(Ledger()), Resized(n))
    {
      if n > data.Length { Grow(n); }
      size := n;
      requested := MaxNat(requested, n);
    }

    method Clear()
      requires Valid()
      modifies this
      ensures Valid() && data == old(data) && Contents() == []
      ensures Ledger() == After(old(Ledger()), Cleared)
    {
      size := 0;
    }

    method PushBack(value: T)
      requires Valid()
      modifies this, data
      ensures Valid() && (data == old(data) || fresh(data))
      ensures Contents() == old(Contents()) + [value]
      ensures Ledger() == After(old(Ledger()), PushedBack)
    {
      if size == data.Length { Grow(size + 1); }
      data[size] := value;
      size := size + 1;
      requested := MaxNat(requested, size);
    }

    method Append(values: seq<T>)
      requires Valid()
      modifies this, data
      ensures Valid() && (data == old(data) || fresh(data))
      ensures Contents() == old(Contents()) + values
      ensures Ledger() == After(old(Ledger()), Appended(|values|))
    {
      var newSize := size + |values|;
      if newSize > data.Length { Grow(newSize); }
      CopyInto(data, size, values);
      size := newSize;
      requested := MaxNat(requested, newSize);
    }
  }
}
