/**
 The queue object itself, called by one thread at a time: the retry loops of `enqueue` and
 `dequeue`, access for access steps of the interleaving model, form a bounded FIFO.
 */
module BoundedQueue {
  import opened Wrappers
  import Bits
  import opened MpmcQueue

  class Queue<T> {
    const cells: array<Cell<T>>
    var enqueuePos: nat
    var dequeuePos: nat
    ghost var history: History<T>

    /** The object with its caller at program point pc, as a configuration of the model. */
    ghost function View(pc: Pc<T>): Config<T>
      reads this, cells
    {
      Config(Machine(cells[..], enqueuePos, dequeuePos, [pc]), history)
    }

    ghost predicate Valid()
      reads this, cells
    {
      cells.Length > 0 && Inv(View(Idle))
    }

    /** The items put and not yet taken, oldest first. */
    ghost function Contents(): (r: seq<T>)
      requires Valid()
      reads this, cells
      ensures |r| == enqueuePos - dequeuePos <= cells.Length
    {
      Claimed(history)[dequeuePos..]
    }

    constructor (size: nat)
      requires Construct<T>(size, 1).Success?
      ensures Valid() && fresh(cells) && cells.Length == size && Contents() == []
    {
      cells := new Cell<T>[size](i => Cell(0, None));
      enqueuePos, dequeuePos, history := 0, 0, History([], []);
      new;
      for i := 0 to size
        invariant enqueuePos == 0 && dequeuePos == 0 && history == History([], [])
        invariant forall j :: 0 <= j < i ==> cells[j] == Cell(j, None)
      {
        cells[i] := Cell(i, None);
      }
      ConstructedInv(size, 1, Construct<T>(size, 1).value);
      assert View(Idle) == Start(Construct<T>(size, 1).value);
    }

    /** Construction as a caller sees it: other sizes are refused. */
    static method Create(size: nat) returns (r: Result<Queue<T>, string>)
      ensures r.Success? <==> size >= 2 && Bits.IsPow2(size)
      ensures r.Failure? ==> r.error == "async logger queue size must be power of two"
      ensures r.Success? ==> fresh(r.value) && fresh(r.value.cells) && r.value.Valid()
      ensures r.Success? ==> r.value.cells.Length == size && r.value.Contents() == []
    {
      if size >= 2 { Bits.PowerOfTwoTest(size); }
      if !(size >= 2 && Bits.And(size, size - 1) == 0) { return Failure("async logger queue size must be power of two"); }
      var q := new Queue<T>(size);
      return Success(q);
    }

    /** spurious bounds how often the weak compare-exchange fails for no reason. */
    method Enqueue(data: T, spurious: nat) returns (ok: bool)
      requires Valid()
      modifies this, cells
      ensures Valid()
      ensures ok <==> |old(Contents())| < cells.Length
      ensures Contents() == if ok then old(Contents()) + [data] else old(Contents())
      ensures var was := old(View(Idle));
              if ok then View(EnqTrue(old(enqueuePos))) == Exec(was, EnqueueSchedule(data, spurious))
              else View(EnqFalse(data)) == Exec(was, [CallEnqueue(0, data), Tick(0, false)] + [Tick(0, false)])
    {
      var size, failures := cells.Length, spurious;
      ghost var items := Contents();
      SoloEnqueue(View(Idle), data, spurious);
      var pos := enqueuePos;
      while true
        invariant pos == enqueuePos
        decreases failures
      {
        var dif := cells[pos % size].sequence - pos;
        if dif == 0 {
          if failures == 0 {
            enqueuePos := pos + 1;
            break;
          }
          failures := failures - 1;
          pos := enqueuePos;
        } else if dif < 0 {
          return false;
        } else {
          pos := enqueuePos;
        }
      }
      cells[pos % size] := cells[pos % size].(data := Some(data));
      cells[pos % size] := cells[pos % size].(sequence := pos + 1);
      history := history.(claims := history.claims + [Claim(0, data)]);
      assert View(Idle) == AfterEnqueue(old(View(Idle)), data);
      assert Contents() == items + [data];
      return true;
    }

    method Dequeue(spurious: nat) returns (data: Option<T>)
      requires Valid()
      modifies this, cells
      ensures Valid()
      ensures data.Some? <==> old(Contents()) != []
      ensures if data.Some? then old(Contents()) == [data.value] + Contents() else Contents() == old(Contents())
      ensures var was := old(View(Idle));
              if data.Some? then View(DeqTrue(old(dequeuePos), data)) == Exec(was, DequeueSchedule(spurious))
              else View(DeqFalse) == Exec(was, [CallDequeue(0), Tick(0, false)] + [Tick(0, false)])
    {
      var size, failures := cells.Length, spurious;
      ghost var items := Contents();
      SoloDequeue(View(Idle), spurious);
      var pos := dequeuePos;
      while true
        invariant pos == dequeuePos
        decreases failures
      {
        var dif := cells[pos % size].sequence - (pos + 1);
        if dif == 0 {
          if failures == 0 {
            dequeuePos := pos + 1;
            break;
          }
          failures := failures - 1;
          pos := dequeuePos;
        } else if dif < 0 {
          return None;
        } else {
          pos := dequeuePos;
        }
      }
      data := cells[pos % size].data;
      cells[pos % size] := cells[pos % size].(data := None);
      cells[pos % size] := cells[pos % size].(sequence := pos + size);
      history := history.(takes := history.takes + [Take(0, data)]);
      assert View(Idle) == AfterDequeue(old(View(Idle)));
      assert items == [items[0]] + Contents();
    }
  }

  // ----- the model's steps of one uncontended call

  ghost function AfterEnqueue<T>(c: Config<T>, v: T): Config<T>
    requires |c.m.cells| > 0
  {
    var pos := c.m.enqPos;
    Config(Machine(c.m.cells[pos % |c.m.cells| := Cell(pos + 1, Some(v))], pos + 1, c.m.deqPos, [Idle]),
           c.h.(claims := c.h.claims + [Claim(0, v)]))
  }

  ghost function AfterDequeue<T>(c: Config<T>): Config<T>
    requires |c.m.cells| > 0
  {
    var pos := c.m.deqPos;
    var i := pos % |c.m.cells|;
    Config(Machine(c.m.cells[i := Cell(pos + |c.m.cells|, None)], c.m.enqPos, pos + 1, [Idle]),
           c.h.(takes := c.h.takes + [Take(0, c.m.cells[i].data)]))
  }

  // ----- the calls as runs of the interleaving model

  /** The only thread put at a program point. */
  function WithPc<T>(c: Config<T>, pc: Pc<T>): Config<T> {
    Config(c.m.(threads := [pc]), c.h)
  }

  /** Sequence loads followed by compare-exchanges that fail for no reason. */
  function Retries<T>(failures: nat): seq<Action<T>> {
    if failures == 0 then [] else [Tick(0, false), Tick(0, true)] + Retries(failures - 1)
  }

  function FourTicks<T>(): seq<Action<T>> {
    [Tick(0, false), Tick(0, false), Tick(0, false), Tick(0, false)]
  }

  /** Load the position, retry, then load, compare-exchange, access the data, store the sequence. */
  function EnqueueSchedule<T>(v: T, failures: nat): seq<Action<T>> {
    [CallEnqueue(0, v), Tick(0, false)] + (Retries(failures) + FourTicks())
  }

  function DequeueSchedule<T>(failures: nat): seq<Action<T>> {
    [CallDequeue(0), Tick(0, false)] + (Retries(failures) + FourTicks())
  }

  lemma ExecFour<T>(c: Config<T>)
    requires |c.m.cells| > 0
    ensures var a := Tick(0, false);
            Exec(c, FourTicks()) == Next(Next(Next(Next(c, a), a), a), a)
  {
    var a: Action<T> := Tick(0, false);
    assert FourTicks() == [a, a] + [a, a];
    hide Next;
    ExecConcat(c, [a, a], [a, a]);
    ExecTwo(c, a, a);
    ExecTwo(Next(Next(c, a), a), a, a);
  }

  /** Spurious failures lead back to where the retry loop was. */
  lemma {:induction false} EnqueueRetries<T>(c: Config<T>, v: T, failures: nat)
    requires Inv(c) && |c.m.threads| == 1
    requires var pos := c.m.enqPos; c.m.threads == [EnqLoadSeq(v, pos)] && At(c.m, pos % |c.m.cells|).sequence == pos
    ensures Exec(c, Retries(failures)) == c
  {
    if failures > 0 {
      var a, b: Action<T> := Tick(0, false), Tick(0, true);
      ExecConcat(c, [a, b], Retries(failures - 1));
      ExecTwo(c, a, b);
      assert Next(c, a) == WithPc(c, EnqCas(v, c.m.enqPos));
      assert Next(Next(c, a), b) == c;
      EnqueueRetries(c, v, failures - 1);
    }
  }

  lemma {:induction false} DequeueRetries<T>(c: Config<T>, failures: nat)
    requires Inv(c) && |c.m.threads| == 1
    requires var pos := c.m.deqPos; c.m.threads == [DeqLoadSeq(pos)] && At(c.m, pos % |c.m.cells|).sequence == pos + 1
    ensures Exec(c, Retries(failures)) == c
  {
    if failures > 0 {
      var a, b: Action<T> := Tick(0, false), Tick(0, true);
      ExecConcat(c, [a, b], Retries(failures - 1));
      ExecTwo(c, a, b);
      assert Next(c, a) == WithPc(c, DeqCas(c.m.deqPos));
      assert Next(Next(c, a), b) == c;
      DequeueRetries(c, failures - 1);
    }
  }

  /** The only thread may move between the points at which it holds no cell. */
  lemma MoveThread<T>(c: Config<T>, pc: Pc<T>)
    requires Inv(c) && |c.m.threads| == 1 && !c.m.threads[0].InCell()
    requires pc == Idle || (pc.EnqLoadSeq? && pc.pos == c.m.enqPos) || (pc.DeqLoadSeq? && pc.pos == c.m.deqPos)
    ensures Inv(Config(c.m.(threads := [pc]), c.h))
  {
    LocalStep(c, 0, pc);
    assert Goto(c.m, 0, pc) == c.m.(threads := [pc]);
  }

  /** Load, compare-exchange, write, publish: the steps of an enqueue that nobody interrupts. */
  lemma SoloEnqueue<T>(c: Config<T>, v: T, failures: nat)
    requires Inv(c) && c.m.threads == [Idle]
    ensures var pos := c.m.enqPos;
            var s := c.m.cells[pos % |c.m.cells|].sequence;
            && s <= pos && (s == pos <==> pos < c.m.deqPos + |c.m.cells|)
            && (s == pos ==> Inv(AfterEnqueue(c, v))
                             && Exec(c, EnqueueSchedule(v, failures)) == WithPc(AfterEnqueue(c, v), EnqTrue(pos)))
            && (s != pos ==> Exec(c, [CallEnqueue(0, v), Tick(0, false)] + [Tick(0, false)]) == WithPc(c, EnqFalse(v)))
  {
    hide Exec, AfterEnqueue, WithPc;
    var pos := c.m.enqPos;
    TailSequence(c, pos);
    Quiescent(c);
    if c.m.cells[pos % |c.m.cells|].sequence == pos {
      SoloEnqueueSteps(c, v, pos, failures);
    } else {
      EnqueueRefused(c, v);
    }
  }

  lemma ExecOne<T>(c: Config<T>, a: Action<T>)
    requires |c.m.cells| > 0
    ensures Exec(c, [a]) == Next(c, a)
  {
    assert [a][1..] == [];
  }

  lemma EnqueueRefused<T>(c: Config<T>, v: T)
    requires |c.m.cells| > 0 && c.m.threads == [Idle]
    requires At(c.m, c.m.enqPos % |c.m.cells|).sequence < c.m.enqPos
    ensures Exec(c, [CallEnqueue(0, v), Tick(0, false)] + [Tick(0, false)]) == WithPc(c, EnqFalse(v))
  {
    hide Exec;
    var d, a: Action<T> := WithPc(c, EnqLoadSeq(v, c.m.enqPos)), Tick(0, false);
    EnqueueBegins(c, v);
    ExecConcat(c, [CallEnqueue(0, v), a], [a]);
    ExecOne(d, a);
  }

  lemma DequeueRefused<T>(c: Config<T>)
    requires |c.m.cells| > 0 && c.m.threads == [Idle]
    requires At(c.m, c.m.deqPos % |c.m.cells|).sequence < c.m.deqPos + 1
    ensures Exec(c, [CallDequeue(0), Tick(0, false)] + [Tick(0, false)]) == WithPc(c, DeqFalse)
  {
    hide Exec;
    var d, a: Action<T> := WithPc(c, DeqLoadSeq(c.m.deqPos)), Tick(0, false);
    DequeueBegins(c);
    ExecConcat(c, [CallDequeue(0), a], [a]);
    ExecOne(d, a);
  }

  lemma EnqueueBegins<T>(c: Config<T>, v: T)
    requires |c.m.cells| > 0 && c.m.threads == [Idle]
    ensures Exec(c, [CallEnqueue(0, v), Tick(0, false)]) == WithPc(c, EnqLoadSeq(v, c.m.enqPos))
  {
    hide Exec, Inv;
    ExecTwo(c, CallEnqueue(0, v), Tick(0, false));
    var d := WithPc(c, EnqLoadPos(v));
    assert Next(c, CallEnqueue(0, v)) == d;
    assert Next(d, Tick(0, false)) == WithPc(c, EnqLoadSeq(v, c.m.enqPos));
  }

  lemma SoloEnqueueSteps<T>(c: Config<T>, v: T, pos: nat, failures: nat)
    requires Inv(c) && c.m.threads == [Idle] && pos == c.m.enqPos
    requires c.m.cells[pos % |c.m.cells|].sequence == pos
    ensures Inv(AfterEnqueue(c, v))
    ensures Exec(c, EnqueueSchedule(v, failures)) == WithPc(AfterEnqueue(c, v), EnqTrue(pos))
  {
    var d := WithPc(c, EnqLoadSeq(v, pos));
    MoveThread(c, EnqLoadSeq(v, pos));
    EnqueueFourSteps(c, d, v, pos);
    hide Next, Inv, AfterEnqueue, WithPc;
    EnqueueBegins(c, v);
    EnqueueRetries(d, v, failures);
    ExecConcat(c, [CallEnqueue(0, v), Tick(0, false)], Retries(failures) + FourTicks());
    ExecConcat(d, Retries(failures), FourTicks());
    ExecFour(d);
  }

  lemma EnqueueFourSteps<T>(c: Config<T>, d: Config<T>, v: T, pos: nat)
    requires Inv(d) && d == WithPc(c, EnqLoadSeq(v, pos)) && pos == c.m.enqPos && c.m.threads == [Idle]
    requires c.m.cells[pos % |c.m.cells|].sequence == pos
    ensures var a := Tick(0, false);
            Next(Next(Next(Next(d, a), a), a), a) == WithPc(AfterEnqueue(c, v), EnqTrue(pos))
    ensures Inv(AfterEnqueue(c, v))
  {
    var c1 := SoloStep(d, EnqCas(v, pos));
    var c2 := SoloStep(c1, EnqWrite(v, pos));
    assert c2.m.cells == c.m.cells;
    var c3 := SoloStep(c2, EnqPublish(pos));
    var c4 := SoloStep(c3, EnqTrue(pos));
    assert c4.m.cells == c.m.cells[pos % |c.m.cells| := Cell(pos + 1, Some(v))];
    MoveThread(c4, Idle);
  }

  /** Load, compare-exchange, read, release: the steps of a dequeue that nobody interrupts. */
  lemma SoloDequeue<T>(c: Config<T>, failures: nat)
    requires Inv(c) && c.m.threads == [Idle]
    ensures var pos := c.m.deqPos;
            var cell := c.m.cells[pos % |c.m.cells|];
            && cell.sequence <= pos + 1 && (cell.sequence == pos + 1 <==> pos < c.m.enqPos)
            && (cell.sequence == pos + 1 ==>
                  && Inv(AfterDequeue(c)) && cell.data == Some(Claimed(c.h)[pos])
                  && Exec(c, DequeueSchedule(failures)) == WithPc(AfterDequeue(c), DeqTrue(pos, cell.data)))
            && (cell.sequence != pos + 1 ==> Exec(c, [CallDequeue(0), Tick(0, false)] + [Tick(0, false)]) == WithPc(c, DeqFalse))
  {
    hide Exec, AfterDequeue, WithPc;
    var pos := c.m.deqPos;
    HeadSequence(c, pos);
    Quiescent(c);
    if c.m.cells[pos % |c.m.cells|].sequence == pos + 1 {
      SoloDequeueSteps(c, pos, failures);
    } else {
      DequeueRefused(c);
    }
  }

  lemma DequeueBegins<T>(c: Config<T>)
    requires |c.m.cells| > 0 && c.m.threads == [Idle]
    ensures Exec(c, [CallDequeue(0), Tick(0, false)]) == WithPc(c, DeqLoadSeq(c.m.deqPos))
  {
    hide Exec, Inv;
    ExecTwo(c, CallDequeue(0), Tick(0, false));
    var d := WithPc(c, DeqLoadPos);
    assert Next(c, CallDequeue(0)) == d;
    assert Next(d, Tick(0, false)) == WithPc(c, DeqLoadSeq(c.m.deqPos));
  }

  lemma SoloDequeueSteps<T>(c: Config<T>, pos: nat, failures: nat)
    requires Inv(c) && c.m.threads == [Idle] && pos == c.m.deqPos
    requires c.m.cells[pos % |c.m.cells|].sequence == pos + 1
    ensures Inv(AfterDequeue(c))
    ensures Exec(c, DequeueSchedule(failures)) == WithPc(AfterDequeue(c), DeqTrue(pos, c.m.cells[pos % |c.m.cells|].data))
  {
    var d := WithPc(c, DeqLoadSeq(pos));
    MoveThread(c, DeqLoadSeq(pos));
    DequeueFourSteps(c, d, pos);
    hide Next, Inv, AfterDequeue, WithPc;
    DequeueBegins(c);
    DequeueRetries(d, failures);
    ExecConcat(c, [CallDequeue(0), Tick(0, false)], Retries(failures) + FourTicks());
    ExecConcat(d, Retries(failures), FourTicks());
    ExecFour(d);
  }

  lemma DequeueFourSteps<T>(c: Config<T>, d: Config<T>, pos: nat)
    requires Inv(d) && d == WithPc(c, DeqLoadSeq(pos)) && pos == c.m.deqPos && c.m.threads == [Idle]
    requires c.m.cells[pos % |c.m.cells|].sequence == pos + 1
    ensures var a := Tick(0, false);
            Next(Next(Next(Next(d, a), a), a), a) == WithPc(AfterDequeue(c), DeqTrue(pos, c.m.cells[pos % |c.m.cells|].data))
    ensures Inv(AfterDequeue(c))
  {
    var i := pos % |c.m.cells|;
    var got := c.m.cells[i].data;
    var c1 := SoloStep(d, DeqCas(pos));
    var c2 := SoloStep(c1, DeqRead(pos));
    assert c2.m.cells == c.m.cells && c2.h.takes == c.h.takes + [Take(0, None)];
    var c3 := SoloStep(c2, DeqRelease(pos, got));
    assert c3.h.takes == c.h.takes + [Take(0, got)];
    var c4 := SoloStep(c3, DeqTrue(pos, got));
    assert c4.m.cells == c.m.cells[i := Cell(pos + |c.m.cells|, None)];
    MoveThread(c4, Idle);
  }

  lemma SoloStep<T>(c: Config<T>, pc: Pc<T>) returns (d: Config<T>)
    requires Inv(c) && |c.m.threads| == 1
    requires Next(c, Tick(0, false)).m.threads[0] == pc
    ensures d == Next(c, Tick(0, false)) && Inv(d) && d.m.threads == [pc]
  {
    StepKeepsInv(c, Tick(0, false));
    d := Next(c, Tick(0, false));
  }
}
