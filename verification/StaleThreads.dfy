/**
 Beyond the freshness bound: runs from construction in which a second thread drives the counters
 past a sleeping one, until the 64-bit queue answers wrongly.
 */
module StaleThreads {
  import opened Wrappers
  import Bits
  import opened MpmcQueue
  import opened MpmcQueue64

  /** A schedule s that leads from b to c, every step agreeing on words. */
  ghost predicate Leads<T>(b: Config<T>, s: seq<Action<T>>, c: Config<T>) {
    |b.m.cells| > 0 && c == Exec(b, s) && AgreesThroughout(b, s)
  }

  /** Thread 0 sleeps, having loaded a position; thread 1 does the work. */
  ghost predicate Pair<T>(c: Config<T>, cap: nat, sleeper: Pc<T>) {
    && Inv(c) && |c.m.cells| == cap && |c.m.threads| == 2 && c.m.threads[0] == sleeper
    && (sleeper.EnqLoadSeq? || sleeper.DeqLoadSeq?)
  }

  lemma {:induction false} AgreesThroughoutSnoc<T>(b: Config<T>, s: seq<Action<T>>, a: Action<T>)
    requires |b.m.cells| > 0 && AgreesThroughout(b, s) && Agrees(Exec(b, s).m, a)
    ensures AgreesThroughout(b, s + [a])
    decreases |s|
  {
    hide Agrees, Next;
    if s == [] {
      assert [] + [a] == [a] && [a][1..] == [];
    } else {
      assert (s + [a])[0] == s[0] && (s + [a])[1..] == s[1..] + [a];
      AgreesThroughoutSnoc(Next(b, s[0]), s[1..], a);
    }
  }

  /** One more step of thread 1. */
  lemma Go<T>(b: Config<T>, s: seq<Action<T>>, c: Config<T>, a: Action<T>, cap: nat, sleeper: Pc<T>)
    returns (t: seq<Action<T>>, d: Config<T>)
    requires Leads(b, s, c) && Pair(c, cap, sleeper) && a.t == 1 && Agrees(c.m, a)
    ensures d == Next(c, a) && Leads(b, t, d) && Pair(d, cap, sleeper)
  {
    t, d := s + [a], Next(c, a);
    StepKeepsInv(c, a);
    ExecConcat(b, s, [a]);
    AgreesThroughoutSnoc(b, s, a);
    assert [a][1..] == [];
    assert Exec(c, [a]) == d;
  }

  // ----- thread 1 at work

  lemma PutOne<T>(b: Config<T>, s: seq<Action<T>>, c: Config<T>, cap: nat, sleeper: Pc<T>, v: T)
    returns (t: seq<Action<T>>, d: Config<T>)
    requires Leads(b, s, c) && Pair(c, cap, sleeper) && c.m.threads[1].AtRest() && c.m.enqPos < c.m.deqPos + cap
    ensures Leads(b, t, d) && Pair(d, cap, sleeper) && d.m.threads[1].AtRest()
    ensures d.m.enqPos == c.m.enqPos + 1 && d.m.deqPos == c.m.deqPos
  {
    hide Leads, Inv, Agrees;
    var pos, tick: Action<T> := c.m.enqPos, Tick(1, false);
    t, d := Call(b, s, c, CallEnqueue(1, v), cap, sleeper);
    t, d := Calm(b, t, d, cap, sleeper);
    FreeSlot(d, cap, sleeper, v, pos);
    t, d := Go(b, t, d, tick, cap, sleeper);
    t, d := Swap(b, t, d, cap, sleeper);
    t, d := Calm(b, t, d, cap, sleeper);
    t, d := Calm(b, t, d, cap, sleeper);
  }

  lemma TakeOne<T>(b: Config<T>, s: seq<Action<T>>, c: Config<T>, cap: nat, sleeper: Pc<T>)
    returns (t: seq<Action<T>>, d: Config<T>)
    requires Leads(b, s, c) && Pair(c, cap, sleeper) && c.m.threads[1].AtRest() && c.m.deqPos < c.m.enqPos
    ensures Leads(b, t, d) && Pair(d, cap, sleeper) && d.m.threads[1].AtRest()
    ensures d.m.enqPos == c.m.enqPos && d.m.deqPos == c.m.deqPos + 1
  {
    hide Leads, Inv, Agrees;
    var pos, tick: Action<T> := c.m.deqPos, Tick(1, false);
    t, d := Call(b, s, c, CallDequeue(1), cap, sleeper);
    t, d := Calm(b, t, d, cap, sleeper);
    ReadyItem(d, cap, sleeper, pos);
    t, d := Go(b, t, d, tick, cap, sleeper);
    t, d := Swap(b, t, d, cap, sleeper);
    t, d := Calm(b, t, d, cap, sleeper);
    t, d := Calm(b, t, d, cap, sleeper);
  }

  lemma Call<T>(b: Config<T>, s: seq<Action<T>>, c: Config<T>, a: Action<T>, cap: nat, sleeper: Pc<T>)
    returns (t: seq<Action<T>>, d: Config<T>)
    requires Leads(b, s, c) && Pair(c, cap, sleeper) && c.m.threads[1].AtRest() && !a.Tick? && a.t == 1
    ensures Leads(b, t, d) && Pair(d, cap, sleeper) && d == Next(c, a)
  {
    hide Leads, Inv;
    t, d := Go(b, s, c, a, cap, sleeper);
  }

  /** A step that compares nothing. */
  lemma Calm<T>(b: Config<T>, s: seq<Action<T>>, c: Config<T>, cap: nat, sleeper: Pc<T>)
    returns (t: seq<Action<T>>, d: Config<T>)
    requires Leads(b, s, c) && Pair(c, cap, sleeper)
    requires var pc := c.m.threads[1]; pc.EnqLoadPos? || pc.DeqLoadPos? || pc.InCell()
    ensures Leads(b, t, d) && Pair(d, cap, sleeper) && d == Next(c, Tick(1, false))
  {
    hide Leads, Inv;
    t, d := Go(b, s, c, Tick(1, false), cap, sleeper);
  }

  /** A compare-exchange at the counter. */
  lemma Swap<T>(b: Config<T>, s: seq<Action<T>>, c: Config<T>, cap: nat, sleeper: Pc<T>)
    returns (t: seq<Action<T>>, d: Config<T>)
    requires Leads(b, s, c) && Pair(c, cap, sleeper)
    requires var pc := c.m.threads[1];
             (pc.EnqCas? && pc.pos == c.m.enqPos) || (pc.DeqCas? && pc.pos == c.m.deqPos)
    ensures Leads(b, t, d) && Pair(d, cap, sleeper) && d == Next(c, Tick(1, false))
  {
    hide Leads, Inv;
    t, d := Go(b, s, c, Tick(1, false), cap, sleeper);
  }

  lemma FreeSlot<T>(c: Config<T>, cap: nat, sleeper: Pc<T>, v: T, pos: nat)
    requires Pair(c, cap, sleeper) && c.m.threads[1] == EnqLoadSeq(v, pos) && pos == c.m.enqPos < c.m.deqPos + cap
    ensures Agrees(c.m, Tick(1, false)) && Next(c, Tick(1, false)).m.threads[1] == EnqCas(v, pos)
  {
    TailSequence(c, pos);
    EnqueueFalseIsHonest(c, 1, v, pos, false);
  }

  lemma ReadyItem<T>(c: Config<T>, cap: nat, sleeper: Pc<T>, pos: nat)
    requires Pair(c, cap, sleeper) && c.m.threads[1] == DeqLoadSeq(pos) && pos == c.m.deqPos < c.m.enqPos
    ensures Agrees(c.m, Tick(1, false)) && Next(c, Tick(1, false)).m.threads[1] == DeqCas(pos)
  {
    HeadSequence(c, pos);
    DequeueFalseIsHonest(c, 1, pos, false);
  }

  /** Thread 1 puts n items and takes each at once. */
  lemma {:induction false} Laps<T>(b: Config<T>, s: seq<Action<T>>, c: Config<T>, cap: nat, sleeper: Pc<T>, v: T, n: nat)
    returns (t: seq<Action<T>>, d: Config<T>)
    requires Leads(b, s, c) && Pair(c, cap, sleeper) && c.m.threads[1].AtRest() && c.m.enqPos == c.m.deqPos && cap > 0
    ensures Leads(b, t, d) && Pair(d, cap, sleeper) && d.m.threads[1].AtRest()
    ensures d.m.enqPos == d.m.deqPos == c.m.enqPos + n
    decreases n
  {
    hide Leads, Inv;
    t, d := s, c;
    if n > 0 {
      t, d := PutOne(b, s, c, cap, sleeper, v);
      t, d := TakeOne(b, t, d, cap, sleeper);
      t, d := Laps(b, t, d, cap, sleeper, v, n - 1);
    }
  }

  /** Thread 1 puts n items that fit. */
  lemma {:induction false} Puts<T>(b: Config<T>, s: seq<Action<T>>, c: Config<T>, cap: nat, sleeper: Pc<T>, v: T, n: nat)
    returns (t: seq<Action<T>>, d: Config<T>)
    requires Leads(b, s, c) && Pair(c, cap, sleeper) && c.m.threads[1].AtRest() && c.m.enqPos + n <= c.m.deqPos + cap
    ensures Leads(b, t, d) && Pair(d, cap, sleeper) && d.m.threads[1].AtRest()
    ensures d.m.enqPos == c.m.enqPos + n && d.m.deqPos == c.m.deqPos
    decreases n
  {
    hide Leads, Inv;
    t, d := s, c;
    if n > 0 {
      t, d := PutOne(b, s, c, cap, sleeper, v);
      t, d := Puts(b, t, d, cap, sleeper, v, n - 1);
    }
  }

  // ----- the wrong answers

  /** The call of thread 0 up to its position load. */
  lemma Asleep<T>(cap: nat, m: Machine<T>, call: Action<T>) returns (s: seq<Action<T>>, c: Config<T>, sleeper: Pc<T>)
    requires Construct<T>(cap, 2) == Success(m) && !call.Tick? && call.t == 0
    ensures Leads(Start(m), s, c) && Pair(c, cap, sleeper) && c.m.threads[1].AtRest() && c.m.enqPos == c.m.deqPos == 0
    ensures sleeper == if call.CallEnqueue? then EnqLoadSeq(call.v, 0) else DeqLoadSeq(0)
  {
    var b, tick: Action<T> := Start(m), Tick(0, false);
    ConstructedInv(cap, 2, m);
    s := [call, tick];
    c := Next(Next(b, call), tick);
    sleeper := c.m.threads[0];
    ExecTwo(b, call, tick);
    RunKeepsInv(b, s);
    assert s[1..] == [tick] && s[1..][1..] == [];
    assert AgreesThroughout(Next(b, call), [tick]);
  }

  /** What the last slot before the tail holds when no call is inside a cell. */
  lemma LastSlot<T>(c: Config<T>, cap: nat, sleeper: Pc<T>)
    requires Pair(c, cap, sleeper) && c.m.threads[1].AtRest() && c.m.enqPos > 0
    ensures At(c.m, (c.m.enqPos - 1) % cap).sequence
         == if c.m.deqPos == c.m.enqPos then c.m.enqPos - 1 + cap else c.m.enqPos
  {
    assert InWindow(c.m, c.m.enqPos - 1) && SlotInv(c, c.m.enqPos - 1);
  }

  lemma WordRun<T>(cap: nat, m: Machine<T>, s: seq<Action<T>>, c: Config<T>)
    requires Construct<T>(cap, 2) == Success(m) && cap <= HALF && Leads(Start(m), s, c)
    ensures Exec64(Start(m), s) == Image(c)
  {
    CapacityOf(cap);
    ConstructedInv(cap, 2, m);
    RunSimulates(Start(m), s);
    ConstructedIsImage(cap, 2, m);
  }

  /**
   The freshness bound is tight: some run from construction, in which the 64-bit queue has agreed all
   along, leads to an empty queue and a producer one position beyond the bound. The unbounded queue
   retries; the 64-bit queue reports that it is full.
   */
  lemma EmptyReportedFull<T>(cap: nat, m: Machine<T>, v: T) returns (s: seq<Action<T>>)
    requires WordCapacity(cap) && Construct<T>(cap, 2) == Success(m)
    ensures
      var c, d, step := Exec(Start(m), s), Exec64(Start(m), s), Tick(0, false);
      && c.m.enqPos == c.m.deqPos && c.m.enqPos + cap == HALF + 1
      && |c.m.threads| == 2 && c.m.threads[0] == EnqLoadSeq(v, 0)
      && d == Image(c)
      && Step(Unbounded, c.m, step).threads[0] == EnqLoadPos(v)
      && |d.m.cells| > 0 && Step(Wrap64, d.m, step).threads[0] == EnqFalse(v)
  {
    var h := CapacityDividesHalf(cap);
    MultipleBound(h, cap);
    var c: Config<T>, sleeper: Pc<T>;
    s, c, sleeper := Asleep(cap, m, CallEnqueue(0, v));
    s, c := Laps(Start(m), s, c, cap, sleeper, v, HALF + 1 - cap);
    WordRun(cap, m, s, c);
    LastSlot(c, cap, sleeper);
    LagSlot(0, c.m.enqPos - 1 + cap, cap, h);
    SlotPeriodic(c.m.enqPos - 1, cap);
    MisjudgedByProducer(c.m, cap, v);
  }

  lemma MisjudgedByProducer<T>(m: Machine<T>, cap: nat, v: T)
    requires WordCapacity(cap) && |m.cells| == cap > 0 && |m.threads| == 2 && m.threads[0] == EnqLoadSeq(v, 0)
    requires At(m, 0 % cap).sequence == HALF
    ensures Step(Unbounded, m, Tick(0, false)).threads[0] == EnqLoadPos(v)
    ensures |Truncate(m).cells| > 0 && Step(Wrap64, Truncate(m), Tick(0, false)).threads[0] == EnqFalse(v)
  {
    SlotAgrees(0, cap);
    TruncateAt(m, 0 % cap);
    HalfTurn(0);
  }

  /** And a consumer one position beyond the bound is told that a full queue is empty. */
  lemma FullReportedEmpty<T>(cap: nat, m: Machine<T>, v: T) returns (s: seq<Action<T>>)
    requires WordCapacity(cap) && Construct<T>(cap, 2) == Success(m)
    ensures
      var c, d, step := Exec(Start(m), s), Exec64(Start(m), s), Tick(0, false);
      && c.m.enqPos == c.m.deqPos + cap && c.m.deqPos + cap == HALF + 1
      && |c.m.threads| == 2 && c.m.threads[0] == DeqLoadSeq(0)
      && d == Image(c)
      && Step(Unbounded, c.m, step).threads[0] == DeqLoadPos
      && |d.m.cells| > 0 && Step(Wrap64, d.m, step).threads[0] == DeqFalse
  {
    var h := CapacityDividesHalf(cap);
    MultipleBound(h, cap);
    var c: Config<T>, sleeper: Pc<T>;
    s, c, sleeper := Asleep(cap, m, CallDequeue(0));
    s, c := Laps(Start(m), s, c, cap, sleeper, v, HALF + 1 - cap);
    s, c := Puts(Start(m), s, c, cap, sleeper, v, cap);
    WordRun(cap, m, s, c);
    LastSlot(c, cap, sleeper);
    LagSlot(0, c.m.enqPos - 1, cap, h);
    MisjudgedByConsumer(c.m, cap);
  }

  lemma MisjudgedByConsumer<T>(m: Machine<T>, cap: nat)
    requires WordCapacity(cap) && |m.cells| == cap > 0 && |m.threads| == 2 && m.threads[0] == DeqLoadSeq(0)
    requires At(m, 0 % cap).sequence == HALF + 1
    ensures Step(Unbounded, m, Tick(0, false)).threads[0] == DeqLoadPos
    ensures |Truncate(m).cells| > 0 && Step(Wrap64, Truncate(m), Tick(0, false)).threads[0] == DeqFalse
  {
    SlotAgrees(0, cap);
    TruncateAt(m, 0 % cap);
    HalfTurn(1);
  }
}
