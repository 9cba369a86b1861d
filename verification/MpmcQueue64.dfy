/**
 The queue on 64-bit words: wrapping positions, `& buffer_mask_` and the signed difference
 simulate the unbounded queue step for step, as long as no loaded position is too stale.
 */
module MpmcQueue64 {
  import opened Wrappers
  import Bits
  import opened MpmcQueue

  function WordPc<T>(pc: Pc<T>): Pc<T> {
    match pc
    case EnqLoadSeq(v, pos) => EnqLoadSeq(v, pos % WORD)
    case EnqCas(v, pos) => EnqCas(v, pos % WORD)
    case EnqWrite(v, pos) => EnqWrite(v, pos % WORD)
    case EnqPublish(pos) => EnqPublish(pos % WORD)
    case EnqTrue(pos) => EnqTrue(pos % WORD)
    case DeqLoadSeq(pos) => DeqLoadSeq(pos % WORD)
    case DeqCas(pos) => DeqCas(pos % WORD)
    case DeqRead(pos) => DeqRead(pos % WORD)
    case DeqRelease(pos, got) => DeqRelease(pos % WORD, got)
    case DeqTrue(pos, got) => DeqTrue(pos % WORD, got)
    case _ => pc
  }

  function WordCell<T>(c: Cell<T>): Cell<T> {
    c.(sequence := c.sequence % WORD)
  }

  /** The 64-bit image of an unbounded machine: every position and sequence number truncated. */
  function Truncate<T>(m: Machine<T>): Machine<T> {
    Machine(seq(|m.cells|, i requires 0 <= i < |m.cells| => WordCell(m.cells[i])),
            m.enqPos % WORD, m.deqPos % WORD,
            seq(|m.threads|, t requires 0 <= t < |m.threads| => WordPc(m.threads[t])))
  }

  ghost predicate WordCapacity(cap: nat) {
    exists k: nat :: k <= 63 && cap == Bits.Pow2(k)
  }

  // ----- word arithmetic

  lemma ModAdd(x: nat, y: nat)
    ensures (x % WORD + y) % WORD == (x + y) % WORD
  {
    Bits.ModUnique(x + y, WORD, x / WORD + (x % WORD + y) / WORD, (x % WORD + y) % WORD);
  }

  lemma Pow2Of63()
    ensures Bits.Pow2(63) == HALF
  {
    assert Bits.Pow2(2) == 4;
    assert Bits.Pow2(4) == 0x10 by { Bits.Pow2Divides(2, 4); }
    assert Bits.Pow2(8) == 0x100 by { Bits.Pow2Divides(4, 8); }
    assert Bits.Pow2(16) == 0x1_0000 by { Bits.Pow2Divides(8, 16); }
    assert Bits.Pow2(32) == 0x1_0000_0000 by { Bits.Pow2Divides(16, 32); }
    assert Bits.Pow2(64) == WORD by { Bits.Pow2Divides(32, 64); }
  }

  lemma CapacityDividesHalf(cap: nat) returns (h: nat)
    requires WordCapacity(cap)
    ensures h * cap == HALF && h > 0
  {
    var k: nat :| k <= 63 && cap == Bits.Pow2(k);
    h := Bits.Pow2(63 - k);
    Bits.Pow2Divides(k, 63);
    Pow2Of63();
  }

  lemma CapacityDivides(cap: nat) returns (n: nat)
    requires WordCapacity(cap)
    ensures n * cap == WORD && 0 < cap <= HALF
  {
    var h := CapacityDividesHalf(cap);
    MultipleBound(h, cap);
    n := 2 * h;
  }

  lemma MultipleBound(h: nat, cap: nat)
    requires h > 0
    ensures h * cap >= cap
    ensures (2 * h) * cap == 2 * (h * cap)
  {
  }

  lemma ModOfMultiple(pos: nat, cap: nat, n: nat)
    requires cap > 0 && n * cap == WORD
    ensures (pos % WORD) % cap == pos % cap
  {
    var q, r := pos / WORD, pos % WORD;
    assert q * WORD == (q * n) * cap;
    assert pos == (q * n) * cap + (r / cap) * cap + r % cap;
    Bits.ModUnique(pos, cap, q * n + r / cap, r % cap);
  }

  /** Capacity divides 2^64, so masking the truncated position still gives the slot. */
  lemma SlotAgrees(pos: nat, cap: nat)
    requires WordCapacity(cap)
    ensures cap > 0 && Wrap64.Slot(pos % WORD, cap) == pos % cap < cap
  {
    var n := CapacityDivides(cap);
    var k: nat :| k <= 63 && cap == Bits.Pow2(k);
    Bits.MaskIsMod(pos % WORD, k);
    ModOfMultiple(pos, cap, n);
  }

  lemma TruncateGoto<T>(m: Machine<T>, t: nat, pc: Pc<T>)
    requires t < |m.threads|
    ensures Truncate(Goto(m, t, pc)) == Goto(Truncate(m), t, WordPc(pc))
  {
  }

  lemma TruncatePut<T>(m: Machine<T>, i: nat, c: Cell<T>)
    ensures Truncate(Put(m, i, c)) == Put(Truncate(m), i, WordCell(c))
  {
  }

  lemma TruncateAt<T>(m: Machine<T>, i: nat)
    ensures At(Truncate(m), i) == WordCell(At(m, i))
  {
  }

  /** The sequence a loader can see is close to its position. */
  lemma SequenceIsNear<T>(c: Config<T>, pos: nat)
    requires Inv(c) && pos <= c.m.enqPos
    ensures var s := At(c.m, pos % |c.m.cells|).sequence;
            && pos - |c.m.cells| <= s <= c.m.enqPos + |c.m.cells| - 1
            && (pos <= c.m.deqPos ==> pos - |c.m.cells| < s <= c.m.deqPos + |c.m.cells|)
  {
    var q := WindowAlias(pos, c.m.enqPos, |c.m.cells|);
    assert SlotInv(c, q);
  }

  // ----- when a step agrees

  /** The sign of a difference is read off its 64-bit word. */
  predicate SignSurvives(d: int) {
    d <= 0 || 0 < d % WORD < HALF
  }

  /**
   A thread's next step does on words what it does on unbounded positions: a sequence load sees a
   difference whose sign survives, a compare-exchange is not a whole number of turns behind.
   */
  ghost predicate Agrees<T>(m: Machine<T>, a: Action<T>)
    requires |m.cells| > 0
  {
    a.Tick? && a.t < |m.threads| ==>
      match m.threads[a.t]
      case EnqLoadSeq(_, pos) => SignSurvives(At(m, pos % |m.cells|).sequence - pos)
      case DeqLoadSeq(pos) => SignSurvives(At(m, pos % |m.cells|).sequence - (pos + 1))
      case EnqCas(_, pos) => a.spurious || m.enqPos == pos || (m.enqPos - pos) % WORD != 0
      case DeqCas(pos) => a.spurious || m.deqPos == pos || (m.deqPos - pos) % WORD != 0
      case _ => true
  }

  lemma SignOfWord(s: nat, p: nat)
    requires s - p >= -HALF
    ensures var d, w := s - p, Wrap64.Dif(s % WORD, p % WORD);
            SignSurvives(d) <==> ((w == 0 <==> d == 0) && (w < 0 <==> d < 0))
  {
    var d := s - p;
    var k := s / WORD - p / WORD;
    assert (s % WORD - p % WORD) == d - k * WORD;
    Bits.ModUnique(s % WORD - p % WORD, WORD, d / WORD - k, d % WORD);
    if d < 0 { Bits.ModUnique(d, WORD, -1, d + WORD); }
  }

  /** Words that are equal come from counters a whole number of turns apart. */
  lemma EqualWords(e: nat, pos: nat)
    requires pos <= e
    ensures e % WORD == pos % WORD <==> (e - pos) % WORD == 0
  {
    var k := e / WORD - pos / WORD;
    assert e - pos == k * WORD + (e % WORD - pos % WORD);
    if e % WORD >= pos % WORD {
      Bits.ModUnique(e - pos, WORD, k, e % WORD - pos % WORD);
    } else {
      Bits.ModUnique(e - pos, WORD, k - 1, e % WORD - pos % WORD + WORD);
    }
  }

  ghost predicate Simulated<T>(m: Machine<T>, a: Action<T>)
    requires |m.cells| > 0
  {
    Step(Wrap64, Truncate(m), a) == Truncate(Step(Unbounded, m, a))
  }

  /** One step of the 64-bit queue is the image of the same step of the unbounded queue exactly when it agrees. */
  lemma StepSimulates<T>(c: Config<T>, a: Action<T>)
    requires Inv(c) && WordCapacity(|c.m.cells|)
    ensures Simulated(c.m, a) <==> Agrees(c.m, a)
  {
    if a.t < |c.m.threads| {
      if a.Tick? {
        assert ThreadInv(c, a.t);
        TickSimulates(c, a.t, a.spurious);
      } else {
        TruncateGoto(c.m, a.t, if a.CallEnqueue? then EnqLoadPos(a.v) else DeqLoadPos);
      }
    }
  }

  lemma TickSimulates<T>(c: Config<T>, t: nat, spurious: bool)
    requires Inv(c) && WordCapacity(|c.m.cells|) && t < |c.m.threads| && ThreadInv(c, t)
    ensures Simulated(c.m, Tick(t, spurious)) <==> Agrees(c.m, Tick(t, spurious))
  {
    var m := c.m;
    var n := CapacityDivides(|m.cells|);
    match m.threads[t]
    case EnqLoadPos(v) => TruncateGoto(m, t, EnqLoadSeq(v, m.enqPos));
    case DeqLoadPos => TruncateGoto(m, t, DeqLoadSeq(m.deqPos));
    case EnqLoadSeq(v, pos) => EnqLoadSimulates(c, t, v, pos, spurious);
    case DeqLoadSeq(pos) => DeqLoadSimulates(c, t, pos, spurious);
    case EnqCas(v, pos) => EnqCasSimulates(m, t, v, pos, spurious);
    case DeqCas(pos) => DeqCasSimulates(m, t, pos, spurious);
    case _ => if m.threads[t].InCell() { InCellSimulates(m, t, spurious); }
  }

  lemma InCellSimulates<T>(m: Machine<T>, t: nat, spurious: bool)
    requires WordCapacity(|m.cells|) && t < |m.threads| && |m.cells| > 0 && m.threads[t].InCell()
    ensures Simulated(m, Tick(t, spurious))
  {
    var pos := m.threads[t].pos;
    SlotAgrees(pos, |m.cells|);
    TruncateAt(m, pos % |m.cells|);
    ModAdd(pos, 1);
    ModAdd(pos, |m.cells|);
    var n := TickThread(Unbounded, m, t, spurious);
    assert n == Goto(Put(m, pos % |m.cells|, At(n, pos % |m.cells|)), t, n.threads[t]);
    TruncatePut(m, pos % |m.cells|, At(n, pos % |m.cells|));
    TruncateGoto(Put(m, pos % |m.cells|, At(n, pos % |m.cells|)), t, n.threads[t]);
  }

  lemma EnqCasSimulates<T>(m: Machine<T>, t: nat, v: T, pos: nat, spurious: bool)
    requires t < |m.threads| && m.threads[t] == EnqCas(v, pos) && pos <= m.enqPos && |m.cells| > 0
    ensures Simulated(m, Tick(t, spurious)) <==> Agrees(m, Tick(t, spurious))
  {
    EqualWords(m.enqPos, pos);
    ModAdd(pos, 1);
    TruncateGoto(m, t, EnqLoadSeq(v, m.enqPos));
    TruncateGoto(m.(enqPos := pos + 1), t, EnqWrite(v, pos));
  }

  lemma DeqCasSimulates<T>(m: Machine<T>, t: nat, pos: nat, spurious: bool)
    requires t < |m.threads| && m.threads[t] == DeqCas(pos) && pos <= m.deqPos && |m.cells| > 0
    ensures Simulated(m, Tick(t, spurious)) <==> Agrees(m, Tick(t, spurious))
  {
    EqualWords(m.deqPos, pos);
    ModAdd(pos, 1);
    TruncateGoto(m, t, DeqLoadSeq(m.deqPos));
    TruncateGoto(m.(deqPos := pos + 1), t, DeqRead(pos));
  }

  /** Where a sequence load leads, by the difference it sees. */
  function AfterEnqLoad<T>(v: T, pos: nat, dif: int): Pc<T> {
    if dif == 0 then EnqCas(v, pos) else if dif < 0 then EnqFalse(v) else EnqLoadPos(v)
  }

  function AfterDeqLoad<T>(pos: nat, dif: int): Pc<T> {
    if dif == 0 then DeqCas(pos) else if dif < 0 then DeqFalse else DeqLoadPos
  }

  /** Steps that only move the thread agree when they move it to the same place. */
  lemma MovesAgree<T>(m: Machine<T>, t: nat, spurious: bool, pc: Pc<T>, wpc: Pc<T>)
    requires |m.cells| > 0 && t < |m.threads|
    requires Step(Unbounded, m, Tick(t, spurious)) == Goto(m, t, pc)
    requires Step(Wrap64, Truncate(m), Tick(t, spurious)) == Goto(Truncate(m), t, wpc)
    ensures Simulated(m, Tick(t, spurious)) <==> wpc == WordPc(pc)
  {
    TruncateGoto(m, t, pc);
    hide Step;
    assert Goto(Truncate(m), t, wpc).threads[t] == wpc && Goto(Truncate(m), t, WordPc(pc)).threads[t] == WordPc(pc);
  }

  /** The two words lead to the same place exactly when the sign survives. */
  lemma EnqLoadsAgree<T>(v: T, pos: nat, d: int, w: int)
    requires SignSurvives(d) <==> ((w == 0 <==> d == 0) && (w < 0 <==> d < 0))
    ensures AfterEnqLoad(v, pos % WORD, w) == WordPc(AfterEnqLoad(v, pos, d)) <==> SignSurvives(d)
  {
    hide SignSurvives;
  }

  lemma DeqLoadsAgree<T>(pos: nat, d: int, w: int)
    requires SignSurvives(d) <==> ((w == 0 <==> d == 0) && (w < 0 <==> d < 0))
    ensures AfterDeqLoad<T>(pos % WORD, w) == WordPc(AfterDeqLoad(pos, d)) <==> SignSurvives(d)
  {
    hide SignSurvives;
  }

  lemma EnqLoadSteps<T>(m: Machine<T>, t: nat, v: T, pos: nat, spurious: bool)
    requires WordCapacity(|m.cells|) && |m.cells| > 0 && t < |m.threads| && m.threads[t] == EnqLoadSeq(v, pos)
    ensures var s := At(m, pos % |m.cells|).sequence;
            && Step(Unbounded, m, Tick(t, spurious)) == Goto(m, t, AfterEnqLoad(v, pos, s - pos))
            && Step(Wrap64, Truncate(m), Tick(t, spurious))
               == Goto(Truncate(m), t, AfterEnqLoad(v, pos % WORD, Wrap64.Dif(s % WORD, pos % WORD)))
  {
    SlotAgrees(pos, |m.cells|);
    TruncateAt(m, pos % |m.cells|);
  }

  lemma EnqLoadSimulates<T>(c: Config<T>, t: nat, v: T, pos: nat, spurious: bool)
    requires Inv(c) && WordCapacity(|c.m.cells|) && |c.m.cells| <= HALF
    requires t < |c.m.threads| && c.m.threads[t] == EnqLoadSeq(v, pos) && pos <= c.m.enqPos
    ensures Simulated(c.m, Tick(t, spurious)) <==> Agrees(c.m, Tick(t, spurious))
  {
    var s := At(c.m, pos % |c.m.cells|).sequence;
    SequenceIsNear(c, pos);
    SignOfWord(s, pos);
    EnqLoadSteps(c.m, t, v, pos, spurious);
    hide SignSurvives, Goto, Truncate, SlotInv, Inv, Step, TickThread, AfterEnqLoad, Simulated;
    var w := Wrap64.Dif(s % WORD, pos % WORD);
    EnqLoadsAgree(v, pos, s - pos, w);
    MovesAgree(c.m, t, spurious, AfterEnqLoad(v, pos, s - pos), AfterEnqLoad(v, pos % WORD, w));
  }

  lemma DeqLoadSteps<T>(m: Machine<T>, t: nat, pos: nat, spurious: bool)
    requires WordCapacity(|m.cells|) && |m.cells| > 0 && t < |m.threads| && m.threads[t] == DeqLoadSeq(pos)
    ensures var s := At(m, pos % |m.cells|).sequence;
            && Step(Unbounded, m, Tick(t, spurious)) == Goto(m, t, AfterDeqLoad(pos, s - (pos + 1)))
            && Step(Wrap64, Truncate(m), Tick(t, spurious))
               == Goto(Truncate(m), t, AfterDeqLoad(pos % WORD, Wrap64.Dif(s % WORD, (pos + 1) % WORD)))
  {
    SlotAgrees(pos, |m.cells|);
    TruncateAt(m, pos % |m.cells|);
    ModAdd(pos, 1);
  }

  lemma DeqLoadSimulates<T>(c: Config<T>, t: nat, pos: nat, spurious: bool)
    requires Inv(c) && WordCapacity(|c.m.cells|) && |c.m.cells| <= HALF
    requires t < |c.m.threads| && c.m.threads[t] == DeqLoadSeq(pos) && pos <= c.m.deqPos
    ensures Simulated(c.m, Tick(t, spurious)) <==> Agrees(c.m, Tick(t, spurious))
  {
    var s := At(c.m, pos % |c.m.cells|).sequence;
    SequenceIsNear(c, pos);
    SignOfWord(s, pos + 1);
    DeqLoadSteps(c.m, t, pos, spurious);
    hide SignSurvives, Goto, Truncate, SlotInv, Inv, Step, TickThread, AfterDeqLoad, Simulated;
    var w := Wrap64.Dif(s % WORD, (pos + 1) % WORD);
    DeqLoadsAgree<T>(pos, s - (pos + 1), w);
    MovesAgree(c.m, t, spurious, AfterDeqLoad(pos, s - (pos + 1)), AfterDeqLoad(pos % WORD, w));
  }

  // ----- fresh positions

  ghost predicate FreshThread<T>(m: Machine<T>, t: nat)
    requires t < |m.threads|
  {
    match m.threads[t]
    case EnqLoadSeq(_, pos) => m.enqPos - pos + |m.cells| <= HALF
    case EnqCas(_, pos) => m.enqPos - pos + |m.cells| <= HALF
    case DeqLoadSeq(pos) => m.deqPos - pos + |m.cells| <= HALF
    case DeqCas(pos) => m.deqPos - pos + |m.cells| <= HALF
    case _ => true
  }

  /** No thread holds a loaded position that lags by more than 2^63 - capacity. */
  ghost predicate Fresh<T>(m: Machine<T>) {
    forall t :: 0 <= t < |m.threads| ==> FreshThread(m, t)
  }

  lemma SmallSurvives(d: int)
    requires d < HALF
    ensures SignSurvives(d)
  {
    if d > 0 { Bits.ModUnique(d, WORD, 0, d); }
  }

  /** While all loaded positions are fresh, every step agrees. */
  lemma FreshAgrees<T>(c: Config<T>, a: Action<T>)
    requires Inv(c) && WordCapacity(|c.m.cells|) && Fresh(c.m)
    ensures Agrees(c.m, a)
  {
    if a.Tick? && a.t < |c.m.threads| {
      assert ThreadInv(c, a.t) && FreshThread(c.m, a.t);
      match c.m.threads[a.t]
      case EnqLoadSeq(_, pos) =>
        SequenceIsNear(c, pos);
        SmallSurvives(At(c.m, pos % |c.m.cells|).sequence - pos);
      case DeqLoadSeq(pos) =>
        SequenceIsNear(c, pos);
        SmallSurvives(At(c.m, pos % |c.m.cells|).sequence - (pos + 1));
      case EnqCas(_, pos) => Bits.ModUnique(c.m.enqPos - pos, WORD, 0, c.m.enqPos - pos);
      case DeqCas(pos) => Bits.ModUnique(c.m.deqPos - pos, WORD, 0, c.m.deqPos - pos);
      case _ =>
    }
  }

  // ----- whole runs

  /** The latest take of a thread that has not read its cell yet. */
  function OpenTake<T>(takes: seq<Take<T>>, t: nat): Option<nat> {
    if takes == [] then None
    else
      var last := takes[|takes| - 1];
      if last.owner == t && last.got.None? then Some(|takes| - 1) else OpenTake(takes[..|takes| - 1], t)
  }

  /** The history of the 64-bit machine, kept without unbounded positions. */
  function Record64<T>(m: Machine<T>, h: History<T>, a: Action<T>): History<T> {
    if !a.Tick? || a.t >= |m.threads| then h else
    match m.threads[a.t]
    case EnqCas(v, pos) =>
      if m.enqPos == pos && !a.spurious then h.(claims := h.claims + [Claim(a.t, v)]) else h
    case DeqCas(pos) =>
      if m.deqPos == pos && !a.spurious then h.(takes := h.takes + [Take(a.t, None)]) else h
    case DeqRead(pos) =>
      var p := OpenTake(h.takes, a.t);
      if p.Some? && p.value < |h.takes| && |m.cells| > 0
      then h.(takes := h.takes[p.value := Take(a.t, At(m, Wrap64.Slot(pos, |m.cells|)).data)]) else h
    case _ => h
  }

  function Exec64<T>(c: Config<T>, schedule: seq<Action<T>>): Config<T>
    requires |c.m.cells| > 0
    decreases |schedule|
  {
    if schedule == [] then c
    else
      var n := Config(Step(Wrap64, c.m, schedule[0]), Record64(c.m, c.h, schedule[0]));
      if |n.m.cells| > 0 then Exec64(n, schedule[1..]) else n
  }

  ghost predicate AgreesThroughout<T>(c: Config<T>, schedule: seq<Action<T>>)
    requires |c.m.cells| > 0
    decreases |schedule|
  {
    schedule != [] ==> Agrees(c.m, schedule[0]) && AgreesThroughout(Next(c, schedule[0]), schedule[1..])
  }

  /** Every state the schedule passes through has only fresh positions. */
  ghost predicate FreshThroughout<T>(c: Config<T>, schedule: seq<Action<T>>)
    requires |c.m.cells| > 0
    decreases |schedule|
  {
    Fresh(c.m) && (schedule != [] ==> FreshThroughout(Next(c, schedule[0]), schedule[1..]))
  }

  lemma {:induction false} FreshRunsAgree<T>(c: Config<T>, schedule: seq<Action<T>>)
    requires Inv(c) && WordCapacity(|c.m.cells|) && FreshThroughout(c, schedule)
    ensures AgreesThroughout(c, schedule)
    decreases |schedule|
  {
    if schedule != [] {
      FreshAgrees(c, schedule[0]);
      StepKeepsInv(c, schedule[0]);
      FreshRunsAgree(Next(c, schedule[0]), schedule[1..]);
    }
  }

  lemma {:induction false} OpenTakeIs<T>(takes: seq<Take<T>>, t: nat, p: nat)
    requires p < |takes| && takes[p] == Take(t, None)
    requires forall q :: p < q < |takes| ==> !(takes[q].owner == t && takes[q].got.None?)
    ensures OpenTake(takes, t) == Some(p)
    decreases |takes|
  {
    if p < |takes| - 1 { OpenTakeIs(takes[..|takes| - 1], t, p); }
  }

  /** A thread at its read has exactly one open take, that of its position. */
  lemma ReaderHasOpenTake<T>(c: Config<T>, t: nat, pos: nat)
    requires Inv(c) && t < |c.m.threads| && c.m.threads[t] == DeqRead(pos)
    ensures pos < |c.h.takes| && OpenTake(c.h.takes, t) == Some(pos)
  {
    assert ThreadInv(c, t);
    forall q | pos < q < |c.h.takes| ensures !(c.h.takes[q].owner == t && c.h.takes[q].got.None?) {
      assert InWindow(c.m, q) && SlotInv(c, q);
    }
    OpenTakeIs(c.h.takes, t, pos);
  }

  lemma RecordAgrees<T>(c: Config<T>, a: Action<T>)
    requires Inv(c) && WordCapacity(|c.m.cells|) && Agrees(c.m, a)
    ensures Record64(Truncate(c.m), c.h, a) == Record(c.m, c.h, a)
  {
    if a.Tick? && a.t < |c.m.threads| {
      assert ThreadInv(c, a.t);
      match c.m.threads[a.t]
      case EnqCas(_, pos) => EqualWords(c.m.enqPos, pos);
      case DeqCas(pos) => EqualWords(c.m.deqPos, pos);
      case DeqRead(pos) =>
        ReaderHasOpenTake(c, a.t, pos);
        SlotAgrees(pos, |c.m.cells|);
        TruncateAt(c.m, pos % |c.m.cells|);
      case _ =>
    }
  }

  function Image<T>(c: Config<T>): Config<T> {
    Config(Truncate(c.m), c.h)
  }

  /** Whole runs: the 64-bit queue ends in the image of the unbounded queue's final state, with the same history. */
  lemma {:induction false} RunSimulates<T>(c: Config<T>, schedule: seq<Action<T>>)
    requires Inv(c) && WordCapacity(|c.m.cells|) && AgreesThroughout(c, schedule)
    ensures Exec64(Image(c), schedule) == Image(Exec(c, schedule))
    decreases |schedule|
  {
    if schedule != [] {
      StepSimulates(c, schedule[0]);
      RecordAgrees(c, schedule[0]);
      StepKeepsInv(c, schedule[0]);
      RunSimulates(Next(c, schedule[0]), schedule[1..]);
    }
  }

  lemma CapacityOf(size: nat)
    requires Bits.IsPow2(size) && size <= HALF
    ensures WordCapacity(size)
  {
    var k: nat :| size == Bits.Pow2(k);
    if k > 63 { LargePower(k); }
  }

  lemma LargePower(k: nat)
    requires k > 63
    ensures Bits.Pow2(k) > HALF
  {
    Pow2Of63();
    assert Bits.Pow2(64) == 2 * Bits.Pow2(63);
    Bits.Pow2Divides(64, k);
    MultipleBound(Bits.Pow2(k - 64), Bits.Pow2(64));
  }

  /**
   FIFO for the 64-bit queue itself: in every run from construction whose steps agree, a completed
   dequeue returns what the enqueue with the same place in claim order stored, takes are a prefix of
   claims, at most size items are outstanding, and the counters are the lengths modulo 2^64.
   */
  lemma Fifo64<T>(size: nat, threads: nat, m: Machine<T>, schedule: seq<Action<T>>)
    requires Construct<T>(size, threads) == Success(m) && size <= HALF && AgreesThroughout(Start(m), schedule)
    ensures
      var c := Exec64(Start(m), schedule);
      && |c.h.takes| <= |c.h.claims| <= |c.h.takes| + size
      && c.m.enqPos == |c.h.claims| % WORD && c.m.deqPos == |c.h.takes| % WORD
      && (forall p :: 0 <= p < |c.h.takes| && c.h.takes[p].got.Some? ==> c.h.takes[p].got.value == c.h.claims[p].v)
      && |c.m.threads| == threads
      && (forall t :: 0 <= t < threads && c.m.threads[t].DeqTrue? ==>
            exists p :: 0 <= p < |c.h.takes| && c.h.takes[p] == Take(t, Some(c.h.claims[p].v))
                        && c.m.threads[t] == DeqTrue(p % WORD, Some(c.h.claims[p].v)))
  {
    CapacityOf(size);
    ConstructedInv(size, threads, m);
    RunKeepsInv(Start(m), schedule);
    RunSimulates(Start(m), schedule);
    ConstructedIsImage(size, threads, m);
    Fifo(size, threads, m, schedule);
    var d := Exec(Start(m), schedule);
    assert Exec64(Start(m), schedule) == Image(d);
    forall t | 0 <= t < threads && Truncate(d.m).threads[t].DeqTrue?
      ensures exists p :: 0 <= p < |d.h.takes| && d.h.takes[p] == Take(t, Some(d.h.claims[p].v))
                          && Truncate(d.m).threads[t] == DeqTrue(p % WORD, Some(d.h.claims[p].v))
    {
      assert ThreadInv(d, t);
      var p := d.m.threads[t].pos;
      assert d.h.takes[p] == Take(t, Some(d.h.claims[p].v));
    }
  }

  /** A run cannot get past the freshness bound before 2^63 steps, less the capacity. */
  lemma {:induction false} ShortRunsFresh<T>(c: Config<T>, schedule: seq<Action<T>>)
    requires Inv(c) && c.m.enqPos + |schedule| + |c.m.cells| <= HALF
    ensures FreshThroughout(c, schedule)
    decreases |schedule|
  {
    forall t | 0 <= t < |c.m.threads| ensures FreshThread(c.m, t) {
      assert ThreadInv(c, t);
    }
    if schedule != [] {
      StepKeepsInv(c, schedule[0]);
      StepAdvances(c, schedule[0]);
      ShortRunsFresh(Next(c, schedule[0]), schedule[1..]);
    }
  }

  lemma StepAdvances<T>(c: Config<T>, a: Action<T>)
    requires |c.m.cells| > 0
    ensures Next(c, a).m.enqPos <= c.m.enqPos + 1
  {
  }

  /**
   So every run of fewer than 2^63 - size steps from construction is FIFO on the 64-bit queue, without
   any condition on the threads, and the counters have not wrapped.
   */
  lemma Fifo64ShortRuns<T>(size: nat, threads: nat, m: Machine<T>, schedule: seq<Action<T>>)
    requires Construct<T>(size, threads) == Success(m) && |schedule| + size <= HALF
    ensures
      var c := Exec64(Start(m), schedule);
      && |c.h.takes| <= |c.h.claims| <= |c.h.takes| + size
      && c.m.enqPos == |c.h.claims| && c.m.deqPos == |c.h.takes|
      && (forall p :: 0 <= p < |c.h.takes| && c.h.takes[p].got.Some? ==> c.h.takes[p].got.value == c.h.claims[p].v)
      && |c.m.threads| == threads
      && (forall t :: 0 <= t < threads && c.m.threads[t].DeqTrue? ==>
            exists p :: 0 <= p < |c.h.takes| && c.h.takes[p] == Take(t, Some(c.h.claims[p].v))
                        && c.m.threads[t] == DeqTrue(p, Some(c.h.claims[p].v)))
  {
    CapacityOf(size);
    ConstructedInv(size, threads, m);
    ShortRunsFresh(Start(m), schedule);
    FreshRunsAgree(Start(m), schedule);
    Fifo64(size, threads, m, schedule);
    RunSimulates(Start(m), schedule);
    ConstructedIsImage(size, threads, m);
    RunAdvances(Start(m), schedule);
    RunKeepsInv(Start(m), schedule);
    forall p: nat | p <= HALF ensures p % WORD == p { Bits.ModUnique(p, WORD, 0, p); }
  }

  lemma {:induction false} RunAdvances<T>(c: Config<T>, schedule: seq<Action<T>>)
    requires |c.m.cells| > 0
    ensures Exec(c, schedule).m.enqPos <= c.m.enqPos + |schedule|
    decreases |schedule|
  {
    if schedule != [] {
      StepAdvances(c, schedule[0]);
      RunAdvances(Next(c, schedule[0]), schedule[1..]);
    }
  }

  lemma ConstructedIsImage<T>(size: nat, threads: nat, m: Machine<T>)
    requires Construct<T>(size, threads) == Success(m) && size <= HALF
    ensures Image(Start(m)) == Start(m)
  {
    assert Truncate(m).cells == m.cells;
    assert Truncate(m).threads == m.threads;
  }

  // ----- beyond the freshness bound

  /** The last position before e shares its slot with a position that lags by one more than the bound. */
  lemma LagSlot(pos: nat, e: int, cap: nat, n: nat)
    requires cap > 0 && n * cap == HALF && e - pos == HALF
    ensures e % cap == pos % cap
  {
    assert e == pos + n * cap;
    assert pos == (pos / cap) * cap + pos % cap;
    assert e == (pos / cap + n) * cap + pos % cap;
    Bits.ModUnique(e, cap, pos / cap + n, pos % cap);
  }

  /** A difference of 2^63 reads as a negative number. */
  lemma HalfTurn(p: nat)
    ensures Wrap64.Dif((p + HALF) % WORD, p % WORD) < 0
  {
    Bits.ModUnique(HALF, WORD, 0, HALF);
    SignOfWordAt(p + HALF, p);
  }

  lemma SignOfWordAt(s: nat, p: nat)
    requires s - p >= 0
    ensures Wrap64.Dif(s % WORD, p % WORD) == Signed((s - p) % WORD)
  {
    var d := s - p;
    var k := s / WORD - p / WORD;
    assert (s % WORD - p % WORD) == d - k * WORD;
    Bits.ModUnique(s % WORD - p % WORD, WORD, d / WORD - k, d % WORD);
  }
}
