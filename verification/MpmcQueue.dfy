/**
 The bounded multi-producer multi-consumer queue as a system of threads that interleave at
 every atomic access. One definition of the algorithm serves two word arithmetics: unbounded
 positions, and 64-bit positions that wrap (see MpmcQueue64).
 */
module MpmcQueue {
  import opened Wrappers
  import Bits

  // ----- the algorithm

  const WORD := 0x1_0000_0000_0000_0000
  const HALF := 0x8000_0000_0000_0000

  datatype Arith = Unbounded | Wrap64 {

    /** Conversion to `size_t`. */
    function Word(x: nat): nat {
      if Wrap64? then x % WORD else x
    }

    /** `pos & buffer_mask_` on the machine, the remainder on unbounded positions. */
    function Slot(pos: nat, cap: nat): nat
      requires cap > 0
    {
      if Wrap64? then Bits.And(pos, cap - 1) else pos % cap
    }

    /** `(intptr_t)seq - (intptr_t)pos` */
    function Dif(seq_: nat, pos: nat): int {
      if Wrap64? then Signed((seq_ - pos) % WORD) else seq_ - pos
    }
  }

  /** Reads a 64-bit word as a two's-complement number. */
  function Signed(w: nat): int {
    if w < HALF then w else w - WORD
  }

  /** `None` is a value that was never stored or that has been moved from. */
  datatype Cell<T> = Cell(sequence: nat, data: Option<T>)

  /** A thread's program counter and its live locals. */
  datatype Pc<T> =
    | Idle
    | EnqLoadPos(v: T)
    | EnqLoadSeq(v: T, pos: nat)
    | EnqCas(v: T, pos: nat)
    | EnqWrite(v: T, pos: nat)
    | EnqPublish(pos: nat)
    | EnqTrue(pos: nat)
    | EnqFalse(v: T)
    | DeqLoadPos
    | DeqLoadSeq(pos: nat)
    | DeqCas(pos: nat)
    | DeqRead(pos: nat)
    | DeqRelease(pos: nat, got: Option<T>)
    | DeqTrue(pos: nat, got: Option<T>)
    | DeqFalse
  {
    /** Between calls. */
    predicate AtRest() {
      Idle? || EnqTrue? || EnqFalse? || DeqTrue? || DeqFalse?
    }

    /** Between a winning compare-exchange and the sequence store that ends the call. */
    predicate InCell() {
      EnqWrite? || EnqPublish? || DeqRead? || DeqRelease?
    }
  }

  datatype Machine<T> = Machine(cells: seq<Cell<T>>, enqPos: nat, deqPos: nat, threads: seq<Pc<T>>)

  datatype Action<T> =
    | CallEnqueue(t: nat, v: T)
    | CallDequeue(t: nat)
    | Tick(t: nat, spurious: bool)

  function Goto<T>(m: Machine<T>, t: nat, pc: Pc<T>): Machine<T>
    requires t < |m.threads|
  {
    m.(threads := m.threads[t := pc])
  }

  function Put<T>(m: Machine<T>, i: nat, c: Cell<T>): Machine<T> {
    if i < |m.cells| then m.(cells := m.cells[i := c]) else m
  }

  function At<T>(m: Machine<T>, i: nat): Cell<T> {
    if i < |m.cells| then m.cells[i] else Cell(0, None)
  }

  /** One atomic access of thread t; a weak compare-exchange may also fail spuriously. */
  function TickThread<T>(ar: Arith, m: Machine<T>, t: nat, spurious: bool): Machine<T>
    requires t < |m.threads| && |m.cells| > 0
  {
    var cap := |m.cells|;
    match m.threads[t]
    case EnqLoadPos(v) => Goto(m, t, EnqLoadSeq(v, m.enqPos))
    case EnqLoadSeq(v, pos) =>
      var dif := ar.Dif(At(m, ar.Slot(pos, cap)).sequence, pos);
      Goto(m, t, if dif == 0 then EnqCas(v, pos) else if dif < 0 then EnqFalse(v) else EnqLoadPos(v))
    case EnqCas(v, pos) =>
      if m.enqPos == pos && !spurious
      then Goto(m.(enqPos := ar.Word(pos + 1)), t, EnqWrite(v, pos))
      else Goto(m, t, EnqLoadSeq(v, m.enqPos))
    case EnqWrite(v, pos) =>
      var i := ar.Slot(pos, cap);
      Goto(Put(m, i, At(m, i).(data := Some(v))), t, EnqPublish(pos))
    case EnqPublish(pos) =>
      var i := ar.Slot(pos, cap);
      Goto(Put(m, i, At(m, i).(sequence := ar.Word(pos + 1))), t, EnqTrue(pos))
    case DeqLoadPos => Goto(m, t, DeqLoadSeq(m.deqPos))
    case DeqLoadSeq(pos) =>
      var dif := ar.Dif(At(m, ar.Slot(pos, cap)).sequence, ar.Word(pos + 1));
      Goto(m, t, if dif == 0 then DeqCas(pos) else if dif < 0 then DeqFalse else DeqLoadPos)
    case DeqCas(pos) =>
      if m.deqPos == pos && !spurious
      then Goto(m.(deqPos := ar.Word(pos + 1)), t, DeqRead(pos))
      else Goto(m, t, DeqLoadSeq(m.deqPos))
    case DeqRead(pos) =>
      var i := ar.Slot(pos, cap);
      Goto(Put(m, i, At(m, i).(data := None)), t, DeqRelease(pos, At(m, i).data))
    case DeqRelease(pos, got) =>
      var i := ar.Slot(pos, cap);
      Goto(Put(m, i, At(m, i).(sequence := ar.Word(pos + cap))), t, DeqTrue(pos, got))
    case _ => m
  }

  /** Actions of unknown threads, and calls made before the previous one returned, do nothing. */
  function Step<T>(ar: Arith, m: Machine<T>, a: Action<T>): Machine<T>
    requires |m.cells| > 0
  {
    if a.t >= |m.threads| then m else
    match a
    case CallEnqueue(t, v) => if m.threads[t].AtRest() then Goto(m, t, EnqLoadPos(v)) else m
    case CallDequeue(t) => if m.threads[t].AtRest() then Goto(m, t, DeqLoadPos) else m
    case Tick(t, spurious) => TickThread(ar, m, t, spurious)
  }

  /** The constructor; it refuses sizes that are not a power of two of at least 2. */
  function Construct<T>(size: nat, threads: nat): (r: Result<Machine<T>, string>)
    ensures r.Success? <==> size >= 2 && Bits.IsPow2(size)
  {
    if size < 2 then Failure("async logger queue size must be power of two")
    else
      Bits.PowerOfTwoTest(size);
      if Bits.And(size, size - 1) != 0 then Failure("async logger queue size must be power of two")
      else Success(Machine(seq(size, (i: nat) => Cell(i, None)), 0, 0, seq(threads, _ => Idle)))
  }

  // ----- history: what the winning compare-exchanges and the reads did, in claim order

  datatype Claim<T> = Claim(owner: nat, v: T)
  datatype Take<T> = Take(owner: nat, got: Option<T>)
  datatype History<T> = History(claims: seq<Claim<T>>, takes: seq<Take<T>>)

  /** The machine never reads its history. */
  datatype Config<T> = Config(m: Machine<T>, h: History<T>)

  function Record<T>(m: Machine<T>, h: History<T>, a: Action<T>): History<T> {
    if !a.Tick? || a.t >= |m.threads| then h else
    match m.threads[a.t]
    case EnqCas(v, pos) =>
      if m.enqPos == pos && !a.spurious then h.(claims := h.claims + [Claim(a.t, v)]) else h
    case DeqCas(pos) =>
      if m.deqPos == pos && !a.spurious then h.(takes := h.takes + [Take(a.t, None)]) else h
    case DeqRead(pos) =>
      if pos < |h.takes| && |m.cells| > 0
      then h.(takes := h.takes[pos := Take(a.t, At(m, pos % |m.cells|).data)]) else h
    case _ => h
  }

  function Next<T>(c: Config<T>, a: Action<T>): (r: Config<T>)
    requires |c.m.cells| > 0
    ensures |r.m.cells| == |c.m.cells| && |r.m.threads| == |c.m.threads|
  {
    Config(Step(Unbounded, c.m, a), Record(c.m, c.h, a))
  }

  /** A run is the fold of a schedule: any finite interleaving of any threads' actions. */
  function Exec<T>(c: Config<T>, schedule: seq<Action<T>>): (r: Config<T>)
    requires |c.m.cells| > 0
    ensures |r.m.cells| == |c.m.cells| && |r.m.threads| == |c.m.threads|
    decreases |schedule|
  {
    if schedule == [] then c else Exec(Next(c, schedule[0]), schedule[1..])
  }

  lemma {:induction false} ExecConcat<T>(c: Config<T>, a: seq<Action<T>>, b: seq<Action<T>>)
    requires |c.m.cells| > 0
    ensures Exec(c, a + b) == Exec(Exec(c, a), b)
    decreases |a|
  {
    if a == [] {
      assert a + b == b;
    } else {
      assert (a + b)[0] == a[0] && (a + b)[1..] == a[1..] + b;
      ExecConcat(Next(c, a[0]), a[1..], b);
    }
  }

  lemma ExecTwo<T>(c: Config<T>, a: Action<T>, b: Action<T>)
    requires |c.m.cells| > 0
    ensures Exec(c, [a, b]) == Next(Next(c, a), b)
  {
    assert [a, b][1..] == [b] && [b][1..] == [];
    hide Next;
    assert Exec(Next(c, a), [b]) == Exec(Next(Next(c, a), b), []);
  }

  // ----- the invariant

  ghost predicate Settled<T>(h: History<T>, p: int) {
    p < 0 || (p < |h.takes| && p < |h.claims| && h.takes[p].got == Some(h.claims[p].v))
  }

  ghost predicate Released<T>(c: Config<T>, p: int)
    requires |c.m.cells| > 0
  {
    At(c.m, p % |c.m.cells|).sequence == p + |c.m.cells| && p < c.m.deqPos && Settled(c.h, p)
  }

  /** The producer that claimed p has not stored p's sequence number yet. */
  ghost predicate Filling<T>(c: Config<T>, p: int)
    requires |c.m.cells| > 0
  {
    && 0 <= p < |c.h.claims|
    && At(c.m, p % |c.m.cells|).sequence == p
    && c.m.deqPos <= p
    && var owner := c.h.claims[p].owner;
    && owner < |c.m.threads|
    && (c.m.threads[owner] == EnqWrite(c.h.claims[p].v, p) || c.m.threads[owner] == EnqPublish(p))
  }

  ghost predicate Available<T>(c: Config<T>, p: int)
    requires |c.m.cells| > 0
  {
    && 0 <= p < |c.h.claims|
    && At(c.m, p % |c.m.cells|) == Cell(p + 1, Some(c.h.claims[p].v))
    && c.m.deqPos <= p
  }

  /** The consumer that claimed p has not released p's cell yet. */
  ghost predicate Draining<T>(c: Config<T>, p: int)
    requires |c.m.cells| > 0
  {
    && 0 <= p < |c.h.claims| && p < |c.h.takes|
    && At(c.m, p % |c.m.cells|).sequence == p + 1
    && p < c.m.deqPos
    && var owner := c.h.takes[p].owner;
    && owner < |c.m.threads|
    && (c.m.threads[owner] == DeqRead(p) || c.m.threads[owner] == DeqRelease(p, Some(c.h.claims[p].v)))
  }

  ghost predicate SlotInv<T>(c: Config<T>, p: int)
    requires |c.m.cells| > 0
  {
    Released(c, p) || Filling(c, p) || Available(c, p) || Draining(c, p)
  }

  ghost predicate InWindow<T>(m: Machine<T>, p: int) {
    m.enqPos - |m.cells| <= p < m.enqPos
  }

  ghost predicate ThreadInv<T>(c: Config<T>, t: nat)
    requires |c.m.cells| > 0 && t < |c.m.threads|
  {
    var m, h := c.m, c.h;
    match m.threads[t]
    case EnqLoadSeq(_, pos) => pos <= m.enqPos
    case EnqCas(_, pos) =>
      pos <= m.enqPos && (pos == m.enqPos ==> At(m, pos % |m.cells|).sequence == pos)
    case EnqWrite(v, pos) =>
      InWindow(m, pos) && pos < |h.claims| && h.claims[pos] == Claim(t, v) && Filling(c, pos)
    case EnqPublish(pos) =>
      && InWindow(m, pos) && pos < |h.claims| && h.claims[pos].owner == t && Filling(c, pos)
      && At(m, pos % |m.cells|).data == Some(h.claims[pos].v)
    case EnqTrue(pos) => pos < |h.claims| && h.claims[pos].owner == t
    case DeqLoadSeq(pos) => pos <= m.deqPos
    case DeqCas(pos) =>
      && pos <= m.deqPos
      && (pos == m.deqPos ==> pos < m.enqPos && At(m, pos % |m.cells|).sequence == pos + 1)
    case DeqRead(pos) =>
      && InWindow(m, pos) && pos < |h.takes| && h.takes[pos] == Take(t, None) && Draining(c, pos)
      && At(m, pos % |m.cells|).data == Some(h.claims[pos].v)
    case DeqRelease(pos, got) =>
      && InWindow(m, pos) && pos < |h.takes| && h.takes[pos] == Take(t, got) && Draining(c, pos)
      && got == Some(h.claims[pos].v)
    case DeqTrue(pos, got) =>
      pos < |h.takes| && pos < |h.claims| && h.takes[pos] == Take(t, got) && got == Some(h.claims[pos].v)
    case _ => true
  }

  ghost predicate Counts<T>(c: Config<T>) {
    && |c.m.cells| >= 2
    && |c.h.claims| == c.m.enqPos && |c.h.takes| == c.m.deqPos
    && c.m.deqPos <= c.m.enqPos <= c.m.deqPos + |c.m.cells|
  }

  ghost predicate Inv<T>(c: Config<T>) {
    && Counts(c)
    && (forall p :: InWindow(c.m, p) ==> SlotInv(c, p))
    && (forall p :: 0 <= p < c.m.enqPos - |c.m.cells| ==> Settled(c.h, p))
    && (forall t :: 0 <= t < |c.m.threads| ==> ThreadInv(c, t))
  }

  // ----- arithmetic of slots

  lemma SlotDistinct(p: int, q: int, cap: int)
    requires p != q && -cap < p - q < cap
    ensures p % cap != q % cap
  {
    var d := p / cap - q / cap;
    assert p - q == cap * d + (p % cap - q % cap);
    assert d >= 1 ==> cap * d >= cap;
    assert d <= -1 ==> cap * d <= -cap;
  }

  lemma SlotPeriodic(p: int, cap: nat)
    requires cap > 0
    ensures (p + cap) % cap == p % cap
  {
    Bits.ModUnique(p + cap, cap, p / cap + 1, p % cap);
  }

  /** Every position shares its slot with exactly one position of the window that ends at e. */
  lemma WindowAlias(p: nat, e: nat, cap: nat) returns (q: int)
    requires cap > 0 && p <= e
    ensures e - cap <= q < e && q % cap == p % cap
    ensures if p == e then q == p - cap else q >= p
  {
    var r, k := (e - 1 - p) % cap, (e - 1 - p) / cap;
    q := e - 1 - r;
    assert e - 1 - p == k * cap + r;
    assert q == p + k * cap;
    assert p == (p / cap) * cap + p % cap;
    assert q == (p / cap + k) * cap + p % cap;
    Bits.ModUnique(q, cap, p / cap + k, p % cap);
    if p == e {
      Bits.ModUnique(-1, cap, -1, cap - 1);
    } else {
      assert k >= 0;
      assert k * cap >= 0;
    }
  }

  // ----- every action keeps the invariant

  /** A step that leaves the cells, the positions and the history alone. */
  lemma LocalStep<T>(c: Config<T>, t: nat, pc: Pc<T>)
    requires Inv(c) && t < |c.m.threads| && !c.m.threads[t].InCell()
    requires ThreadInv(Config(Goto(c.m, t, pc), c.h), t)
    ensures Inv(Config(Goto(c.m, t, pc), c.h))
  {
    var d := Config(Goto(c.m, t, pc), c.h);
    forall p | InWindow(d.m, p) ensures SlotInv(d, p) { assert SlotInv(c, p); }
    forall u | 0 <= u < |d.m.threads| ensures ThreadInv(d, u) { assert ThreadInv(c, u); }
  }

  lemma ClaimEnqueueSlot<T>(c: Config<T>, t: nat, v: T, p: int)
    requires Counts(c) && t < |c.m.threads| && c.m.threads[t] == EnqCas(v, c.m.enqPos)
    requires InWindow(c.m, p) && SlotInv(c, p)
    ensures SlotInv(Next(c, Tick(t, false)), p)
  {
  }

  lemma ClaimEnqueueThread<T>(c: Config<T>, t: nat, v: T, u: nat)
    requires Counts(c) && t < |c.m.threads| && c.m.threads[t] == EnqCas(v, c.m.enqPos)
    requires Released(c, c.m.enqPos - |c.m.cells|)
    requires u < |c.m.threads| && u != t && ThreadInv(c, u)
    ensures ThreadInv(Next(c, Tick(t, false)), u)
  {
  }

  lemma ClaimEnqueue<T>(c: Config<T>, t: nat, v: T)
    requires Inv(c) && t < |c.m.threads| && c.m.threads[t] == EnqCas(v, c.m.enqPos)
    ensures Inv(Next(c, Tick(t, false)))
  {
    var cap, pos := |c.m.cells|, c.m.enqPos;
    var d := Next(c, Tick(t, false));
    assert ThreadInv(c, t);
    SlotPeriodic(pos - cap, cap);
    assert SlotInv(c, pos - cap) && Released(c, pos - cap);
    assert Filling(d, pos);
    forall p | InWindow(d.m, p) ensures SlotInv(d, p) {
      if p != pos {
        assert SlotInv(c, p);
        ClaimEnqueueSlot(c, t, v, p);
      }
    }
    forall p | 0 <= p < d.m.enqPos - cap ensures Settled(d.h, p) {
      if p != pos - cap { assert Settled(c.h, p); }
    }
    forall u | 0 <= u < |d.m.threads| ensures ThreadInv(d, u) {
      if u != t {
        assert ThreadInv(c, u);
        ClaimEnqueueThread(c, t, v, u);
      }
    }
  }

  /** The cell of p is not the cell of any other position of the window, nor of the next tail. */
  lemma OwnCell(p: int, e: int, cap: int)
    requires cap > 0 && e - cap <= p < e
    ensures forall q :: e - cap <= q < e && q % cap == p % cap ==> q == p
    ensures e % cap == p % cap ==> p == e - cap
  {
    forall q | e - cap <= q < e && q != p ensures q % cap != p % cap { SlotDistinct(q, p, cap); }
    if p != e - cap { SlotDistinct(p, e, cap); }
  }

  /** d is c after a step of thread t confined to the cell and the history entry of its position pos. */
  ghost predicate HolderStep<T>(c: Config<T>, d: Config<T>, t: nat, pos: nat) {
    && Counts(c) && Counts(d) && InWindow(c.m, pos)
    && t < |c.m.threads| == |d.m.threads| && c.m.threads[t].InCell() && c.m.threads[t].pos == pos
    && d.m.enqPos == c.m.enqPos && d.m.deqPos == c.m.deqPos && |d.m.cells| == |c.m.cells|
    && d.h.claims == c.h.claims
    && (forall p :: 0 <= p < |c.h.takes| && p != pos ==> d.h.takes[p] == c.h.takes[p])
    && (forall i :: 0 <= i < |c.m.cells| && i != pos % |c.m.cells| ==> d.m.cells[i] == c.m.cells[i])
    && (forall u :: 0 <= u < |c.m.threads| && u != t ==> d.m.threads[u] == c.m.threads[u])
  }

  lemma HolderKeepsSlot<T>(c: Config<T>, d: Config<T>, t: nat, pos: nat, p: int)
    requires HolderStep(c, d, t, pos) && ThreadInv(c, t)
    requires InWindow(c.m, p) && p != pos && SlotInv(c, p)
    ensures SlotInv(d, p)
  {
    SlotDistinct(p, pos, |c.m.cells|);
  }

  lemma HolderKeepsThread<T>(c: Config<T>, d: Config<T>, t: nat, pos: nat, u: nat)
    requires HolderStep(c, d, t, pos) && ThreadInv(c, t)
    requires u < |c.m.threads| && u != t && ThreadInv(c, u)
    ensures ThreadInv(d, u)
  {
    OwnCell(pos, c.m.enqPos, |c.m.cells|);
    if c.m.threads[u].InCell() {
      var q := c.m.threads[u].pos;
      assert q != pos;
      SlotDistinct(q, pos, |c.m.cells|);
    }
  }

  lemma HolderKeepsInv<T>(c: Config<T>, d: Config<T>, t: nat, pos: nat)
    requires Inv(c) && HolderStep(c, d, t, pos) && SlotInv(d, pos) && ThreadInv(d, t)
    ensures Inv(d)
  {
    assert ThreadInv(c, t);
    forall p | InWindow(d.m, p) ensures SlotInv(d, p) {
      if p != pos {
        assert SlotInv(c, p);
        HolderKeepsSlot(c, d, t, pos, p);
      }
    }
    forall p | 0 <= p < d.m.enqPos - |d.m.cells| ensures Settled(d.h, p) { assert Settled(c.h, p); }
    forall u | 0 <= u < |d.m.threads| ensures ThreadInv(d, u) {
      if u != t {
        assert ThreadInv(c, u);
        HolderKeepsThread(c, d, t, pos, u);
      }
    }
  }

  lemma WriteData<T>(c: Config<T>, t: nat, spurious: bool)
    requires Inv(c) && t < |c.m.threads| && c.m.threads[t].EnqWrite?
    ensures Inv(Next(c, Tick(t, spurious)))
  {
    assert ThreadInv(c, t);
    var pos := c.m.threads[t].pos;
    var d := Next(c, Tick(t, spurious));
    assert Filling(d, pos);
    HolderKeepsInv(c, d, t, pos);
  }

  lemma PublishData<T>(c: Config<T>, t: nat, spurious: bool)
    requires Inv(c) && t < |c.m.threads| && c.m.threads[t].EnqPublish?
    ensures Inv(Next(c, Tick(t, spurious)))
  {
    assert ThreadInv(c, t);
    var pos := c.m.threads[t].pos;
    var d := Next(c, Tick(t, spurious));
    assert Available(d, pos);
    HolderKeepsInv(c, d, t, pos);
  }

  lemma ClaimDequeueSlot<T>(c: Config<T>, t: nat, p: int)
    requires Counts(c) && t < |c.m.threads| && c.m.threads[t] == DeqCas(c.m.deqPos)
    requires InWindow(c.m, p) && SlotInv(c, p) && (p == c.m.deqPos ==> Available(c, p))
    ensures SlotInv(Next(c, Tick(t, false)), p)
  {
  }

  lemma ClaimDequeueThread<T>(c: Config<T>, t: nat, u: nat)
    requires Counts(c) && t < |c.m.threads| && c.m.threads[t] == DeqCas(c.m.deqPos) && Available(c, c.m.deqPos)
    requires u < |c.m.threads| && u != t && ThreadInv(c, u)
    ensures ThreadInv(Next(c, Tick(t, false)), u)
  {
  }

  lemma ClaimDequeue<T>(c: Config<T>, t: nat)
    requires Inv(c) && t < |c.m.threads| && c.m.threads[t] == DeqCas(c.m.deqPos)
    ensures Inv(Next(c, Tick(t, false)))
  {
    var cap, pos := |c.m.cells|, c.m.deqPos;
    var d := Next(c, Tick(t, false));
    assert ThreadInv(c, t);
    assert InWindow(c.m, pos);
    assert SlotInv(c, pos) && Available(c, pos);
    forall p | InWindow(d.m, p) ensures SlotInv(d, p) {
      assert SlotInv(c, p);
      ClaimDequeueSlot(c, t, p);
    }
    forall p | 0 <= p < d.m.enqPos - cap ensures Settled(d.h, p) { assert Settled(c.h, p); }
    forall u | 0 <= u < |d.m.threads| ensures ThreadInv(d, u) {
      if u != t {
        assert ThreadInv(c, u);
        ClaimDequeueThread(c, t, u);
      }
    }
  }

  lemma ReadData<T>(c: Config<T>, t: nat, spurious: bool)
    requires Inv(c) && t < |c.m.threads| && c.m.threads[t].DeqRead?
    ensures Inv(Next(c, Tick(t, spurious)))
  {
    assert ThreadInv(c, t);
    var pos := c.m.threads[t].pos;
    var d := Next(c, Tick(t, spurious));
    assert Draining(d, pos);
    HolderKeepsInv(c, d, t, pos);
  }

  lemma ReleaseCell<T>(c: Config<T>, t: nat, spurious: bool)
    requires Inv(c) && t < |c.m.threads| && c.m.threads[t].DeqRelease?
    ensures Inv(Next(c, Tick(t, spurious)))
  {
    assert ThreadInv(c, t);
    var pos := c.m.threads[t].pos;
    var d := Next(c, Tick(t, spurious));
    assert Released(d, pos);
    HolderKeepsInv(c, d, t, pos);
  }

  lemma StepKeepsInv<T>(c: Config<T>, a: Action<T>)
    requires Inv(c)
    ensures Inv(Next(c, a))
  {
    if a.t < |c.m.threads| {
      var pc := c.m.threads[a.t];
      assert ThreadInv(c, a.t);
      if a.Tick? && pc.EnqCas? && c.m.enqPos == pc.pos && !a.spurious { ClaimEnqueue(c, a.t, pc.v); }
      else if a.Tick? && pc.DeqCas? && c.m.deqPos == pc.pos && !a.spurious { ClaimDequeue(c, a.t); }
      else if a.Tick? && pc.EnqWrite? { WriteData(c, a.t, a.spurious); }
      else if a.Tick? && pc.EnqPublish? { PublishData(c, a.t, a.spurious); }
      else if a.Tick? && pc.DeqRead? { ReadData(c, a.t, a.spurious); }
      else if a.Tick? && pc.DeqRelease? { ReleaseCell(c, a.t, a.spurious); }
      else if Next(c, a).m != c.m { LocalMove(c, a); }
    }
  }

  /** Calls, loads, failed compare-exchanges. */
  lemma LocalMove<T>(c: Config<T>, a: Action<T>)
    requires Inv(c) && a.t < |c.m.threads| && !c.m.threads[a.t].InCell() && Next(c, a).m != c.m
    requires a.Tick? && c.m.threads[a.t].EnqCas? ==> c.m.enqPos != c.m.threads[a.t].pos || a.spurious
    requires a.Tick? && c.m.threads[a.t].DeqCas? ==> c.m.deqPos != c.m.threads[a.t].pos || a.spurious
    ensures Inv(Next(c, a))
  {
    assert ThreadInv(c, a.t);
    var d := Next(c, a);
    var pc := d.m.threads[a.t];
    assert d == Config(Goto(c.m, a.t, pc), c.h);
    if pc.DeqCas? && pc.pos == c.m.deqPos { PublishedIsClaimed(c, pc.pos); }
    LocalStep(c, a.t, pc);
  }

  /** A cell whose sequence is one past the head holds a claimed item. */
  lemma PublishedIsClaimed<T>(c: Config<T>, pos: nat)
    requires Inv(c) && pos == c.m.deqPos && At(c.m, pos % |c.m.cells|).sequence == pos + 1
    ensures pos < c.m.enqPos
  {
    var q := WindowAlias(pos, c.m.enqPos, |c.m.cells|);
    assert SlotInv(c, q);
  }

  // ----- main results, over every schedule of any number of threads

  function Start<T>(m: Machine<T>): Config<T> {
    Config(m, History([], []))
  }

  lemma ConstructedInv<T>(size: nat, threads: nat, m: Machine<T>)
    requires Construct<T>(size, threads) == Success(m)
    ensures Inv(Start(m)) && |m.cells| == size
  {
    var c := Start(m);
    forall p | InWindow(m, p) ensures SlotInv(c, p) {
      Bits.ModUnique(p, size, -1, p + size);
      assert Released(c, p);
    }
  }

  lemma {:induction false} RunKeepsInv<T>(c: Config<T>, schedule: seq<Action<T>>)
    requires Inv(c)
    ensures Inv(Exec(c, schedule))
    decreases |schedule|
  {
    if schedule != [] {
      StepKeepsInv(c, schedule[0]);
      RunKeepsInv(Next(c, schedule[0]), schedule[1..]);
    }
  }

  /** The items claimed by producers, in claim order. */
  function Claimed<T>(h: History<T>): (r: seq<T>)
    ensures |r| == |h.claims| && forall p :: 0 <= p < |r| ==> r[p] == h.claims[p].v
  {
    seq(|h.claims|, i requires 0 <= i < |h.claims| => h.claims[i].v)
  }

  /**
   FIFO over all interleavings: whatever a dequeue has read is what the enqueue of the same
   position stored, so the items taken, in claim order, are a prefix of the items put; no more
   than size of them are outstanding; and the value a completed dequeue returns is that item.
   */
  lemma Fifo<T>(size: nat, threads: nat, m: Machine<T>, schedule: seq<Action<T>>)
    requires Construct<T>(size, threads) == Success(m)
    ensures
      var c := Exec(Start(m), schedule);
      && |c.h.takes| <= |c.h.claims| <= |c.h.takes| + size
      && (forall p :: 0 <= p < |c.h.takes| && c.h.takes[p].got.Some? ==> c.h.takes[p].got.value == c.h.claims[p].v)
      && (forall t :: 0 <= t < threads && c.m.threads[t].DeqTrue? ==>
            var pc := c.m.threads[t];
            pc.pos < |c.h.takes| && c.h.takes[pc.pos].owner == t && pc.got == Some(c.h.claims[pc.pos].v))
  {
    ConstructedInv(size, threads, m);
    RunKeepsInv(Start(m), schedule);
    var c := Exec(Start(m), schedule);
    forall p | 0 <= p < |c.h.takes| && c.h.takes[p].got.Some?
      ensures c.h.takes[p].got.value == c.h.claims[p].v
    {
      TakenIsClaimed(c, p);
    }
    forall t | 0 <= t < threads && c.m.threads[t].DeqTrue?
      ensures var pc := c.m.threads[t];
              pc.pos < |c.h.takes| && c.h.takes[pc.pos].owner == t && pc.got == Some(c.h.claims[pc.pos].v)
    {
      assert ThreadInv(c, t);
    }
  }

  lemma TakenIsClaimed<T>(c: Config<T>, p: nat)
    requires Inv(c) && p < |c.h.takes| && c.h.takes[p].got.Some?
    ensures c.h.takes[p].got.value == c.h.claims[p].v
  {
    if InWindow(c.m, p) {
      assert SlotInv(c, p);
      if Draining(c, p) { assert ThreadInv(c, c.h.takes[p].owner); }
    } else {
      assert Settled(c.h, p);
    }
  }

  ghost predicate Grows<T>(h: History<T>, k: History<T>) {
    && h.claims <= k.claims && |h.takes| <= |k.takes|
    && forall p :: 0 <= p < |h.takes| ==>
         k.takes[p].owner == h.takes[p].owner && (h.takes[p].got.Some? ==> k.takes[p] == h.takes[p])
  }

  /** No position is ever claimed twice or re-assigned, and what was read once is never read again. */
  lemma {:induction false} HistoryGrows<T>(c: Config<T>, schedule: seq<Action<T>>)
    requires Inv(c)
    ensures Grows(c.h, Exec(c, schedule).h)
    decreases |schedule|
  {
    if schedule != [] {
      var a := schedule[0];
      if a.t < |c.m.threads| { assert ThreadInv(c, a.t); }
      StepKeepsInv(c, a);
      HistoryGrows(Next(c, a), schedule[1..]);
    }
  }

  // ----- claim order and real time

  /** The positions thread u holds were loaded when at least n items had been claimed. */
  ghost predicate EnqueuesFrom<T>(m: Machine<T>, u: nat, n: nat)
    requires u < |m.threads|
  {
    n <= m.enqPos
    && match m.threads[u]
       case EnqLoadSeq(_, pos) => n <= pos
       case EnqCas(_, pos) => n <= pos
       case EnqWrite(_, pos) => n <= pos
       case EnqPublish(pos) => n <= pos
       case EnqTrue(pos) => n <= pos
       case _ => true
  }

  ghost predicate DequeuesFrom<T>(m: Machine<T>, u: nat, n: nat)
    requires u < |m.threads|
  {
    n <= m.deqPos
    && match m.threads[u]
       case DeqLoadSeq(pos) => n <= pos
       case DeqCas(pos) => n <= pos
       case DeqRead(pos) => n <= pos
       case DeqRelease(pos, _) => n <= pos
       case DeqTrue(pos, _) => n <= pos
       case _ => true
  }

  lemma StepKeepsFrom<T>(m: Machine<T>, a: Action<T>, u: nat, n: nat)
    requires |m.cells| > 0 && u < |m.threads|
    ensures |Step(Unbounded, m, a).threads| == |m.threads|
    ensures EnqueuesFrom(m, u, n) ==> EnqueuesFrom(Step(Unbounded, m, a), u, n)
    ensures DequeuesFrom(m, u, n) ==> DequeuesFrom(Step(Unbounded, m, a), u, n)
  {
  }

  lemma {:induction false} RunKeepsFrom<T>(c: Config<T>, schedule: seq<Action<T>>, u: nat, n: nat)
    requires |c.m.cells| > 0 && u < |c.m.threads|
    ensures EnqueuesFrom(c.m, u, n) ==> EnqueuesFrom(Exec(c, schedule).m, u, n)
    ensures DequeuesFrom(c.m, u, n) ==> DequeuesFrom(Exec(c, schedule).m, u, n)
    decreases |schedule|
  {
    hide EnqueuesFrom, DequeuesFrom, Step;
    if schedule != [] {
      StepKeepsFrom(c.m, schedule[0], u, n);
      RunKeepsFrom(Next(c, schedule[0]), schedule[1..], u, n);
    }
  }

  /**
   Claim order respects real time: an enqueue called after another had returned gets the larger
   position, whatever happens before, between and during the two.
   */
  lemma EnqueuesInRealTime<T>(size: nat, threads: nat, m: Machine<T>, s1: seq<Action<T>>, s2: seq<Action<T>>, s3: seq<Action<T>>,
                              t: nat, p: nat, u: nat, w: T, q: nat)
    requires Construct<T>(size, threads) == Success(m) && t < threads && u < threads
    requires Exec(Start(m), s1).m.threads[t] == EnqTrue(p)
    requires Exec(Exec(Start(m), s1), s2).m.threads[u].AtRest()
    requires Exec(Next(Exec(Exec(Start(m), s1), s2), CallEnqueue(u, w)), s3).m.threads[u] == EnqTrue(q)
    ensures p < q
  {
    ConstructedInv(size, threads, m);
    RunKeepsInv(Start(m), s1);
    var c1 := Exec(Start(m), s1);
    RunKeepsInv(c1, s2);
    HistoryGrows(c1, s2);
    var c2 := Exec(c1, s2);
    assert ThreadInv(c1, t);
    assert EnqueuesFrom(Next(c2, CallEnqueue(u, w)).m, u, p + 1);
    RunKeepsFrom(Next(c2, CallEnqueue(u, w)), s3, u, p + 1);
  }

  /** The same for dequeues. */
  lemma DequeuesInRealTime<T>(size: nat, threads: nat, m: Machine<T>, s1: seq<Action<T>>, s2: seq<Action<T>>, s3: seq<Action<T>>,
                              t: nat, p: nat, a: Option<T>, u: nat, q: nat, b: Option<T>)
    requires Construct<T>(size, threads) == Success(m) && t < threads && u < threads
    requires Exec(Start(m), s1).m.threads[t] == DeqTrue(p, a)
    requires Exec(Exec(Start(m), s1), s2).m.threads[u].AtRest()
    requires Exec(Next(Exec(Exec(Start(m), s1), s2), CallDequeue(u)), s3).m.threads[u] == DeqTrue(q, b)
    ensures p < q
  {
    ConstructedInv(size, threads, m);
    RunKeepsInv(Start(m), s1);
    var c1 := Exec(Start(m), s1);
    RunKeepsInv(c1, s2);
    HistoryGrows(c1, s2);
    var c2 := Exec(c1, s2);
    assert ThreadInv(c1, t);
    assert DequeuesFrom(Next(c2, CallDequeue(u)).m, u, p + 1);
    RunKeepsFrom(Next(c2, CallDequeue(u)), s3, u, p + 1);
  }

  // ----- exclusive cells

  /** Two threads between their compare-exchange and their sequence store never share a cell. */
  lemma Exclusive<T>(c: Config<T>, t: nat, u: nat)
    requires Inv(c) && t < |c.m.threads| && u < |c.m.threads| && t != u
    requires c.m.threads[t].InCell() && c.m.threads[u].InCell()
    ensures c.m.threads[t].pos % |c.m.cells| != c.m.threads[u].pos % |c.m.cells|
  {
    var p, q := c.m.threads[t].pos, c.m.threads[u].pos;
    assert ThreadInv(c, t) && ThreadInv(c, u);
    assert p != q;
    SlotDistinct(p, q, |c.m.cells|);
  }

  /** A cell held by t changes only by t's own steps. */
  lemma Undisturbed<T>(c: Config<T>, t: nat, a: Action<T>)
    requires Inv(c) && t < |c.m.threads| && c.m.threads[t].InCell() && a.t != t
    ensures var i := c.m.threads[t].pos % |c.m.cells|;
            At(Next(c, a).m, i) == At(c.m, i)
  {
    if a.t < |c.m.threads| && c.m.threads[a.t].InCell() { Exclusive(c, t, a.t); }
  }

  // ----- what `false` means

  /** Position p has not been handed back: it is still queued, or its consumer is in flight. */
  ghost predicate Occupied<T>(c: Config<T>, p: int) {
    && 0 <= p
    && (p >= c.m.deqPos
        || (p < |c.h.takes| && c.h.takes[p].owner < |c.m.threads|
            && var pc := c.m.threads[c.h.takes[p].owner]; (pc.DeqRead? || pc.DeqRelease?) && pc.pos == p))
  }

  /** Position p holds no item to take: nobody claimed it, or its producer is in flight. */
  ghost predicate Unpublished<T>(c: Config<T>, p: nat) {
    || p >= c.m.enqPos
    || (p < |c.h.claims| && c.h.claims[p].owner < |c.m.threads|
        && var pc := c.m.threads[c.h.claims[p].owner]; (pc.EnqWrite? || pc.EnqPublish?) && pc.pos == p)
  }

  /** What the cell of a position at or before the tail can hold. */
  lemma TailSequence<T>(c: Config<T>, pos: nat)
    requires Inv(c) && pos <= c.m.enqPos
    ensures var s := At(c.m, pos % |c.m.cells|).sequence;
            && (pos < c.m.enqPos ==> s >= pos)
            && (pos == c.m.enqPos ==> s <= pos && (s < pos <==> Occupied(c, pos - |c.m.cells|)))
  {
    var q := WindowAlias(pos, c.m.enqPos, |c.m.cells|);
    assert SlotInv(c, q);
    if 0 <= q < |c.h.takes| && c.h.takes[q].owner < |c.m.threads| { assert ThreadInv(c, c.h.takes[q].owner); }
  }

  /** What the cell of a position at or before the head can hold. */
  lemma HeadSequence<T>(c: Config<T>, pos: nat)
    requires Inv(c) && pos <= c.m.deqPos
    ensures var s := At(c.m, pos % |c.m.cells|).sequence;
            && (pos < c.m.deqPos ==> s >= pos + 1)
            && (pos == c.m.deqPos ==> s <= pos + 1 && (s < pos + 1 <==> Unpublished(c, pos)))
  {
    var q := WindowAlias(pos, c.m.enqPos, |c.m.cells|);
    assert SlotInv(c, q);
    if pos == c.m.deqPos && pos < c.m.enqPos {
      if q != pos { SlotDistinct(q, pos, |c.m.cells|); }
      if Available(c, pos) && c.h.claims[pos].owner < |c.m.threads| { assert ThreadInv(c, c.h.claims[pos].owner); }
    }
  }

  /**
   An enqueue gives up exactly when its position is the current tail and the slot there is still
   occupied by the item one lap behind; a stale position is retried, never reported as full.
   */
  lemma EnqueueFalseIsHonest<T>(c: Config<T>, t: nat, v: T, pos: nat, spurious: bool)
    requires Inv(c) && t < |c.m.threads| && c.m.threads[t] == EnqLoadSeq(v, pos)
    ensures var pc := Next(c, Tick(t, spurious)).m.threads[t];
            && (pc == EnqFalse(v) <==> pos == c.m.enqPos && Occupied(c, pos - |c.m.cells|))
            && (pos == c.m.enqPos && !Occupied(c, pos - |c.m.cells|) ==> pc == EnqCas(v, pos))
            && (pos < c.m.enqPos ==> pc == EnqLoadPos(v) || pc == EnqCas(v, pos))
  {
    assert ThreadInv(c, t);
    TailSequence(c, pos);
  }

  /** The same for a dequeue: it gives up exactly when the item at the current head is unpublished. */
  lemma DequeueFalseIsHonest<T>(c: Config<T>, t: nat, pos: nat, spurious: bool)
    requires Inv(c) && t < |c.m.threads| && c.m.threads[t] == DeqLoadSeq(pos)
    ensures var pc := Next(c, Tick(t, spurious)).m.threads[t];
            && (pc == DeqFalse <==> pos == c.m.deqPos && Unpublished(c, pos))
            && (pos == c.m.deqPos && !Unpublished(c, pos) ==> pc == DeqCas(pos))
            && (pos < c.m.deqPos ==> pc == DeqLoadPos || pc == DeqCas(pos))
  {
    assert ThreadInv(c, t);
    HeadSequence(c, pos);
  }

  /**
   What can become of an enqueue in its retry loop, whoever moves: it goes on trying with the same item,
   it claims the tail, or it gives up, which happens nowhere but at the sequence load of the tail with the
   slot still occupied. A lost or spuriously failed compare-exchange leads back into the loop.
   */
  lemma EnqueueTries<T>(c: Config<T>, a: Action<T>, t: nat)
    requires Inv(c) && t < |c.m.threads|
    requires c.m.threads[t].EnqLoadPos? || c.m.threads[t].EnqLoadSeq? || c.m.threads[t].EnqCas?
    ensures var was, d := c.m.threads[t], Next(c, a);
            var pc := d.m.threads[t];
            || ((pc.EnqLoadPos? || pc.EnqLoadSeq? || pc.EnqCas?) && pc.v == was.v && d.h.claims[..|c.h.claims|] == c.h.claims)
            || (pc == EnqWrite(was.v, c.m.enqPos) && was == EnqCas(was.v, c.m.enqPos) && a == Tick(t, false)
                && d.h.claims == c.h.claims + [Claim(t, was.v)])
            || (pc == EnqFalse(was.v) && was == EnqLoadSeq(was.v, c.m.enqPos) && a.Tick? && a.t == t
                && Occupied(c, c.m.enqPos - |c.m.cells|))
    ensures c.m.threads[t].EnqCas? && a.Tick? && a.t == t && (a.spurious || c.m.threads[t].pos != c.m.enqPos) ==>
              Next(c, a).m.threads[t] == EnqLoadSeq(c.m.threads[t].v, c.m.enqPos)
  {
    if a.t == t && c.m.threads[t].EnqLoadSeq? && a.Tick? {
      assert ThreadInv(c, t);
      EnqueueFalseIsHonest(c, t, c.m.threads[t].v, c.m.threads[t].pos, a.spurious);
    }
  }

  /** The same for a dequeue. */
  lemma DequeueTries<T>(c: Config<T>, a: Action<T>, t: nat)
    requires Inv(c) && t < |c.m.threads|
    requires c.m.threads[t].DeqLoadPos? || c.m.threads[t].DeqLoadSeq? || c.m.threads[t].DeqCas?
    ensures var was, d := c.m.threads[t], Next(c, a);
            var pc := d.m.threads[t];
            || pc.DeqLoadPos? || pc.DeqLoadSeq? || pc.DeqCas?
            || (pc == DeqRead(c.m.deqPos) && was == DeqCas(c.m.deqPos) && a == Tick(t, false)
                && d.h.takes == c.h.takes + [Take(t, None)])
            || (pc == DeqFalse && was == DeqLoadSeq(c.m.deqPos) && a.Tick? && a.t == t && Unpublished(c, c.m.deqPos))
    ensures c.m.threads[t].DeqCas? && a.Tick? && a.t == t && (a.spurious || c.m.threads[t].pos != c.m.deqPos) ==>
              Next(c, a).m.threads[t] == DeqLoadSeq(c.m.deqPos)
  {
    if a.t == t && c.m.threads[t].DeqLoadSeq? && a.Tick? {
      assert ThreadInv(c, t);
      DequeueFalseIsHonest(c, t, c.m.threads[t].pos, a.spurious);
    }
  }

  /** Every refusal of the queue is honest, whatever step produced it. */
  lemma OnlyHonestRefusals<T>(c: Config<T>, a: Action<T>, t: nat)
    requires Inv(c) && t < |c.m.threads|
    ensures !c.m.threads[t].EnqFalse? && Next(c, a).m.threads[t].EnqFalse? ==>
              && c.m.threads[t].EnqLoadSeq? && c.m.threads[t].pos == c.m.enqPos
              && Occupied(c, c.m.enqPos - |c.m.cells|)
    ensures !c.m.threads[t].DeqFalse? && Next(c, a).m.threads[t].DeqFalse? ==>
              c.m.threads[t].DeqLoadSeq? && c.m.threads[t].pos == c.m.deqPos && Unpublished(c, c.m.deqPos)
  {
    var pc := c.m.threads[t];
    if pc.EnqLoadPos? || pc.EnqLoadSeq? || pc.EnqCas? { EnqueueTries(c, a, t); }
    if pc.DeqLoadPos? || pc.DeqLoadSeq? || pc.DeqCas? { DequeueTries(c, a, t); }
  }

  /** A call that has claimed a position ends in success with that position and nothing else. */
  lemma ClaimsSucceed<T>(c: Config<T>, a: Action<T>, t: nat)
    requires Inv(c) && t < |c.m.threads| && c.m.threads[t].InCell()
    ensures c.m.threads[t].pos < |c.h.claims|
    ensures var was, pc := c.m.threads[t], Next(c, a).m.threads[t];
            if !a.Tick? || a.t != t then pc == was
            else if was.EnqWrite? then pc == EnqPublish(was.pos)
            else if was.EnqPublish? then pc == EnqTrue(was.pos)
            else if was.DeqRead? then pc == DeqRelease(was.pos, Some(c.h.claims[was.pos].v))
            else pc == DeqTrue(was.pos, Some(c.h.claims[was.pos].v))
  {
    assert ThreadInv(c, t);
  }

  /**
   When no thread is inside a cell the queue is exactly the claimed items not yet taken: every
   taken position yielded its item, and every other one sits in its cell ready to be read.
   */
  lemma Quiescent<T>(c: Config<T>)
    requires Inv(c) && forall t :: 0 <= t < |c.m.threads| ==> !c.m.threads[t].InCell()
    ensures forall p :: 0 <= p < c.m.deqPos ==> c.h.takes[p].got == Some(Claimed(c.h)[p])
    ensures forall p :: c.m.deqPos <= p < c.m.enqPos ==>
              At(c.m, p % |c.m.cells|) == Cell(p + 1, Some(Claimed(c.h)[p]))
    ensures Occupied(c, c.m.enqPos - |c.m.cells|) <==> c.m.enqPos == c.m.deqPos + |c.m.cells|
    ensures Unpublished(c, c.m.deqPos) <==> c.m.enqPos == c.m.deqPos
  {
    forall p | 0 <= p < c.m.deqPos ensures c.h.takes[p].got == Some(Claimed(c.h)[p]) {
      if InWindow(c.m, p) { assert SlotInv(c, p); } else { assert Settled(c.h, p); }
    }
    forall p | c.m.deqPos <= p < c.m.enqPos
      ensures At(c.m, p % |c.m.cells|) == Cell(p + 1, Some(Claimed(c.h)[p]))
    {
      assert InWindow(c.m, p) && SlotInv(c, p);
    }
  }
}
