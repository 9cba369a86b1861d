/**
 The asynchronous log worker over the interleaved queue: any number of producers push with
 block_retry, one worker dequeues, logs to every sink, flushes and terminates. Sinks and
 formatters are assumed not to throw.
 */
module AsyncLog {
  import opened Wrappers
  import opened MpmcQueue

  datatype MsgType = Log | Flush | Terminate

  datatype AsyncMsg = AsyncMsg(loggerName: string, level: nat, time: int, threadId: nat, txt: string, msgType: MsgType) {

    /** The constructor from a record. */
    static function Of(m: LogMsg): AsyncMsg {
      AsyncMsg(m.loggerName, m.level, m.time, m.threadId, m.raw, Log)
    }

    /** `fill_log_msg` */
    function Fill(): LogMsg {
      LogMsg(loggerName, level, time, threadId, txt)
    }
  }

  datatype LogMsg = LogMsg(loggerName: string, level: nat, time: int, threadId: nat, raw: string)

  /** flushed counts the records that were in the sink at its latest flush. */
  datatype Sink = Sink(received: seq<LogMsg>, flushed: nat)

  /** Where the worker stands in its loop; k is the index of the `for (auto &s : _sinks)` loops. */
  datatype Worker = Ready | InDequeue | Logging(msg: LogMsg, k: nat) | Flushing(k: nat) | Exited

  /** Queue threads 0, 1, ... are the producers with what each has still to push; the last is the worker. */
  datatype System = System(
    q: Config<AsyncMsg>,
    pending: seq<seq<AsyncMsg>>,
    worker: Worker,
    sinks: seq<Sink>,
    flushRequested: bool,
    terminateRequested: bool)

  /** due is the clock's answer to the periodic flush test. */
  datatype Event = Produce(t: nat, spurious: bool) | Work(spurious: bool, due: bool)

  ghost predicate Shape(s: System) {
    |s.q.m.cells| > 0 && |s.q.m.threads| == |s.pending| + 1
  }

  function QueueStep(s: System, a: Action<AsyncMsg>): System
    requires |s.q.m.cells| > 0
  {
    s.(q := Next(s.q, a))
  }

  /** Between two messages: the previous push has succeeded and the program goes on. */
  predicate TakesNext(s: System, t: nat)
    requires t < |s.pending| < |s.q.m.threads|
  {
    var pc := s.q.m.threads[t];
    pc.AtRest() && !pc.EnqFalse? && s.pending[t] != []
  }

  /** `push_msg`: enqueue the next message, retry the same one after a full queue. */
  function PushAction(s: System, t: nat, spurious: bool): Action<AsyncMsg>
    requires t < |s.pending| < |s.q.m.threads|
  {
    var pc := s.q.m.threads[t];
    if pc.EnqFalse? then CallEnqueue(t, pc.v)
    else if TakesNext(s, t) then CallEnqueue(t, s.pending[t][0])
    else Tick(t, spurious)
  }

  function ProduceStep(s: System, t: nat, spurious: bool): System
    requires |s.q.m.cells| > 0 && t < |s.pending| < |s.q.m.threads|
  {
    s.(q := Next(s.q, PushAction(s, t, spurious)),
       pending := if TakesNext(s, t) then s.pending[t := s.pending[t][1..]] else s.pending)
  }

  /** One step of `worker_loop` / `process_next_msg` / `handle_flush_interval`. */
  function WorkStep(s: System, spurious: bool, due: bool): System
    requires |s.q.m.cells| > 0 && |s.pending| < |s.q.m.threads|
  {
    var w := |s.pending|;
    match s.worker
    case Ready => QueueStep(s, CallDequeue(w)).(worker := InDequeue)
    case InDequeue =>
      (match s.q.m.threads[w]
       case DeqTrue(_, Some(msg)) =>
         (match msg.msgType
          case Flush => s.(flushRequested := true, worker := Ready)
          case Terminate => s.(flushRequested := true, terminateRequested := true, worker := Ready)
          case Log => s.(worker := Logging(msg.Fill(), 0)))
       case DeqFalse =>
         if s.flushRequested || due then s.(worker := Flushing(0)) else Continue(s)
       case _ => QueueStep(s, Tick(w, spurious)))
    case Logging(msg, k) =>
      if k < |s.sinks|
      then s.(sinks := s.sinks[k := s.sinks[k].(received := s.sinks[k].received + [msg])], worker := Logging(msg, k + 1))
      else s.(worker := Ready)
    case Flushing(k) =>
      if k < |s.sinks|
      then s.(sinks := s.sinks[k := s.sinks[k].(flushed := |s.sinks[k].received|)], worker := Flushing(k + 1))
      else Continue(s.(flushRequested := false))
    case Exited => s
  }

  /** `while(process_next_msg(...))` after an empty queue: `return !_terminate_requested` */
  function Continue(s: System): System {
    s.(worker := if s.terminateRequested then Exited else Ready)
  }

  function Advance(s: System, e: Event): (r: System)
    requires Shape(s)
    ensures Shape(r) && |r.pending| == |s.pending|
  {
    match e
    case Produce(t, spurious) => if t < |s.pending| then ProduceStep(s, t, spurious) else s
    case Work(spurious, due) => WorkStep(s, spurious, due)
  }

  function Run(s: System, events: seq<Event>): (r: System)
    requires Shape(s)
    ensures Shape(r) && |r.pending| == |s.pending|
    decreases |events|
  {
    if events == [] then s else Run(Advance(s, events[0]), events[1..])
  }

  function Launch(m: Machine<AsyncMsg>, programs: seq<seq<AsyncMsg>>, sinks: nat): System {
    System(Start(m), programs, Ready, seq(sinks, _ => Sink([], 0)), false, false)
  }

  // ----- what the queue order says

  /** The log records among the claimed messages, in queue order. */
  function Logs(claims: seq<Claim<AsyncMsg>>): seq<LogMsg> {
    if claims == [] then []
    else
      var last := claims[|claims| - 1].v;
      Logs(claims[..|claims| - 1]) + (if last.msgType.Log? then [last.Fill()] else [])
  }

  ghost predicate HasTerminate(claims: seq<Claim<AsyncMsg>>) {
    exists p :: 0 <= p < |claims| && claims[p].v.msgType.Terminate?
  }

  /** The messages of producer t, in queue order. */
  function Pushed(claims: seq<Claim<AsyncMsg>>, t: nat): seq<AsyncMsg> {
    if claims == [] then []
    else
      var last := claims[|claims| - 1];
      Pushed(claims[..|claims| - 1], t) + (if last.owner == t then [last.v] else [])
  }

  /** The message a producer has taken from its program and not yet got into the queue. */
  function InHand(pc: Pc<AsyncMsg>): seq<AsyncMsg> {
    if pc.EnqLoadPos? || pc.EnqLoadSeq? || pc.EnqCas? || pc.EnqFalse? then [pc.v] else []
  }

  // ----- the invariant

  ghost predicate Enqueues(pc: Pc<AsyncMsg>) {
    pc.Idle? || pc.EnqLoadPos? || pc.EnqLoadSeq? || pc.EnqCas? || pc.EnqWrite? || pc.EnqPublish? || pc.EnqTrue? || pc.EnqFalse?
  }

  /** The worker has claimed a message and not yet looked at it. */
  ghost predicate Carrying(s: System)
    requires Shape(s)
  {
    var pc := s.q.m.threads[|s.pending|];
    s.worker.InDequeue? && (pc.DeqRead? || pc.DeqRelease? || pc.DeqTrue?)
  }

  /** How many messages the worker has looked at. */
  ghost function Handled(s: System): int
    requires Shape(s)
  {
    s.q.m.deqPos - if Carrying(s) then 1 else 0
  }

  ghost predicate Seen(s: System, n: int) {
    0 <= n <= |s.q.h.claims|
  }

  ghost predicate ThreadsInRole(s: System)
    requires Shape(s)
  {
    var w := |s.pending|;
    var pc := s.q.m.threads[w];
    && (forall t :: 0 <= t < w ==> Enqueues(s.q.m.threads[t]))
    && (pc.Idle? || !Enqueues(pc))
    && (Carrying(s) ==> pc.pos == s.q.m.deqPos - 1)
    && (!s.worker.InDequeue? ==> pc.AtRest())
    && (s.worker.InDequeue? ==> !pc.Idle?)
  }

  /** Every sink holds exactly the records handled so far; the one in progress has reached the first k. */
  ghost predicate Delivered(s: System)
    requires Shape(s)
  {
    var n := Handled(s);
    && Seen(s, n)
    && (s.worker.Logging? ==>
          && n > 0 && s.worker.k <= |s.sinks|
          && s.q.h.claims[n - 1].v.msgType.Log? && s.q.h.claims[n - 1].v.Fill() == s.worker.msg)
    && forall j :: 0 <= j < |s.sinks| ==>
         s.sinks[j].received == Logs(s.q.h.claims[..if s.worker.Logging? && j >= s.worker.k then n - 1 else n])
  }

  ghost predicate FlushState(s: System)
    requires Shape(s)
  {
    && Seen(s, Handled(s))
    && (s.terminateRequested <==> HasTerminate(s.q.h.claims[..Handled(s)]))
    && (s.terminateRequested && !s.worker.Exited? && !s.worker.Flushing? ==> s.flushRequested)
    && (s.worker.Exited? ==> s.terminateRequested)
    && forall j :: 0 <= j < |s.sinks| && (s.worker.Exited? || (s.worker.Flushing? && j < s.worker.k)) ==>
         s.sinks[j].flushed == |s.sinks[j].received|
  }

  /** What a producer got into the queue, holds and has still to push is its program. */
  ghost predicate OnProgram(s: System, u: nat, program: seq<AsyncMsg>)
    requires Shape(s) && u < |s.pending|
  {
    Pushed(s.q.h.claims, u) + InHand(s.q.m.threads[u]) + s.pending[u] == program
  }

  ghost predicate ProgramOrder(s: System, programs: seq<seq<AsyncMsg>>)
    requires Shape(s)
  {
    && |programs| == |s.pending|
    && forall t :: 0 <= t < |programs| ==> OnProgram(s, t, programs[t])
  }

  ghost predicate SystemInv(s: System, programs: seq<seq<AsyncMsg>>) {
    && Shape(s) && Inv(s.q)
    && ThreadsInRole(s) && Delivered(s) && FlushState(s) && ProgramOrder(s, programs)
  }

  // ----- preservation

  /** What the producer holds once the call of action a, if it is one, has been made. */
  ghost function HandAt(pc: Pc<AsyncMsg>, a: Action<AsyncMsg>): seq<AsyncMsg> {
    if a.CallEnqueue? then [a.v] else InHand(pc)
  }

  /** The message in hand stays there or moves to the end of the queue. */
  ghost predicate HandMoves(claims: seq<Claim<AsyncMsg>>, hand: seq<AsyncMsg>,
                            claims': seq<Claim<AsyncMsg>>, hand': seq<AsyncMsg>, t: nat) {
    || (claims' == claims && hand' == hand)
    || (|hand| == 1 && hand' == [] && claims' == claims + [Claim(t, hand[0])])
  }

  /** A step of a producer's thread: nothing is taken; at most its own message is claimed. */
  lemma ProducerQueueStep(c: Config<AsyncMsg>, t: nat, a: Action<AsyncMsg>)
    requires Inv(c) && t < |c.m.threads| && Enqueues(c.m.threads[t]) && a.t == t && !a.CallDequeue?
    requires a.CallEnqueue? ==> c.m.threads[t].AtRest()
    ensures var d := Next(c, a);
            && Inv(d) && Enqueues(d.m.threads[t]) && d.m.deqPos == c.m.deqPos
            && (forall u :: 0 <= u < |c.m.threads| && u != t ==> d.m.threads[u] == c.m.threads[u])
            && HandMoves(c.h.claims, HandAt(c.m.threads[t], a), d.h.claims, InHand(d.m.threads[t]), t)
  {
    StepKeepsInv(c, a);
  }

  lemma PushedSnoc(claims: seq<Claim<AsyncMsg>>, c: Claim<AsyncMsg>, t: nat)
    ensures Pushed(claims + [c], t) == Pushed(claims, t) + (if c.owner == t then [c.v] else [])
  {
    assert (claims + [c])[..|claims|] == claims;
  }

  lemma ProduceKeepsDelivery(s: System, programs: seq<seq<AsyncMsg>>, t: nat, spurious: bool)
    requires SystemInv(s, programs) && t < |s.pending|
    ensures var r := ProduceStep(s, t, spurious);
            Inv(r.q) && ThreadsInRole(r) && Delivered(r) && FlushState(r)
  {
    var r := ProduceStep(s, t, spurious);
    ProducerQueueStep(s.q, t, PushAction(s, t, spurious));
    assert Handled(r) == Handled(s);
    assert forall n :: 0 <= n <= |s.q.h.claims| ==> r.q.h.claims[..n] == s.q.h.claims[..n];
  }

  lemma HandMovesInOrder(claims: seq<Claim<AsyncMsg>>, hand: seq<AsyncMsg>,
                         claims': seq<Claim<AsyncMsg>>, hand': seq<AsyncMsg>, t: nat, u: nat)
    requires HandMoves(claims, hand, claims', hand', t)
    ensures if u == t then Pushed(claims', u) + hand' == Pushed(claims, u) + hand
            else Pushed(claims', u) == Pushed(claims, u)
  {
    if claims' != claims { PushedSnoc(claims, Claim(t, hand[0]), u); }
  }

  lemma ProduceKeepsProgram(s: System, t: nat, spurious: bool, u: nat, program: seq<AsyncMsg>)
    requires Shape(s) && Inv(s.q) && t < |s.pending| && Enqueues(s.q.m.threads[t])
    requires u < |s.pending| && OnProgram(s, u, program)
    ensures OnProgram(ProduceStep(s, t, spurious), u, program)
  {
    var r, a := ProduceStep(s, t, spurious), PushAction(s, t, spurious);
    var hand := HandAt(s.q.m.threads[t], a);
    ProducerQueueStep(s.q, t, a);
    HandMovesInOrder(s.q.h.claims, hand, r.q.h.claims, InHand(r.q.m.threads[t]), t, u);
    if u == t {
      assert hand + r.pending[t] == InHand(s.q.m.threads[t]) + s.pending[t];
      assert Pushed(s.q.h.claims, u) + hand + r.pending[t] == Pushed(s.q.h.claims, u) + (hand + r.pending[t]);
      assert Pushed(s.q.h.claims, u) + InHand(s.q.m.threads[t]) + s.pending[t]
          == Pushed(s.q.h.claims, u) + (InHand(s.q.m.threads[t]) + s.pending[t]);
    }
  }

  /** A tick of the worker's dequeue: nothing is claimed by producers; a won claim is the head. */
  lemma WorkerQueueStep(c: Config<AsyncMsg>, w: nat, a: Action<AsyncMsg>)
    requires Inv(c) && w < |c.m.threads| && a.t == w && !a.CallEnqueue?
    requires c.m.threads[w].Idle? || !Enqueues(c.m.threads[w])
    requires c.m.threads[w].AtRest() <==> a.CallDequeue?
    ensures var d := Next(c, a);
            var pc, pd := c.m.threads[w], d.m.threads[w];
            && Inv(d) && !Enqueues(pd) && d.h.claims == c.h.claims
            && (forall u :: 0 <= u < |c.m.threads| && u != w ==> d.m.threads[u] == c.m.threads[u])
            && d.m.deqPos == (if pc.DeqCas? && pd.DeqRead? then c.m.deqPos + 1 else c.m.deqPos)
            && (pd.DeqRead? ==> pc.DeqCas? && pd.pos == c.m.deqPos)
            && (pd.DeqRelease? ==> pc.DeqRead? && pd.pos == pc.pos)
            && (pd.DeqTrue? ==> pc.DeqRelease? && pd.pos == pc.pos)
            && (pc.DeqRead? ==> pd.DeqRelease?) && (pc.DeqRelease? ==> pd.DeqTrue?)
  {
    StepKeepsInv(c, a);
  }

  lemma WorkerPollKeepsInv(s: System, programs: seq<seq<AsyncMsg>>, a: Action<AsyncMsg>)
    requires SystemInv(s, programs) && a.t == |s.pending|
    requires (s.worker.Ready? && a.CallDequeue?) || (s.worker.InDequeue? && a.Tick? && !s.q.m.threads[a.t].AtRest())
    ensures SystemInv(QueueStep(s, a).(worker := InDequeue), programs)
  {
    WorkerQueueStep(s.q, |s.pending|, a);
    var r := QueueStep(s, a).(worker := InDequeue);
    assert Handled(r) == Handled(s);
  }

  lemma LogsSnoc(claims: seq<Claim<AsyncMsg>>, n: nat)
    requires n < |claims|
    ensures Logs(claims[..n + 1]) == Logs(claims[..n]) + (if claims[n].v.msgType.Log? then [claims[n].v.Fill()] else [])
    ensures HasTerminate(claims[..n + 1]) <==> HasTerminate(claims[..n]) || claims[n].v.msgType.Terminate?
  {
    assert claims[..n + 1][..n] == claims[..n];
    assert claims[..n + 1][n] == claims[n];
    if HasTerminate(claims[..n]) {
      var p :| 0 <= p < n && claims[..n][p].v.msgType.Terminate?;
      assert claims[..n + 1][p] == claims[..n][p];
    }
    if HasTerminate(claims[..n + 1]) {
      var p :| 0 <= p < n + 1 && claims[..n + 1][p].v.msgType.Terminate?;
      if p < n { assert claims[..n][p] == claims[..n + 1][p]; }
    }
  }

  /** The worker looks at the message it dequeued. */
  lemma DispatchKeepsInv(s: System, programs: seq<seq<AsyncMsg>>, spurious: bool, due: bool)
    requires SystemInv(s, programs) && s.worker.InDequeue? && s.q.m.threads[|s.pending|].DeqTrue?
    ensures SystemInv(WorkStep(s, spurious, due), programs)
  {
    assert ThreadInv(s.q, |s.pending|);
    LogsSnoc(s.q.h.claims, Handled(s));
    var r := WorkStep(s, spurious, due);
    assert Handled(r) == Handled(s) + 1;
  }

  lemma LoggingKeepsInv(s: System, programs: seq<seq<AsyncMsg>>, spurious: bool, due: bool)
    requires SystemInv(s, programs) && s.worker.Logging?
    ensures SystemInv(WorkStep(s, spurious, due), programs)
  {
    var r := WorkStep(s, spurious, due);
    assert Handled(r) == Handled(s);
    LogsSnoc(s.q.h.claims, Handled(s) - 1);
    assert Delivered(r);
    assert FlushState(r);
  }

  lemma FlushingKeepsInv(s: System, programs: seq<seq<AsyncMsg>>, spurious: bool, due: bool)
    requires SystemInv(s, programs) && s.worker.Flushing?
    ensures SystemInv(WorkStep(s, spurious, due), programs)
  {
    var r := WorkStep(s, spurious, due);
    assert Handled(r) == Handled(s);
    assert Delivered(r);
    assert FlushState(r);
  }

  lemma WorkKeepsInv(s: System, programs: seq<seq<AsyncMsg>>, spurious: bool, due: bool)
    requires SystemInv(s, programs)
    ensures SystemInv(WorkStep(s, spurious, due), programs)
  {
    var w := |s.pending|;
    match s.worker
    case Ready => WorkerPollKeepsInv(s, programs, CallDequeue(w));
    case Logging(_, _) => LoggingKeepsInv(s, programs, spurious, due);
    case Flushing(_) => FlushingKeepsInv(s, programs, spurious, due);
    case Exited =>
    case InDequeue =>
      if s.q.m.threads[w].DeqTrue? { DispatchKeepsInv(s, programs, spurious, due); }
      else if !s.q.m.threads[w].DeqFalse? { WorkerPollKeepsInv(s, programs, Tick(w, spurious)); }
      else { assert Handled(WorkStep(s, spurious, due)) == Handled(s); }
  }

  lemma AdvanceKeepsInv(s: System, programs: seq<seq<AsyncMsg>>, e: Event)
    requires SystemInv(s, programs)
    ensures SystemInv(Advance(s, e), programs)
  {
    match e
    case Work(spurious, due) => WorkKeepsInv(s, programs, spurious, due);
    case Produce(t, spurious) =>
      if t < |s.pending| {
        ProduceKeepsDelivery(s, programs, t, spurious);
        forall u | 0 <= u < |programs| ensures OnProgram(ProduceStep(s, t, spurious), u, programs[u]) {
          ProduceKeepsProgram(s, t, spurious, u, programs[u]);
        }
      }
  }

  lemma {:induction false} RunKeepsSystemInv(s: System, programs: seq<seq<AsyncMsg>>, events: seq<Event>)
    requires SystemInv(s, programs)
    ensures SystemInv(Run(s, events), programs)
    decreases |events|
  {
    if events != [] {
      AdvanceKeepsInv(s, programs, events[0]);
      RunKeepsSystemInv(Advance(s, events[0]), programs, events[1..]);
    }
  }

  lemma LaunchInv(size: nat, programs: seq<seq<AsyncMsg>>, m: Machine<AsyncMsg>, sinks: nat)
    requires Construct<AsyncMsg>(size, |programs| + 1) == Success(m)
    ensures SystemInv(Launch(m, programs, sinks), programs)
  {
    ConstructedInv(size, |programs| + 1, m);
  }

  // ----- main results, over every interleaving of the producers and the worker

  /** a can be obtained from b by leaving out elements. */
  predicate Subsequence<X(==)>(a: seq<X>, b: seq<X>) {
    a == [] || (b != []
                && (Subsequence(a, b[..|b| - 1])
                    || (a[|a| - 1] == b[|b| - 1] && Subsequence(a[..|a| - 1], b[..|b| - 1]))))
  }

  function Records(msgs: seq<AsyncMsg>): seq<LogMsg> {
    if msgs == [] then []
    else
      var last := msgs[|msgs| - 1];
      Records(msgs[..|msgs| - 1]) + (if last.msgType.Log? then [last.Fill()] else [])
  }

  /** What a thread that logs the records one after the other pushes. */
  function Messages(records: seq<LogMsg>): (r: seq<AsyncMsg>)
    ensures |r| == |records|
  {
    seq(|records|, i requires 0 <= i < |records| => AsyncMsg.Of(records[i]))
  }

  /** The records that come out of the messages of a thread are those it logged, unchanged and in order. */
  lemma {:induction false} LoggedComesOut(records: seq<LogMsg>)
    ensures Records(Messages(records)) == records
    decreases |records|
  {
    if records != [] {
      var front := records[..|records| - 1];
      LoggedComesOut(front);
      assert Messages(records)[..|records| - 1] == Messages(front);
      assert front + [records[|records| - 1]] == records;
    }
  }

  /** What a subsequence is: its elements stand in the other sequence, at ever larger places. */
  lemma {:induction false} SubsequencePlaces<X>(a: seq<X>, b: seq<X>) returns (places: seq<nat>)
    requires Subsequence(a, b)
    ensures |places| == |a| && forall i :: 0 <= i < |a| ==> places[i] < |b| && b[places[i]] == a[i]
    ensures forall i, j :: 0 <= i < j < |a| ==> places[i] < places[j]
    decreases |b|
  {
    if a == [] {
      places := [];
    } else if Subsequence(a, b[..|b| - 1]) {
      places := SubsequencePlaces(a, b[..|b| - 1]);
    } else {
      places := SubsequencePlaces(a[..|a| - 1], b[..|b| - 1]);
      places := places + [|b| - 1];
    }
  }

  /** A producer's records appear among the queue's records in its own order. */
  lemma {:induction false} ProducerSubsequence(claims: seq<Claim<AsyncMsg>>, t: nat)
    ensures Subsequence(Records(Pushed(claims, t)), Logs(claims))
  {
    if claims != [] {
      var front, last := claims[..|claims| - 1], claims[|claims| - 1];
      ProducerSubsequence(front, t);
      assert claims == front + [last];
      var a, b := Records(Pushed(front, t)), Logs(front);
      var x := [last.v.Fill()];
      assert Logs(claims) == if last.v.msgType.Log? then b + x else b;
      assert Records(Pushed(claims, t)) == if last.owner == t && last.v.msgType.Log? then a + x else a by {
        assert (Pushed(front, t) + [last.v])[..|Pushed(front, t)|] == Pushed(front, t);
        assert Pushed(claims, t) == if last.owner == t then Pushed(front, t) + [last.v] else Pushed(front, t);
      }
      assert (a + x)[..|a|] == a && (b + x)[..|b|] == b;
    }
  }

  /**
   When the worker has exited, a terminate message was dequeued; every sink holds in queue order
   exactly the records among the first n messages of the queue, where n lies beyond that terminate
   message, hence each producer's records up to there, complete and in its program order; and
   every sink was flushed after its last record.
   */
  lemma DeliveryAndFlushBeforeExit(size: nat, programs: seq<seq<AsyncMsg>>, m: Machine<AsyncMsg>, sinks: nat, events: seq<Event>)
    returns (n: nat)
    requires Construct<AsyncMsg>(size, |programs| + 1) == Success(m)
    requires Run(Launch(m, programs, sinks), events).worker.Exited?
    ensures
      var s := Run(Launch(m, programs, sinks), events);
      && n <= |s.q.h.claims| && HasTerminate(s.q.h.claims[..n])
      && forall j :: 0 <= j < |s.sinks| ==>
           && s.sinks[j].received == Logs(s.q.h.claims[..n])
           && s.sinks[j].flushed == |s.sinks[j].received|
           && forall t :: 0 <= t < |programs| ==>
                Subsequence(Records(Pushed(s.q.h.claims[..n], t)), s.sinks[j].received)
  {
    LaunchInv(size, programs, m, sinks);
    RunKeepsSystemInv(Launch(m, programs, sinks), programs, events);
    var s := Run(Launch(m, programs, sinks), events);
    n := Handled(s);
    forall t | 0 <= t < |programs| ensures Subsequence(Records(Pushed(s.q.h.claims[..n], t)), Logs(s.q.h.claims[..n])) {
      ProducerSubsequence(s.q.h.claims[..n], t);
    }
  }

  /**
   At every moment each sink holds the records of a prefix of the queue, and the queue holds each
   producer's messages intact and in its program order, whatever retries they went through.
   */
  lemma OrderKept(size: nat, programs: seq<seq<AsyncMsg>>, m: Machine<AsyncMsg>, sinks: nat, events: seq<Event>)
    requires Construct<AsyncMsg>(size, |programs| + 1) == Success(m)
    ensures
      var s := Run(Launch(m, programs, sinks), events);
      && (forall j :: 0 <= j < |s.sinks| ==>
            exists n :: 0 <= n <= |s.q.h.claims| && s.sinks[j].received == Logs(s.q.h.claims[..n]))
      && (forall t :: 0 <= t < |programs| ==> Pushed(s.q.h.claims, t) <= programs[t])
  {
    LaunchInv(size, programs, m, sinks);
    RunKeepsSystemInv(Launch(m, programs, sinks), programs, events);
    var s := Run(Launch(m, programs, sinks), events);
    forall t | 0 <= t < |programs| ensures Pushed(s.q.h.claims, t) <= programs[t] {
      assert OnProgram(s, t, programs[t]);
    }
  }

  // ----- what a finished producer can rely on

  lemma QueueStepGrows(s: System, a: Action<AsyncMsg>)
    requires Shape(s)
    ensures s.q.h.claims <= QueueStep(s, a).q.h.claims
  {
  }

  /** The queue's order is only ever extended. */
  lemma AdvanceGrows(s: System, e: Event)
    requires Shape(s)
    ensures s.q.h.claims <= Advance(s, e).q.h.claims
  {
    hide QueueStep;
    match e
    case Produce(t, spurious) =>
      if t < |s.pending| { QueueStepGrows(s, PushAction(s, t, spurious)); }
    case Work(spurious, due) =>
      QueueStepGrows(s, CallDequeue(|s.pending|));
      QueueStepGrows(s, Tick(|s.pending|, spurious));
  }

  lemma {:induction false} RunGrows(s: System, events: seq<Event>)
    requires Shape(s)
    ensures s.q.h.claims <= Run(s, events).q.h.claims
    decreases |events|
  {
    hide Advance;
    if events != [] {
      AdvanceGrows(s, events[0]);
      RunGrows(Advance(s, events[0]), events[1..]);
    }
  }

  lemma {:induction false} RunConcat(s: System, a: seq<Event>, b: seq<Event>)
    requires Shape(s)
    ensures Run(s, a + b) == Run(Run(s, a), b)
    decreases |a|
  {
    hide Advance;
    if a == [] {
      assert a + b == b;
    } else {
      assert (a + b)[0] == a[0] && (a + b)[1..] == a[1..] + b;
      RunConcat(Advance(s, a[0]), a[1..], b);
    }
  }

  lemma {:induction false} PushedGrows(a: seq<Claim<AsyncMsg>>, b: seq<Claim<AsyncMsg>>, t: nat)
    requires a <= b
    ensures Pushed(a, t) <= Pushed(b, t)
    decreases |b|
  {
    if |a| < |b| {
      PushedGrows(a, b[..|b| - 1], t);
    } else {
      assert a == b;
    }
  }

  /** A terminate message among the first n of an order that extends one without puts n beyond that one. */
  lemma TerminateComesLater(before: seq<Claim<AsyncMsg>>, claims: seq<Claim<AsyncMsg>>, n: nat)
    requires before <= claims && n <= |claims| && !HasTerminate(before) && HasTerminate(claims[..n])
    ensures before <= claims[..n]
  {
    var p :| 0 <= p < n && claims[..n][p].v.msgType.Terminate?;
    if p < |before| { TerminateKept(before, claims, p); }
  }

  lemma TerminateKept(before: seq<Claim<AsyncMsg>>, claims: seq<Claim<AsyncMsg>>, p: nat)
    requires before <= claims && p < |before| && claims[p].v.msgType.Terminate?
    ensures HasTerminate(before)
  {
    assert before[p] == claims[p];
  }

  /**
   A producer that has got its whole program into the queue before any terminate message finds all its
   records, in order, in every sink when the worker has exited, and every sink flushed after them.
   */
  lemma FinishedProducerDelivered(size: nat, programs: seq<seq<AsyncMsg>>, m: Machine<AsyncMsg>, sinks: nat,
                                  early: seq<Event>, late: seq<Event>, t: nat)
    requires Construct<AsyncMsg>(size, |programs| + 1) == Success(m) && t < |programs|
    requires var s := Run(Launch(m, programs, sinks), early);
             s.pending[t] == [] && InHand(s.q.m.threads[t]) == [] && !HasTerminate(s.q.h.claims)
    requires Run(Launch(m, programs, sinks), early + late).worker.Exited?
    ensures var s := Run(Launch(m, programs, sinks), early + late);
            forall j :: 0 <= j < |s.sinks| ==>
              Subsequence(Records(programs[t]), s.sinks[j].received) && s.sinks[j].flushed == |s.sinks[j].received|
  {
    hide Run, Subsequence, Records, SystemInv, Construct;
    var launched := Launch(m, programs, sinks);
    LaunchInv(size, programs, m, sinks);
    LaunchShape(launched, programs);
    RunConcat(launched, early, late);
    var s0, s := Run(launched, early), Run(launched, early + late);
    RunGrows(s0, late);
    WholeProgram(size, programs, m, sinks, early, t);
    var n := DeliveryAndFlushBeforeExit(size, programs, m, sinks, early + late);
    var claims := s.q.h.claims;
    OrderKept(size, programs, m, sinks, early + late);
    TerminateComesLater(s0.q.h.claims, claims, n);
    PushedGrows(s0.q.h.claims, claims[..n], t);
    PushedGrows(claims[..n], claims, t);
    assert Pushed(claims[..n], t) == programs[t];
  }

  lemma LaunchShape(s: System, programs: seq<seq<AsyncMsg>>)
    requires SystemInv(s, programs)
    ensures Shape(s)
  {
  }

  lemma WholeProgram(size: nat, programs: seq<seq<AsyncMsg>>, m: Machine<AsyncMsg>, sinks: nat, events: seq<Event>, t: nat)
    requires Construct<AsyncMsg>(size, |programs| + 1) == Success(m) && t < |programs|
    requires var s := Run(Launch(m, programs, sinks), events); s.pending[t] == [] && InHand(s.q.m.threads[t]) == []
    ensures Pushed(Run(Launch(m, programs, sinks), events).q.h.claims, t) == programs[t]
  {
    LaunchInv(size, programs, m, sinks);
    RunKeepsSystemInv(Launch(m, programs, sinks), programs, events);
    assert OnProgram(Run(Launch(m, programs, sinks), events), t, programs[t]);
  }

  // ----- a producer makes progress by itself

  function Solo(t: nat, n: nat): seq<Event> {
    if n == 0 then [] else [Produce(t, false)] + Solo(t, n - 1)
  }

  /** What producer t is going to put into the queue next. */
  function Upcoming(s: System, t: nat): seq<AsyncMsg>
    requires t < |s.pending| < |s.q.m.threads|
  {
    InHand(s.q.m.threads[t]) + s.pending[t]
  }

  /** How many of its own steps a producer needs to claim the tail when nobody interferes. */
  function StepsToClaim(pc: Pc<AsyncMsg>, tail: nat): nat {
    match pc
    case EnqWrite(_, _) => 6
    case EnqPublish(_) => 5
    case EnqLoadPos(_) => 3
    case EnqLoadSeq(_, pos) => if pos == tail then 2 else 4
    case EnqCas(_, pos) => if pos == tail then 1 else 3
    case _ => 4
  }

  ghost predicate Room(c: Config<AsyncMsg>) {
    !Occupied(c, c.m.enqPos - |c.m.cells|)
  }

  /** One step towards the claim, or the claim itself. */
  lemma SoloQueueStep(c: Config<AsyncMsg>, t: nat, a: Action<AsyncMsg>)
    requires Inv(c) && t < |c.m.threads| && Enqueues(c.m.threads[t]) && Room(c)
    requires if c.m.threads[t].AtRest() then a.CallEnqueue? && a.t == t else a == Tick(t, false)
    ensures var pc, d := c.m.threads[t], Next(c, a);
            if StepsToClaim(pc, c.m.enqPos) == 1 then pc.EnqCas? && d.h.claims == c.h.claims + [Claim(t, pc.v)]
            else
              && StepsToClaim(d.m.threads[t], d.m.enqPos) < StepsToClaim(pc, c.m.enqPos)
              && d.h.claims == c.h.claims && InHand(d.m.threads[t]) == HandAt(pc, a)
  {
    assert ThreadInv(c, t);
    var pc := c.m.threads[t];
    if pc.EnqLoadSeq? { EnqueueFalseIsHonest(c, t, pc.v, pc.pos, false); }
  }

  lemma RoomStays(c: Config<AsyncMsg>, t: nat, a: Action<AsyncMsg>)
    requires Inv(c) && t < |c.m.threads| && Enqueues(c.m.threads[t]) && Room(c) && a.t == t && !a.CallDequeue?
    requires Next(c, a).h.claims == c.h.claims
    ensures Room(Next(c, a))
  {
    assert ThreadInv(c, t);
    StepKeepsInv(c, a);
  }

  lemma SoloStep(s: System, programs: seq<seq<AsyncMsg>>, t: nat)
    requires SystemInv(s, programs) && t < |s.pending| && Upcoming(s, t) != [] && Room(s.q)
    ensures var r := ProduceStep(s, t, false);
            if StepsToClaim(s.q.m.threads[t], s.q.m.enqPos) == 1 then r.q.h.claims == s.q.h.claims + [Claim(t, Upcoming(s, t)[0])]
            else
              && StepsToClaim(r.q.m.threads[t], r.q.m.enqPos) < StepsToClaim(s.q.m.threads[t], s.q.m.enqPos)
              && r.q.h.claims == s.q.h.claims && Upcoming(r, t) == Upcoming(s, t) && Room(r.q)
  {
    hide Inv, Delivered, FlushState, ProgramOrder, Next, Room;
    var a := PushAction(s, t, false);
    SoloQueueStep(s.q, t, a);
    if Next(s.q, a).h.claims == s.q.h.claims { RoomStays(s.q, t, a); }
  }

  /**
   A producer needs nobody else: from any state of the system, when the slot at the tail is free, at most six steps
   of the producer alone put its next message into the queue.
   */
  lemma {:induction false} ProducesAlone(s: System, programs: seq<seq<AsyncMsg>>, t: nat) returns (n: nat)
    requires SystemInv(s, programs) && t < |s.pending| && Upcoming(s, t) != [] && Room(s.q)
    ensures n <= 6 && Run(s, Solo(t, n)).q.h.claims == s.q.h.claims + [Claim(t, Upcoming(s, t)[0])]
    ensures n <= StepsToClaim(s.q.m.threads[t], s.q.m.enqPos)
    decreases StepsToClaim(s.q.m.threads[t], s.q.m.enqPos)
  {
    var r := ProduceStep(s, t, false);
    SoloStep(s, programs, t);
    if StepsToClaim(s.q.m.threads[t], s.q.m.enqPos) == 1 {
      n := 1;
      assert Solo(t, 1) == [Produce(t, false)] && Solo(t, 1)[1..] == [];
    } else {
      AdvanceKeepsInv(s, programs, Produce(t, false));
      n := ProducesAlone(r, programs, t);
      assert Solo(t, n + 1)[1..] == Solo(t, n);
      n := n + 1;
    }
  }
}
