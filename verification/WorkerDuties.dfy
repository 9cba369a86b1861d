/**
 What the worker of the asynchronous logger owes its callers: a flush asked for is done at the next empty
 poll, nothing already queued is left behind at the end, and all of it within a bounded number of its steps.
 */
module WorkerDuties {
  import opened Wrappers
  import opened MpmcQueue
  import opened AsyncLog

  /** The worker's last poll of the queue came back empty. */
  ghost predicate PolledEmpty(s: System)
    requires Shape(s)
  {
    s.q.m.threads[|s.pending|].DeqFalse?
  }

  /** Every sink has been flushed behind the records among the first p messages of the queue. */
  ghost predicate FlushedPast(s: System, p: nat) {
    p <= |s.q.h.claims| && forall j :: 0 <= j < |s.sinks| ==> s.sinks[j].flushed >= |Logs(s.q.h.claims[..p])|
  }

  /** A message at position p that the worker has looked at asked for a flush. */
  ghost predicate Asked(s: System, p: nat)
    requires Shape(s)
  {
    p < Handled(s) && p < |s.q.h.claims| && !s.q.h.claims[p].v.msgType.Log?
  }

  ghost predicate FlushesKept(s: System)
    requires Shape(s)
  {
    && (forall p :: Asked(s, p) && !s.flushRequested && !s.worker.Flushing? ==> FlushedPast(s, p))
    && (forall j :: 0 <= j < |s.sinks| ==> s.sinks[j].flushed <= |s.sinks[j].received|)
  }

  /** The only consumer: what it loaded of the head is never stale. It flushes and exits only on an empty queue. */
  ghost predicate Alone(s: System)
    requires Shape(s)
  {
    var pc := s.q.m.threads[|s.pending|];
    && (pc.DeqLoadSeq? || pc.DeqCas? ==> pc.pos == s.q.m.deqPos)
    && (s.worker.Flushing? || s.worker.Exited? ==> PolledEmpty(s))
  }

  ghost predicate DutyInv(s: System, programs: seq<seq<AsyncMsg>>) {
    SystemInv(s, programs) && FlushesKept(s) && Alone(s)
  }

  // ----- the invariant holds on every run

  lemma {:induction false} LogsGrow(claims: seq<Claim<AsyncMsg>>, p: nat, n: nat)
    requires p <= n <= |claims|
    ensures Logs(claims[..p]) <= Logs(claims[..n])
    decreases n - p
  {
    if p < n {
      LogsGrow(claims, p, n - 1);
      LogsSnoc(claims, n - 1);
    }
  }

  /** Everything the sinks hold was flushed; so were the records in front of every message looked at. */
  lemma AllFlushed(s: System, programs: seq<seq<AsyncMsg>>, p: nat)
    requires SystemInv(s, programs) && !s.worker.Logging? && p <= Handled(s)
    requires forall j :: 0 <= j < |s.sinks| ==> s.sinks[j].flushed == |s.sinks[j].received|
    ensures FlushedPast(s, p)
  {
    LogsGrow(s.q.h.claims, p, Handled(s));
  }

  lemma PrefixOfLonger(a: seq<Claim<AsyncMsg>>, b: seq<Claim<AsyncMsg>>, p: nat)
    requires a <= b && p <= |a|
    ensures a[..p] == b[..p]
  {
  }

  lemma AskedBefore(s: System, r: System, p: nat)
    requires Shape(s) && Shape(r) && s.q.h.claims <= r.q.h.claims && Handled(s) == Handled(r) <= |s.q.h.claims|
    ensures Asked(r, p) <==> Asked(s, p)
    ensures p <= |s.q.h.claims| && r.sinks == s.sinks ==> (FlushedPast(r, p) <==> FlushedPast(s, p))
  {
    if p <= |s.q.h.claims| { PrefixOfLonger(s.q.h.claims, r.q.h.claims, p); }
  }

  lemma ProduceKeepsDuty(s: System, programs: seq<seq<AsyncMsg>>, t: nat, spurious: bool)
    requires DutyInv(s, programs) && t < |s.pending|
    ensures var r := ProduceStep(s, t, spurious);
            && DutyInv(r, programs) && Handled(r) == Handled(s) && s.q.h.claims <= r.q.h.claims
            && r.q.m.deqPos == s.q.m.deqPos && r.q.m.threads[|s.pending|] == s.q.m.threads[|s.pending|]
  {
    var r := ProduceStep(s, t, spurious);
    AdvanceKeepsInv(s, programs, Produce(t, spurious));
    ProducerQueueStep(s.q, t, PushAction(s, t, spurious));
    forall p | Asked(r, p) && !r.flushRequested && !r.worker.Flushing? ensures FlushedPast(r, p) {
      AskedBefore(s, r, p);
    }
  }

  /** The worker polls the queue. */
  lemma PollKeepsDuty(s: System, programs: seq<seq<AsyncMsg>>, a: Action<AsyncMsg>)
    requires DutyInv(s, programs) && a.t == |s.pending|
    requires (s.worker.Ready? && a.CallDequeue?) || (s.worker.InDequeue? && a.Tick? && !s.q.m.threads[a.t].AtRest())
    ensures var r := QueueStep(s, a).(worker := InDequeue);
            DutyInv(r, programs) && Handled(r) == Handled(s) && r.q.h.claims == s.q.h.claims
  {
    var r := QueueStep(s, a).(worker := InDequeue);
    WorkerPollKeepsInv(s, programs, a);
    WorkerQueueStep(s.q, |s.pending|, a);
    forall p | Asked(r, p) && !r.flushRequested && !r.worker.Flushing? ensures FlushedPast(r, p) {
      AskedBefore(s, r, p);
    }
  }

  /** The worker looks at what it dequeued. */
  lemma DispatchKeepsDuty(s: System, programs: seq<seq<AsyncMsg>>, spurious: bool, due: bool)
    requires DutyInv(s, programs) && s.worker.InDequeue? && s.q.m.threads[|s.pending|].DeqTrue?
    ensures var r := WorkStep(s, spurious, due);
            && DutyInv(r, programs) && Handled(r) == Handled(s) + 1 && r.q == s.q
            && (r.worker.Ready? || (r.worker.Logging? && r.worker.k == 0))
  {
    var r := WorkStep(s, spurious, due);
    WorkKeepsInv(s, programs, spurious, due);
    assert ThreadInv(s.q, |s.pending|);
    assert Handled(r) == Handled(s) + 1;
    forall p | Asked(r, p) && !r.flushRequested && !r.worker.Flushing? ensures FlushedPast(r, p) {
      assert Asked(s, p);
    }
  }

  /** The worker logs, flushes, or draws the conclusion from an empty queue. */
  lemma SinkKeepsDuty(s: System, programs: seq<seq<AsyncMsg>>, spurious: bool, due: bool)
    requires DutyInv(s, programs)
    requires s.worker.Logging? || s.worker.Flushing? || (s.worker.InDequeue? && PolledEmpty(s))
    ensures var r := WorkStep(s, spurious, due);
            DutyInv(r, programs) && Handled(r) == Handled(s) && r.q == s.q && r.terminateRequested == s.terminateRequested
  {
    hide Inv, ProgramOrder, Logs;
    var r := WorkStep(s, spurious, due);
    WorkKeepsInv(s, programs, spurious, due);
    assert Handled(r) == Handled(s);
    forall p | Asked(r, p) && !r.flushRequested && !r.worker.Flushing? ensures FlushedPast(r, p) {
      if s.worker.Flushing? { AllFlushed(r, programs, p); } else { assert Asked(s, p); }
    }
  }

  lemma WorkKeepsDuty(s: System, programs: seq<seq<AsyncMsg>>, spurious: bool, due: bool)
    requires DutyInv(s, programs)
    ensures DutyInv(WorkStep(s, spurious, due), programs)
  {
    hide Inv, Delivered, FlushState, ProgramOrder, FlushesKept, Next;
    var w := |s.pending|;
    if s.worker.Ready? { PollKeepsDuty(s, programs, CallDequeue(w)); }
    else if s.worker.InDequeue? && s.q.m.threads[w].DeqTrue? { DispatchKeepsDuty(s, programs, spurious, due); }
    else if s.worker.InDequeue? && !PolledEmpty(s) { PollKeepsDuty(s, programs, Tick(w, spurious)); }
    else if !s.worker.Exited? { SinkKeepsDuty(s, programs, spurious, due); }
  }

  lemma AdvanceKeepsDuty(s: System, programs: seq<seq<AsyncMsg>>, e: Event)
    requires DutyInv(s, programs)
    ensures DutyInv(Advance(s, e), programs)
  {
    match e
    case Work(spurious, due) => WorkKeepsDuty(s, programs, spurious, due);
    case Produce(t, spurious) => if t < |s.pending| { ProduceKeepsDuty(s, programs, t, spurious); }
  }

  lemma {:induction false} RunKeepsDuty(s: System, programs: seq<seq<AsyncMsg>>, events: seq<Event>)
    requires DutyInv(s, programs)
    ensures DutyInv(Run(s, events), programs)
    decreases |events|
  {
    hide FlushesKept, Alone, Advance;
    if events != [] {
      AdvanceKeepsDuty(s, programs, events[0]);
      RunKeepsDuty(Advance(s, events[0]), programs, events[1..]);
    }
  }

  lemma LaunchDuty(size: nat, programs: seq<seq<AsyncMsg>>, m: Machine<AsyncMsg>, sinks: nat)
    requires Construct<AsyncMsg>(size, |programs| + 1) == Success(m)
    ensures DutyInv(Launch(m, programs, sinks), programs)
  {
    LaunchInv(size, programs, m, sinks);
  }

  // ----- a flush asked for is done

  /** How many steps the worker makes among the events. */
  function Works(events: seq<Event>): nat {
    if events == [] then 0 else (if events[0].Work? then 1 else 0) + Works(events[1..])
  }

  /** Behind the first p messages every sink is flushed, or will be within r more steps of the worker. */
  ghost predicate FlushWithin(s: System, p: nat, r: int)
    requires Shape(s)
  {
    || FlushedPast(s, p)
    || (s.worker.InDequeue? && PolledEmpty(s) && s.flushRequested && |s.sinks| + 1 <= r)
    || (s.worker.Flushing? && s.worker.k <= |s.sinks| && |s.sinks| - s.worker.k <= r)
  }

  lemma FlushedStays(s: System, programs: seq<seq<AsyncMsg>>, e: Event, p: nat)
    requires DutyInv(s, programs) && FlushedPast(s, p)
    ensures FlushedPast(Advance(s, e), p)
  {
    hide Inv, ThreadsInRole, Delivered, FlushState, ProgramOrder, Alone, Next;
    AdvanceGrows(s, e);
    PrefixOfLonger(s.q.h.claims, Advance(s, e).q.h.claims, p);
  }

  /** The last sink in the round has been flushed. */
  lemma RoundComplete(s: System, programs: seq<seq<AsyncMsg>>, p: nat)
    requires DutyInv(s, programs) && p <= Handled(s) && s.worker.Flushing? && s.worker.k >= |s.sinks|
    ensures FlushedPast(s, p)
  {
    AllFlushed(s, programs, p);
  }

  lemma FlushComesNearer(s: System, programs: seq<seq<AsyncMsg>>, e: Event, p: nat, r: int)
    requires DutyInv(s, programs) && p <= Handled(s) && FlushWithin(s, p, r)
    ensures Handled(Advance(s, e)) >= Handled(s)
    ensures FlushWithin(Advance(s, e), p, if e.Work? then r - 1 else r)
  {
    hide Inv, ThreadsInRole, Delivered, FlushState, ProgramOrder, FlushesKept, Next, FlushedPast, ProduceStep;
    if s.worker.Flushing? && s.worker.k >= |s.sinks| { RoundComplete(s, programs, p); }
    if FlushedPast(s, p) { FlushedStays(s, programs, e, p); }
    HandledGrows(s, programs, e);
    if e.Produce? && e.t < |s.pending| { ProduceKeepsDuty(s, programs, e.t, e.spurious); ProduceOnlyQueues(s, e.t, e.spurious); }
  }

  lemma ProduceOnlyQueues(s: System, t: nat, spurious: bool)
    requires Shape(s) && t < |s.pending|
    ensures ProduceStep(s, t, spurious) == s.(q := ProduceStep(s, t, spurious).q, pending := ProduceStep(s, t, spurious).pending)
  {
  }

  lemma HandledGrows(s: System, programs: seq<seq<AsyncMsg>>, e: Event)
    requires DutyInv(s, programs)
    ensures Handled(s) <= Handled(Advance(s, e)) <= Handled(s) + 1
  {
    hide Inv, Delivered, FlushState, ProgramOrder, FlushesKept, Next, Handled;
    match e
    case Produce(t, spurious) => if t < |s.pending| { ProduceKeepsDuty(s, programs, t, spurious); }
    case Work(spurious, due) =>
      if s.worker.Ready? { PollKeepsDuty(s, programs, CallDequeue(|s.pending|)); }
      else if s.worker.InDequeue? && s.q.m.threads[|s.pending|].DeqTrue? { DispatchKeepsDuty(s, programs, spurious, due); }
      else if s.worker.InDequeue? && !PolledEmpty(s) { PollKeepsDuty(s, programs, Tick(|s.pending|, spurious)); }
      else if !s.worker.Exited? { SinkKeepsDuty(s, programs, spurious, due); }
  }

  lemma {:induction false} FlushArrives(s: System, programs: seq<seq<AsyncMsg>>, events: seq<Event>, p: nat, r: int)
    requires DutyInv(s, programs) && p <= Handled(s) && FlushWithin(s, p, r) && r <= Works(events)
    ensures FlushedPast(Run(s, events), p)
    decreases |events|
  {
    hide Inv, ThreadsInRole, Delivered, FlushState, ProgramOrder, FlushesKept, Advance, FlushedPast, Handled;
    if events == [] {
      if !FlushedPast(s, p) { RoundComplete(s, programs, p); }
    } else {
      FlushComesNearer(s, programs, events[0], p, r);
      AdvanceKeepsDuty(s, programs, events[0]);
      FlushArrives(Advance(s, events[0]), programs, events[1..], p, if events[0].Work? then r - 1 else r);
    }
  }

  /**
   A flush is never forgotten: on every run, once the worker has looked at a message that asks for one, the
   flush is still owed or going on, or every sink has been flushed behind all records queued before that message.
   */
  lemma FlushNeverForgotten(size: nat, programs: seq<seq<AsyncMsg>>, m: Machine<AsyncMsg>, sinks: nat, events: seq<Event>, p: nat)
    requires Construct<AsyncMsg>(size, |programs| + 1) == Success(m)
    requires Asked(Run(Launch(m, programs, sinks), events), p)
    ensures var s := Run(Launch(m, programs, sinks), events);
            s.flushRequested || s.worker.Flushing? || FlushedPast(s, p)
  {
    LaunchDuty(size, programs, m, sinks);
    RunKeepsDuty(Launch(m, programs, sinks), programs, events);
  }

  /**
   A flush comes with the next empty poll: when the queue has answered "empty" after a message that asks for
   a flush, |sinks| + 1 more steps of the worker, among any steps of the producers, flush every sink behind all
   records queued before that message. What counts as flushed is really there.
   */
  lemma EmptyPollFlushes(size: nat, programs: seq<seq<AsyncMsg>>, m: Machine<AsyncMsg>, sinks: nat,
                         early: seq<Event>, late: seq<Event>, p: nat)
    requires Construct<AsyncMsg>(size, |programs| + 1) == Success(m)
    requires var s := Run(Launch(m, programs, sinks), early); s.worker.InDequeue? && PolledEmpty(s) && Asked(s, p)
    requires Works(late) >= sinks + 1
    ensures var s := Run(Run(Launch(m, programs, sinks), early), late);
            && p < |s.q.h.claims|
            && forall j :: 0 <= j < |s.sinks| ==>
                 && s.sinks[j].flushed <= |s.sinks[j].received|
                 && Logs(s.q.h.claims[..p]) <= s.sinks[j].received[..s.sinks[j].flushed]
  {
    LaunchDuty(size, programs, m, sinks);
    RunKeepsDuty(Launch(m, programs, sinks), programs, early);
    var s := Run(Launch(m, programs, sinks), early);
    SinksStay(Launch(m, programs, sinks), early);
    FlushArrives(s, programs, late, p, sinks + 1);
    RunKeepsDuty(s, programs, late);
    RunHandles(s, programs, late);
    FlushedIsReceived(Run(s, late), programs, p);
  }

  lemma {:induction false} RunHandles(s: System, programs: seq<seq<AsyncMsg>>, events: seq<Event>)
    requires DutyInv(s, programs)
    ensures Handled(s) <= Handled(Run(s, events))
    decreases |events|
  {
    hide Inv, ThreadsInRole, Delivered, FlushState, ProgramOrder, FlushesKept, Advance, Handled;
    if events != [] {
      HandledGrows(s, programs, events[0]);
      AdvanceKeepsDuty(s, programs, events[0]);
      RunHandles(Advance(s, events[0]), programs, events[1..]);
    }
  }

  lemma SinksGrow(s: System, e: Event)
    requires Shape(s)
    ensures var r := Advance(s, e);
            |r.sinks| == |s.sinks| && forall j :: 0 <= j < |s.sinks| ==> s.sinks[j].received <= r.sinks[j].received
  {
    hide Next;
    if e.Produce? && e.t < |s.pending| { ProduceOnlyQueues(s, e.t, e.spurious); }
  }

  lemma {:induction false} SinksStay(s: System, events: seq<Event>)
    requires Shape(s)
    ensures |Run(s, events).sinks| == |s.sinks|
    decreases |events|
  {
    hide Advance;
    if events != [] {
      SinksGrow(s, events[0]);
      SinksStay(Advance(s, events[0]), events[1..]);
    }
  }

  lemma FlushedIsReceived(s: System, programs: seq<seq<AsyncMsg>>, p: nat)
    requires DutyInv(s, programs) && p < Handled(s) && FlushedPast(s, p)
    ensures forall j :: 0 <= j < |s.sinks| ==>
              && s.sinks[j].flushed <= |s.sinks[j].received|
              && Logs(s.q.h.claims[..p]) <= s.sinks[j].received[..s.sinks[j].flushed]
  {
    LogsGrow(s.q.h.claims, p, Handled(s));
    LogsGrow(s.q.h.claims, p, Handled(s) - 1);
  }

  /**
   The periodic flush: an empty poll with the interval over leads, |sinks| steps later, to sinks flushed behind
   everything handled.
   */
  lemma IntervalFlushes(s: System, programs: seq<seq<AsyncMsg>>, spurious: bool, late: seq<Event>)
    requires DutyInv(s, programs) && s.worker.InDequeue? && PolledEmpty(s) && Works(late) >= |s.sinks|
    ensures FlushedPast(Run(Advance(s, Work(spurious, true)), late), Handled(s))
  {
    var r := Advance(s, Work(spurious, true));
    AdvanceKeepsDuty(s, programs, Work(spurious, true));
    assert Handled(r) == Handled(s);
    FlushArrives(r, programs, late, Handled(s), |s.sinks|);
  }

  /** Nothing is flushed unasked: without a due interval and with nothing but log records handled, no sink is flushed. */
  ghost predicate Unflushed(s: System)
    requires Shape(s)
  {
    && !s.flushRequested && !s.terminateRequested && !s.worker.Flushing?
    && forall j :: 0 <= j < |s.sinks| ==> s.sinks[j].flushed == 0
  }

  ghost predicate OnlyLogs(s: System)
    requires Shape(s)
  {
    forall p :: 0 <= p < |s.q.h.claims| ==> s.q.h.claims[p].v.msgType.Log?
  }

  lemma StaysUnflushed(s: System, programs: seq<seq<AsyncMsg>>, e: Event)
    requires DutyInv(s, programs) && Unflushed(s) && OnlyLogs(Advance(s, e)) && !(e.Work? && e.due)
    ensures Unflushed(Advance(s, e)) && OnlyLogs(s)
  {
    hide Inv, FlushState, ProgramOrder, FlushesKept;
    AdvanceGrows(s, e);
    OnlyLogsBefore(s, Advance(s, e));
    if e.Produce? && e.t < |s.pending| { ProduceOnlyQueues(s, e.t, e.spurious); }
    if s.worker.InDequeue? && s.q.m.threads[|s.pending|].DeqTrue? { LooksAtClaim(s); }
  }

  lemma OnlyLogsBefore(s: System, r: System)
    requires Shape(s) && Shape(r) && s.q.h.claims <= r.q.h.claims && OnlyLogs(r)
    ensures OnlyLogs(s)
  {
    forall p | 0 <= p < |s.q.h.claims| ensures s.q.h.claims[p].v.msgType.Log? { assert s.q.h.claims[p] == r.q.h.claims[p]; }
  }

  lemma LooksAtClaim(s: System)
    requires Shape(s) && Inv(s.q) && s.q.m.threads[|s.pending|].DeqTrue?
    ensures var pc := s.q.m.threads[|s.pending|];
            pc.pos < |s.q.h.claims| && pc.got == Some(s.q.h.claims[pc.pos].v)
  {
    assert ThreadInv(s.q, |s.pending|);
  }

  lemma {:induction false} NoFlushUnasked(s: System, programs: seq<seq<AsyncMsg>>, events: seq<Event>)
    requires DutyInv(s, programs) && Unflushed(s) && OnlyLogs(Run(s, events))
    requires forall i :: 0 <= i < |events| && events[i].Work? ==> !events[i].due
    ensures Unflushed(Run(s, events))
    decreases |events|
  {
    hide Inv, ThreadsInRole, Delivered, FlushState, ProgramOrder, FlushesKept, Alone, Advance, Unflushed;
    if events != [] {
      var next := Advance(s, events[0]);
      RunGrows(next, events[1..]);
      OnlyLogsBefore(next, Run(next, events[1..]));
      StaysUnflushed(s, programs, events[0]);
      AdvanceKeepsDuty(s, programs, events[0]);
      NoFlushUnasked(next, programs, events[1..]);
    }
  }

  // ----- the end of the worker

  /** The worker exits within r more of its steps. */
  ghost predicate ExitWithin(s: System, r: int)
    requires Shape(s)
  {
    || s.worker.Exited?
    || (s.terminateRequested && s.flushRequested && s.worker.InDequeue? && PolledEmpty(s) && |s.sinks| + 2 <= r)
    || (s.terminateRequested && s.worker.Flushing? && s.worker.k <= |s.sinks| && |s.sinks| - s.worker.k + 1 <= r)
  }

  lemma {:induction false} ExitArrives(s: System, events: seq<Event>, r: int)
    requires Shape(s) && ExitWithin(s, r) && r <= Works(events)
    ensures Run(s, events).worker.Exited?
    decreases |events|
  {
    if events != [] {
      ExitComesNearer(s, events[0], r);
      hide ExitWithin, Advance;
      ExitArrives(Advance(s, events[0]), events[1..], if events[0].Work? then r - 1 else r);
    }
  }

  lemma ExitComesNearer(s: System, e: Event, r: int)
    requires Shape(s) && ExitWithin(s, r)
    ensures ExitWithin(Advance(s, e), if e.Work? then r - 1 else r)
  {
    if e.Produce? && e.t < |s.pending| { OthersKeepPc(s, e.t, e.spurious); }
  }

  lemma OthersKeepPc(s: System, t: nat, spurious: bool)
    requires Shape(s) && t < |s.pending|
    ensures ProduceStep(s, t, spurious).q.m.threads[|s.pending|] == s.q.m.threads[|s.pending|]
  {
  }

  /**
   Termination is honoured: when the queue has answered "empty" after a terminate message was handled, |sinks| + 2
   more steps of the worker, among any steps of the producers, end it.
   */
  lemma EmptyPollTerminates(size: nat, programs: seq<seq<AsyncMsg>>, m: Machine<AsyncMsg>, sinks: nat,
                            early: seq<Event>, late: seq<Event>)
    requires Construct<AsyncMsg>(size, |programs| + 1) == Success(m)
    requires var s := Run(Launch(m, programs, sinks), early);
             && s.worker.InDequeue? && PolledEmpty(s) && 0 <= Handled(s) <= |s.q.h.claims|
             && HasTerminate(s.q.h.claims[..Handled(s)])
    requires Works(late) >= sinks + 2
    ensures Run(Run(Launch(m, programs, sinks), early), late).worker.Exited?
  {
    LaunchDuty(size, programs, m, sinks);
    RunKeepsDuty(Launch(m, programs, sinks), programs, early);
    SinksStay(Launch(m, programs, sinks), early);
    ExitArrives(Run(Launch(m, programs, sinks), early), late, sinks + 2);
  }

  // ----- nothing already queued is left behind, and it is served in bounded time

  /** The worker is still going to look at position p: every message from the head up to there is ready to be read. */
  ghost predicate Coming(s: System, p: nat)
    requires Shape(s)
  {
    && Handled(s) <= p
    && (forall q :: s.q.m.deqPos <= q <= p ==> Available(s.q, q))
    && (s.worker.Flushing? || s.worker.Exited? || (s.worker.InDequeue? && PolledEmpty(s)) ==> !s.terminateRequested)
  }

  /** A published message stays where it is until it is taken. */
  lemma StaysAvailable(c: Config<AsyncMsg>, t: nat, a: Action<AsyncMsg>, q: int)
    requires Inv(c) && t < |c.m.threads| && Enqueues(c.m.threads[t]) && a.t == t && !a.CallDequeue?
    requires Available(c, q) && InWindow(c.m, q)
    ensures Available(Next(c, a), q)
  {
    assert ThreadInv(c, t);
    if c.m.threads[t].InCell() {
      var pos := c.m.threads[t].pos;
      if pos != q { SlotDistinct(pos, q, |c.m.cells|); }
    }
  }

  /** At most how many steps the worker is away from looking at the next message, when that is ready to be read. */
  function NextLook(s: System): nat
    requires |s.pending| < |s.q.m.threads|
  {
    var n := |s.sinks|;
    match s.worker
    case Ready => 7
    case InDequeue =>
      (match s.q.m.threads[|s.pending|]
       case DeqLoadPos => 6
       case DeqLoadSeq(_) => 5
       case DeqCas(_) => 4
       case DeqRead(_) => 3
       case DeqRelease(_, _) => 2
       case DeqTrue(_, _) => 1
       case _ => n + 9)
    case Logging(_, k) => if k < n then n - k + 8 else 8
    case Flushing(k) => if k < n then n - k + 8 else 8
    case Exited => 1
  }

  /** The same for the message at position p. */
  ghost function Distance(s: System, p: nat): int
    requires Shape(s)
  {
    NextLook(s) + (p - Handled(s)) * (|s.sinks| + 8)
  }

  function Gain(e: Event): int {
    match e
    case Produce(_, _) => 0
    case Work(spurious, _) => if spurious then -1 else 1
  }

  /** The steps of the worker; a spuriously failing compare-exchange takes one back. */
  function Credit(events: seq<Event>): int {
    if events == [] then 0 else Gain(events[0]) + Credit(events[1..])
  }

  lemma PollComesNearer(s: System, programs: seq<seq<AsyncMsg>>, a: Action<AsyncMsg>, p: nat)
    requires DutyInv(s, programs) && a.t == |s.pending| && Coming(s, p)
    requires (s.worker.Ready? && a.CallDequeue?) || (s.worker.InDequeue? && a.Tick? && !s.q.m.threads[a.t].AtRest())
    ensures var r := QueueStep(s, a).(worker := InDequeue);
            && Coming(r, p) && Handled(r) == Handled(s)
            && NextLook(r) <= NextLook(s) + if a.Tick? && a.spurious then 1 else -1
  {
    var r := QueueStep(s, a).(worker := InDequeue);
    var pc := s.q.m.threads[a.t];
    PollKeepsDuty(s, programs, a);
    WorkerQueueStep(s.q, a.t, a);
    assert ThreadInv(s.q, a.t);
    if pc.DeqLoadSeq? && a.Tick? { assert Available(s.q, pc.pos); }
    forall q | r.q.m.deqPos <= q <= p ensures Available(r.q, q) {
      assert Available(s.q, q);
      if pc.InCell() { SlotDistinct(pc.pos, q, |s.q.m.cells|); }
    }
  }

  lemma ProduceComesNoFurther(s: System, programs: seq<seq<AsyncMsg>>, t: nat, spurious: bool, p: nat)
    requires DutyInv(s, programs) && t < |s.pending| && Coming(s, p)
    ensures var r := ProduceStep(s, t, spurious);
            Coming(r, p) && Handled(r) == Handled(s) && NextLook(r) == NextLook(s)
  {
    var r := ProduceStep(s, t, spurious);
    ProduceKeepsDuty(s, programs, t, spurious);
    ProduceOnlyQueues(s, t, spurious);
    forall q | r.q.m.deqPos <= q <= p ensures Available(r.q, q) {
      StaysAvailable(s.q, t, PushAction(s, t, spurious), q);
    }
  }

  lemma OneLess(a: int, b: int, c: nat)
    requires a < b
    ensures (b - a) * c == (b - a - 1) * c + c
  {
  }

  lemma LookComesNearer(s: System, programs: seq<seq<AsyncMsg>>, spurious: bool, due: bool, p: nat)
    requires DutyInv(s, programs) && s.worker.InDequeue? && s.q.m.threads[|s.pending|].DeqTrue? && Coming(s, p)
    ensures var r := WorkStep(s, spurious, due);
            if p == Handled(s) then Handled(r) == p + 1 && (r.worker.Logging? ==> r.worker.k == 0)
            else Coming(r, p) && Distance(r, p) <= Distance(s, p) - 1
  {
    DispatchKeepsDuty(s, programs, spurious, due);
    SinksStay(s, [Work(spurious, due)]);
    OneLess(Handled(s), p + 1, |s.sinks| + 8);
    if p != Handled(s) { OneLess(Handled(s), p, |s.sinks| + 8); }
  }

  lemma SinkComesNearer(s: System, programs: seq<seq<AsyncMsg>>, spurious: bool, due: bool, p: nat)
    requires DutyInv(s, programs) && Coming(s, p)
    requires s.worker.Logging? || s.worker.Flushing? || (s.worker.InDequeue? && PolledEmpty(s))
    ensures var r := WorkStep(s, spurious, due);
            Coming(r, p) && Handled(r) == Handled(s) && NextLook(r) <= NextLook(s) - 1 && |r.sinks| == |s.sinks|
  {
    SinkKeepsDuty(s, programs, spurious, due);
  }

  /** Every step of the worker brings it nearer to a message that is ready to be read. */
  lemma ComesNearer(s: System, programs: seq<seq<AsyncMsg>>, e: Event, p: nat)
    requires DutyInv(s, programs) && Coming(s, p)
    ensures var r := Advance(s, e);
            || (Coming(r, p) && Distance(r, p) <= Distance(s, p) - Gain(e))
            || (Handled(r) == p + 1 && (r.worker.Logging? ==> r.worker.k == 0))
  {
    hide Inv, Delivered, FlushState, ProgramOrder, FlushesKept, Next, Handled, NextLook;
    match e
    case Produce(t, spurious) =>
      if t < |s.pending| {
        ProduceComesNoFurther(s, programs, t, spurious, p);
        ProduceOnlyQueues(s, t, spurious);
      }
    case Work(spurious, due) =>
      if s.worker.Ready? { PollComesNearer(s, programs, CallDequeue(|s.pending|), p); }
      else if s.worker.InDequeue? && s.q.m.threads[|s.pending|].DeqTrue? { LookComesNearer(s, programs, spurious, due, p); }
      else if s.worker.InDequeue? && !PolledEmpty(s) { PollComesNearer(s, programs, Tick(|s.pending|, spurious), p); }
      else if !s.worker.Exited? { SinkComesNearer(s, programs, spurious, due, p); }
      else { ExitedIsDone(s, programs, p); }
  }

  lemma ExitedIsDone(s: System, programs: seq<seq<AsyncMsg>>, p: nat)
    requires DutyInv(s, programs) && s.worker.Exited?
    ensures !Coming(s, p)
  {
  }

  /** Every sink has received the records among the first n messages. */
  ghost predicate AllHave(s: System, n: nat) {
    n <= |s.q.h.claims| && forall j :: 0 <= j < |s.sinks| ==> Logs(s.q.h.claims[..n]) <= s.sinks[j].received
  }

  /** Every sink has received the records up to position p, or will have within r more steps of the worker. */
  ghost predicate ServedWithin(s: System, p: nat, r: int)
    requires Shape(s)
  {
    || AllHave(s, p + 1)
    || (Coming(s, p) && Distance(s, p) + |s.sinks| <= r)
    || (Handled(s) == p + 1 && s.worker.Logging? && |s.sinks| - s.worker.k <= r)
  }

  lemma HandledIsHad(s: System, programs: seq<seq<AsyncMsg>>, p: nat)
    requires DutyInv(s, programs) && Handled(s) == p + 1 && (s.worker.Logging? ==> s.worker.k >= |s.sinks|)
    ensures AllHave(s, p + 1)
  {
  }

  lemma HadStays(s: System, e: Event, n: nat)
    requires Shape(s) && AllHave(s, n)
    ensures AllHave(Advance(s, e), n)
  {
    hide Advance, Logs;
    AdvanceGrows(s, e);
    PrefixOfLonger(s.q.h.claims, Advance(s, e).q.h.claims, n);
    SinksGrow(s, e);
  }

  lemma LoggingComesNearer(s: System, programs: seq<seq<AsyncMsg>>, e: Event, p: nat)
    requires DutyInv(s, programs) && Handled(s) == p + 1 && s.worker.Logging? && s.worker.k < |s.sinks|
    ensures var r := Advance(s, e);
            && Handled(r) == p + 1 && r.worker.Logging? && |r.sinks| == |s.sinks|
            && r.worker.k == s.worker.k + if e.Work? then 1 else 0
  {
    if e.Produce? && e.t < |s.pending| {
      ProduceKeepsDuty(s, programs, e.t, e.spurious);
      ProduceOnlyQueues(s, e.t, e.spurious);
    }
  }

  lemma ServiceComesNearer(s: System, programs: seq<seq<AsyncMsg>>, e: Event, p: nat, r: int)
    requires DutyInv(s, programs) && ServedWithin(s, p, r)
    ensures ServedWithin(Advance(s, e), p, r - Gain(e))
  {
    hide Inv, ThreadsInRole, Delivered, FlushState, ProgramOrder, FlushesKept, Alone, Coming, Handled, Advance, Distance, AllHave;
    AdvanceKeepsDuty(s, programs, e);
    SinksStay(s, [e]);
    OneEvent(s, e);
    if AllHave(s, p + 1) {
      HadStays(s, e, p + 1);
    } else if Handled(s) == p + 1 && s.worker.Logging? && |s.sinks| - s.worker.k <= r {
      if s.worker.k >= |s.sinks| { HandledIsHad(s, programs, p); }
      LoggingComesNearer(s, programs, e, p);
    } else {
      ComesNearer(s, programs, e, p);
      DistancePositive(s, p);
      if Handled(Advance(s, e)) == p + 1 && !Advance(s, e).worker.Logging? { HandledIsHad(Advance(s, e), programs, p); }
    }
  }

  lemma OneEvent(s: System, e: Event)
    requires Shape(s)
    ensures Run(s, [e]) == Advance(s, e)
  {
    assert [e][1..] == [];
  }

  lemma DistancePositive(s: System, p: nat)
    requires Shape(s) && Coming(s, p)
    ensures Distance(s, p) >= 1
  {
    assert (p - Handled(s)) * (|s.sinks| + 8) >= 0;
  }

  lemma ServiceAtLast(s: System, programs: seq<seq<AsyncMsg>>, p: nat)
    requires DutyInv(s, programs) && ServedWithin(s, p, 0)
    ensures AllHave(s, p + 1)
  {
    if Coming(s, p) { DistancePositive(s, p); }
    if Handled(s) == p + 1 && s.worker.Logging? && |s.sinks| - s.worker.k <= 0 { HandledIsHad(s, programs, p); }
  }

  lemma ServedSooner(s: System, p: nat, r: int, t: int)
    requires Shape(s) && ServedWithin(s, p, r) && r <= t
    ensures ServedWithin(s, p, t)
  {
  }

  lemma {:induction false} ServiceArrives(s: System, programs: seq<seq<AsyncMsg>>, events: seq<Event>, p: nat, r: int)
    requires DutyInv(s, programs) && ServedWithin(s, p, r)
    ensures ServedWithin(Run(s, events), p, r - Credit(events)) && DutyInv(Run(s, events), programs)
    decreases |events|
  {
    hide Inv, ThreadsInRole, Delivered, FlushState, ProgramOrder, FlushesKept, Alone, ServedWithin, Advance;
    if events != [] {
      ServiceComesNearer(s, programs, events[0], p, r);
      AdvanceKeepsDuty(s, programs, events[0]);
      ServiceArrives(Advance(s, events[0]), programs, events[1..], p, r - Gain(events[0]));
    }
  }

  /**
   Bounded service: when every message of the queue up to position p has been stored and the worker has not begun
   to leave, each sink has all their records after at most |sinks| + 8 steps of the worker for each message and
   for what it is busy with, whatever the producers do meanwhile.
   */
  lemma ServedInTime(size: nat, programs: seq<seq<AsyncMsg>>, m: Machine<AsyncMsg>, sinks: nat,
                     early: seq<Event>, late: seq<Event>, p: nat)
    requires Construct<AsyncMsg>(size, |programs| + 1) == Success(m)
    requires var s := Run(Launch(m, programs, sinks), early);
             Coming(s, p) && Credit(late) >= (p - Handled(s) + 2) * (sinks + 8)
    ensures AllHave(Run(Run(Launch(m, programs, sinks), early), late), p + 1)
  {
    LaunchDuty(size, programs, m, sinks);
    RunKeepsDuty(Launch(m, programs, sinks), programs, early);
    SinksStay(Launch(m, programs, sinks), early);
    ServedFrom(Run(Launch(m, programs, sinks), early), programs, late, p);
  }

  lemma ServedFrom(s: System, programs: seq<seq<AsyncMsg>>, late: seq<Event>, p: nat)
    requires DutyInv(s, programs) && Coming(s, p) && Credit(late) >= (p - Handled(s) + 2) * (|s.sinks| + 8)
    ensures AllHave(Run(s, late), p + 1)
  {
    hide Inv, ThreadsInRole, Delivered, FlushState, ProgramOrder, FlushesKept, Alone, Handled, Coming, AllHave, NextLook;
    TwoMore(p - Handled(s), |s.sinks| + 8);
    NextLookBounded(s);
    ServiceArrives(s, programs, late, p, Distance(s, p) + |s.sinks|);
    ServedSooner(Run(s, late), p, Distance(s, p) + |s.sinks| - Credit(late), 0);
    ServiceAtLast(Run(s, late), programs, p);
  }

  lemma NextLookBounded(s: System)
    requires Shape(s)
    ensures NextLook(s) <= |s.sinks| + 9
  {
  }

  lemma TwoMore(a: int, c: nat)
    ensures (a + 2) * c == a * c + 2 * c
  {
  }

  /**
   Nothing is left behind: the worker never exits before the sinks have the records of every message stored before
   it began to leave.
   */
  lemma NothingLeftBehind(size: nat, programs: seq<seq<AsyncMsg>>, m: Machine<AsyncMsg>, sinks: nat,
                          early: seq<Event>, late: seq<Event>, p: nat)
    requires Construct<AsyncMsg>(size, |programs| + 1) == Success(m)
    requires Coming(Run(Launch(m, programs, sinks), early), p)
    requires Run(Run(Launch(m, programs, sinks), early), late).worker.Exited?
    ensures AllHave(Run(Run(Launch(m, programs, sinks), early), late), p + 1)
  {
    LaunchDuty(size, programs, m, sinks);
    RunKeepsDuty(Launch(m, programs, sinks), programs, early);
    var s := Run(Launch(m, programs, sinks), early);
    ServiceArrives(s, programs, late, p, Distance(s, p) + |s.sinks|);
    ExitedIsDone(Run(s, late), programs, p);
  }
}
