/** The supervisor loop: it forks the master, restarts it when it ends, and answers signals. */
module Supervisor {
  import opened Wrappers

  const CHILD_NEED_TERMINATE := 2
  const CHILD_NEED_WORK := 3

  datatype Signal = SIGHUP | SIGINT | SIGQUIT | SIGTERM | SIGCHLD

  // ----- how a process ends

  datatype Ending = Exited(code: nat) | Signalled(number: nat)

  /** The status word that `wait` stores: the low byte of the exit code above the number of a fatal signal. */
  function StatusWord(e: Ending): nat {
    match e
    case Exited(code) => code % 256 * 256
    case Signalled(number) => number % 128
  }

  /** `WEXITSTATUS` */
  function ExitStatus(word: nat): nat {
    word / 256 % 256
  }

  /** An exit code survives in its low byte; a process killed by a signal looks as if it had exited with 0. */
  lemma StatusSurvives(e: Ending)
    ensures ExitStatus(StatusWord(e)) == if e.Exited? then e.code % 256 else 0
  {
  }

  // ----- traces of the supervisor

  datatype Act = Forked(pid: nat) | Received(sig: Signal) | Reaped(pid: nat, status: nat) | Reloaded | Killed(pid: nat, sig: Signal)

  /** The unreaped children, by pid. */
  function Unreaped(trace: seq<Act>): set<nat> {
    if trace == [] then {} else
      var before, last := Unreaped(trace[..|trace| - 1]), trace[|trace| - 1];
      match last
      case Forked(pid) => before + {pid}
      case Reaped(pid, _) => before - {pid}
      case _ => before
  }

  function Forks(trace: seq<Act>): nat {
    if trace == [] then 0
    else Forks(trace[..|trace| - 1]) + if trace[|trace| - 1].Forked? then 1 else 0
  }

  /** Children that were reaped and did not ask to stop. */
  function Restarts(trace: seq<Act>): nat {
    if trace == [] then 0
    else
      var last := trace[|trace| - 1];
      Restarts(trace[..|trace| - 1]) + if last.Reaped? && last.status != CHILD_NEED_TERMINATE then 1 else 0
  }

  /** Where the supervisor stands; what it may do next depends on nothing else. */
  datatype Phase =
    | NoMaster
    | Watching(pid: nat)
    | Handling(pid: nat, sig: Signal)
    | Reloading(pid: nat)
    | Finished
    | Stopped(pid: nat)
    | Illegal

  function After(p: Phase, a: Act): Phase {
    match (p, a)
    case (NoMaster, Forked(pid)) => Watching(pid)
    case (Watching(pid), Received(sig)) => Handling(pid, sig)
    case (Handling(pid, SIGCHLD), Reaped(q, status)) =>
      if q != pid then Illegal else if status == CHILD_NEED_TERMINATE then Finished else NoMaster
    case (Handling(pid, SIGHUP), Reloaded) => Reloading(pid)
    case (Reloading(pid), Killed(q, SIGHUP)) => if q == pid then Watching(pid) else Illegal
    case (Handling(pid, sig), Killed(q, SIGTERM)) =>
      if q == pid && sig != SIGHUP && sig != SIGCHLD then Stopped(pid) else Illegal
    case _ => Illegal
  }

  function PhaseOf(trace: seq<Act>): Phase {
    if trace == [] then NoMaster else After(PhaseOf(trace[..|trace| - 1]), trace[|trace| - 1])
  }

  function Master(p: Phase): set<nat> {
    match p
    case Watching(pid) => {pid}
    case Handling(pid, _) => {pid}
    case Reloading(pid) => {pid}
    case Stopped(pid) => {pid}
    case _ => {}
  }

  lemma {:induction false} PhaseKnowsMaster(trace: seq<Act>)
    requires !PhaseOf(trace).Illegal?
    ensures Unreaped(trace) == Master(PhaseOf(trace))
  {
    if trace != [] { PhaseKnowsMaster(trace[..|trace| - 1]); }
  }

  lemma {:induction false} PrefixLegal(trace: seq<Act>, i: nat)
    requires i <= |trace| && !PhaseOf(trace).Illegal?
    ensures !PhaseOf(trace[..i]).Illegal?
    decreases |trace|
  {
    if i == |trace| {
      assert trace[..i] == trace;
    } else {
      assert trace[..|trace| - 1][..i] == trace[..i];
      PrefixLegal(trace[..|trace| - 1], i);
    }
  }

  /** At every moment of a run there is at most one unreaped master. */
  lemma AtMostOneMaster(trace: seq<Act>, i: nat)
    requires i <= |trace| && !PhaseOf(trace).Illegal?
    ensures |Unreaped(trace[..i])| <= 1
  {
    PrefixLegal(trace, i);
    PhaseKnowsMaster(trace[..i]);
  }

  lemma LastStep(trace: seq<Act>, i: nat)
    requires i < |trace| && !PhaseOf(trace).Illegal?
    ensures After(PhaseOf(trace[..i]), trace[i]) == PhaseOf(trace[..i + 1]) && !PhaseOf(trace[..i + 1]).Illegal?
    ensures !PhaseOf(trace[..i]).Illegal? && Unreaped(trace[..i]) == Master(PhaseOf(trace[..i]))
  {
    PrefixLegal(trace, i);
    PrefixLegal(trace, i + 1);
    PhaseKnowsMaster(trace[..i]);
    assert trace[..i + 1][..i] == trace[..i];
  }

  /** Every signal the supervisor sends goes to the unreaped master, never to a process already reaped. */
  lemma SignalsReachTheMaster(trace: seq<Act>, i: nat)
    requires i < |trace| && trace[i].Killed? && !PhaseOf(trace).Illegal?
    ensures Unreaped(trace[..i]) == {trace[i].pid}
  {
    LastStep(trace, i);
  }

  /** A master is forked only when there is none, and only that master is reaped. */
  lemma ForksAndReapsAlternate(trace: seq<Act>, i: nat)
    requires i < |trace| && !PhaseOf(trace).Illegal?
    ensures trace[i].Forked? ==> Unreaped(trace[..i]) == {}
    ensures trace[i].Reaped? ==> Unreaped(trace[..i]) == {trace[i].pid}
  {
    LastStep(trace, i);
  }

  /** One fork to begin with and one for every master reaped with a status other than CHILD_NEED_TERMINATE. */
  lemma {:induction false} ForksCounted(trace: seq<Act>)
    requires !PhaseOf(trace).Illegal?
    ensures Forks(trace) == Restarts(trace) + if PhaseOf(trace).NoMaster? then 0 else 1
  {
    if trace != [] { ForksCounted(trace[..|trace| - 1]); }
  }

  /**
   A run ends only when its master asked for it or on a stop signal: nothing follows a reaped
   CHILD_NEED_TERMINATE or a SIGTERM sent.
   */
  lemma NothingAfterTheEnd(trace: seq<Act>, i: nat)
    requires i < |trace| && !PhaseOf(trace).Illegal?
    requires (trace[i].Killed? && trace[i].sig == SIGTERM) || (trace[i].Reaped? && trace[i].status == CHILD_NEED_TERMINATE)
    ensures i == |trace| - 1
  {
    LastStep(trace, i);
    if i + 1 < |trace| { LastStep(trace, i + 1); }
  }

  /** The phase that an act leads to is known from the act alone. */
  lemma LeadsTo(trace: seq<Act>, i: nat)
    requires i < |trace| && !PhaseOf(trace).Illegal?
    ensures var p := PhaseOf(trace[..i + 1]);
            match trace[i]
            case Forked(pid) => p == Watching(pid)
            case Received(sig) => p.Handling? && p.sig == sig && Unreaped(trace[..i]) == {p.pid}
            case Reaped(_, status) => p == if status == CHILD_NEED_TERMINATE then Finished else NoMaster
            case Reloaded => p.Reloading? && Unreaped(trace[..i]) == {p.pid}
            case Killed(pid, sig) => p == if sig == SIGHUP then Watching(pid) else Stopped(pid)
  {
    LastStep(trace, i);
  }

  /**
   The protocol in full, act by act: what can come next, whom it concerns, and that there is nothing else. SIGCHLD
   leads to reaping the master, SIGHUP to a reload and a SIGHUP to it, every other signal to a SIGTERM to it and the
   end; a run begins with a fork.
   */
  lemma WhatComesNext(trace: seq<Act>, i: nat)
    requires i + 1 < |trace| && !PhaseOf(trace).Illegal?
    ensures trace[0].Forked?
    ensures var next := trace[i + 1];
            match trace[i]
            case Forked(_) => next.Received?
            case Received(sig) =>
              if sig == SIGCHLD then next.Reaped? && Unreaped(trace[..i]) == {next.pid}
              else if sig == SIGHUP then next == Reloaded
              else next.Killed? && next.sig == SIGTERM && Unreaped(trace[..i]) == {next.pid} && i + 2 == |trace|
            case Reloaded => next.Killed? && next.sig == SIGHUP && Unreaped(trace[..i]) == {next.pid}
            case Reaped(_, status) => status != CHILD_NEED_TERMINATE && next.Forked?
            case Killed(_, sig) => sig == SIGHUP && next.Received?
  {
    LastStep(trace, 0);
    LeadsTo(trace, i);
    LastStep(trace, i + 1);
    if trace[i].Received? && trace[i + 1].Killed? { NothingAfterTheEnd(trace, i + 1); }
  }

  /** And what must have come before: no reload without a SIGHUP, no SIGTERM without a signal to stop, no reaping without SIGCHLD. */
  lemma WhatCameBefore(trace: seq<Act>, i: nat)
    requires 0 < i < |trace| && !PhaseOf(trace).Illegal?
    ensures var before := trace[i - 1];
            match trace[i]
            case Forked(_) => before.Reaped? && before.status != CHILD_NEED_TERMINATE
            case Received(_) => before.Forked? || (before.Killed? && before.sig == SIGHUP)
            case Reaped(_, _) => before == Received(SIGCHLD)
            case Reloaded => before == Received(SIGHUP)
            case Killed(_, sig) =>
              if sig == SIGHUP then before == Reloaded
              else sig == SIGTERM && before.Received? && before.sig in {SIGINT, SIGQUIT, SIGTERM}
  {
    WhatComesNext(trace, i - 1);
  }

  /** Every SIGHUP is answered by a reload and then one SIGHUP to the master, which stays. */
  lemma HangupsForwarded(trace: seq<Act>, i: nat)
    requires i + 2 < |trace| && trace[i] == Received(SIGHUP) && !PhaseOf(trace).Illegal?
    ensures trace[i + 1] == Reloaded
    ensures trace[i + 2].Killed? && trace[i + 2].sig == SIGHUP && Unreaped(trace[..i + 3]) == Unreaped(trace[..i])
  {
    LastStep(trace, i);
    LastStep(trace, i + 1);
    LastStep(trace, i + 2);
    PrefixLegal(trace, i + 3);
    PhaseKnowsMaster(trace[..i + 3]);
  }

  /** Every status reaped is that of the child's ending. */
  ghost predicate ReapsTell(trace: seq<Act>, endings: map<nat, Ending>) {
    forall i :: 0 <= i < |trace| && trace[i].Reaped? ==>
      trace[i].pid in endings && trace[i].status == ExitStatus(StatusWord(endings[trace[i].pid]))
  }

  /**
   At every reap in a run, the way the child ended decides: after exit code CHILD_NEED_TERMINATE nothing
   follows; after any other code and after a fatal signal the next act, if any, forks a new master.
   */
  lemma EndingsDecide(trace: seq<Act>, endings: map<nat, Ending>, i: nat)
    requires i < |trace| && trace[i].Reaped? && !PhaseOf(trace).Illegal? && ReapsTell(trace, endings)
    ensures trace[i].pid in endings
    ensures var how := endings[trace[i].pid];
            if how.Exited? && how.code % 256 == CHILD_NEED_TERMINATE then i == |trace| - 1 && PhaseOf(trace) == Finished
            else i + 1 < |trace| ==> trace[i + 1].Forked?
  {
    StatusSurvives(endings[trace[i].pid]);
    LastStep(trace, i);
    if i + 1 < |trace| {
      LastStep(trace, i + 1);
    } else {
      assert trace[..i + 1] == trace;
    }
  }

  // ----- the system around the supervisor

  datatype Child = Live | Zombie(word: nat) | Gone

  /** What the rest of the world does, in order: signals sent, children ending, and which pending signal a wait takes. */
  datatype Event = Sent(sig: Signal) | Ended(pid: nat, how: Ending) | Take(sig: Signal)

  /** The event makes the signal pending, or may do so when it is the end of a child. */
  predicate Raises(e: Event, sig: Signal) {
    e == Sent(sig) || (e.Ended? && sig == SIGCHLD)
  }

  /** A take among the first n events that comes to a signal already pending, or sent before it. */
  ghost predicate TakenBy(events: seq<Event>, pending: set<Signal>, n: nat)
    requires n <= |events|
  {
    exists k :: 0 <= k < n && events[k].Take?
      && (events[k].sig in pending || exists i :: 0 <= i < k && events[i] == Sent(events[k].sig))
  }

  class System {
    var children: seq<Child>
    var pending: set<Signal>
    var script: seq<Event>
    var trace: seq<Act>
    ghost var endings: map<nat, Ending>    // how each child that has ended did so

    /** The trace tells which children are unreaped, and how the reaped ones ended; pids count from 1. */
    ghost predicate Valid()
      reads this
    {
      && (forall i :: 0 <= i < |children| ==> (i + 1 in Unreaped(trace) <==> !children[i].Gone?))
      && (forall pid :: pid in Unreaped(trace) ==> 1 <= pid <= |children|)
      && (forall i :: 0 <= i < |children| ==> EndingOf(children[i], i + 1))
      && (forall pid :: pid in endings ==> 1 <= pid <= |children|)
      && ReapsTell(trace, endings)
    }

    ghost predicate EndingOf(child: Child, pid: nat)
      reads this
    {
      match child
      case Live => pid !in endings
      case Zombie(word) => pid in endings && word == StatusWord(endings[pid])
      case Gone => pid in endings
    }

    /** One act was added to the trace. */
    ghost predicate Did(before: seq<Act>, a: Act)
      reads this
    {
      trace == before + [a] && PhaseOf(trace) == After(PhaseOf(before), a)
    }

    constructor (script: seq<Event>)
      ensures Valid() && children == [] && pending == {} && trace == [] && this.script == script
    {
      this.script := script;
      children, pending, trace, endings := [], {}, [], map[];
    }

    /** The next event happens; children that end turn into zombies and make SIGCHLD pending. */
    method Happen()
      requires Valid() && script != []
      modifies `script, `children, `pending, `endings
      ensures Valid() && script == old(script)[1..]
      ensures var e := old(script)[0];
              if e.Sent? then pending == old(pending) + {e.sig} && children == old(children) && endings == old(endings)
              else if e.Ended? && 1 <= e.pid <= |old(children)| && old(children)[e.pid - 1].Live?
              then
                && children == old(children)[e.pid - 1 := Zombie(StatusWord(e.how))]
                && pending == old(pending) + {SIGCHLD} && endings == old(endings)[e.pid := e.how]
              else pending == old(pending) && children == old(children) && endings == old(endings)
    {
      match script[0] {
        case Sent(sig) => pending := pending + {sig};
        case Ended(pid, how) =>
          if 1 <= pid <= |children| && children[pid - 1].Live? {
            children := children[pid - 1 := Zombie(StatusWord(how))];
            pending := pending + {SIGCHLD};
            endings := endings[pid := how];
          }
        case Take(_) =>
      }
      script := script[1..];
    }

    method Fork() returns (pid: nat)
      requires Valid()
      modifies `children, `trace
      ensures Valid() && pid == |old(children)| + 1 && Did(old(trace), Forked(pid))
    {
      children := children + [Live];
      pid := |children|;
      trace := trace + [Forked(pid)];
      assert trace[..|trace| - 1] == old(trace);
    }

    /**
     `sigwaitinfo`: waits for the first take that finds its signal pending and consumes that signal; it was pending
     before or raised meanwhile. None when the script ends first.
     */
    method SigWaitInfo() returns (sig: Option<Signal>)
      requires Valid()
      modifies this
      ensures Valid()
      ensures sig.None? ==> trace == old(trace) && script == [] && !TakenBy(old(script), old(pending), |old(script)|)
      ensures sig.Some? ==>
                && Did(old(trace), Received(sig.value)) && |script| < |old(script)| && sig.value !in pending
                && var n := |old(script)| - |script| - 1;
                   && old(script)[n] == Take(sig.value) && script == old(script)[n + 1..]
                   && !TakenBy(old(script), old(pending), n)
                   && (sig.value in old(pending) || exists k :: 0 <= k < n && Raises(old(script)[k], sig.value))
    {
      ghost var n := 0;
      while script != []
        invariant Valid() && trace == old(trace) && n <= |old(script)| && script == old(script)[n..]
        invariant forall s :: s in pending ==> s in old(pending) || exists k :: 0 <= k < n && Raises(old(script)[k], s)
        invariant forall s :: s in old(pending) ==> s in pending
        invariant forall k :: 0 <= k < n && old(script)[k].Sent? ==> old(script)[k].sig in pending
        invariant !TakenBy(old(script), old(pending), n)
        decreases |script|
      {
        var event := script[0];
        Happen();
        assert event == old(script)[n];
        if event.Take? && event.sig in pending {
          pending := pending - {event.sig};
          trace := trace + [Received(event.sig)];
          assert trace[..|trace| - 1] == old(trace);
          return Some(event.sig);
        }
        n := n + 1;
      }
      return None;
    }

    /** `wait`: reaps a child that has ended, blocking until there is one; None when the script ends first. */
    method Wait() returns (r: Option<nat>)
      requires Valid() && Unreaped(trace) != {}
      modifies this
      ensures Valid() && |script| <= |old(script)|
      ensures r.None? ==> trace == old(trace) && script == []
      ensures r.Some? ==> exists pid :: pid in old(Unreaped(trace)) && Did(old(trace), Reaped(pid, ExitStatus(r.value)))
    {
      while true
        invariant Valid() && trace == old(trace) && |script| <= |old(script)|
        decreases |script|
      {
        var i := 0;
        while i < |children|
          invariant Valid() && trace == old(trace) && i <= |children|
        {
          if children[i].Zombie? {
            r := Some(children[i].word);
            assert i + 1 in Unreaped(trace);
            children := children[i := Gone];
            trace := trace + [Reaped(i + 1, ExitStatus(r.value))];
            assert trace[..|trace| - 1] == old(trace);
            return;
          }
          i := i + 1;
        }
        if script == [] { return None; }
        Happen();
      }
    }

    /** A zombie can still be sent a signal; what a live child makes of it is up to the script. */
    method Kill(pid: nat, sig: Signal)
      requires Valid() && pid in Unreaped(trace)
      modifies `trace
      ensures Valid() && Did(old(trace), Killed(pid, sig))
    {
      trace := trace + [Killed(pid, sig)];
      assert trace[..|trace| - 1] == old(trace);
    }

    method ReloadConfig()
      requires Valid()
      modifies `trace
      ensures Valid() && Did(old(trace), Reloaded)
    {
      trace := trace + [Reloaded];
      assert trace[..|trace| - 1] == old(trace);
    }
  }

  /**
   `monitor_proc`. None stands for a run cut off while the supervisor waits, at the end of the script; every script
   is possible, so what holds of the trace then holds at every wait of every run.
   */
  method MonitorProc(system: System) returns (r: Option<nat>)
    requires system.Valid() && system.trace == []
    modifies system
    ensures system.Valid()
    ensures match PhaseOf(system.trace)
            case Finished => r == Some(CHILD_NEED_TERMINATE)
            case Stopped(_) => r == Some(0)
            case Watching(_) => r == None
            case Handling(_, sig) => r == None && sig == SIGCHLD
            case _ => false
    ensures r.None? ==> system.script == []
  {
    hide Unreaped, PhaseOf, ReapsTell, TakenBy, Raises, System.Valid, System.EndingOf;
    StartsWithout(system.trace);
    var needStart, pid, status := true, 0, 0;
    while true
      invariant system.Valid()
      invariant PhaseOf(system.trace) == if needStart then NoMaster else Watching(pid)
      decreases |system.script|
    {
      if needStart { pid := system.Fork(); }
      needStart := true;
      var sig := system.SigWaitInfo();
      if sig.None? { return None; }
      PhaseKnowsMaster(system.trace);
      match sig.value {
        case SIGCHLD =>
          var word := system.Wait();
          if word.None? { return None; }
          status := ExitStatus(word.value);
          if status == CHILD_NEED_TERMINATE { return Some(status); }
        case SIGHUP =>
          system.ReloadConfig();
          PhaseKnowsMaster(system.trace);
          system.Kill(pid, SIGHUP);
          needStart := false;
        case _ =>
          system.Kill(pid, SIGTERM);
          return Some(0);
      }
    }
  }

  lemma StartsWithout(trace: seq<Act>)
    requires trace == []
    ensures PhaseOf(trace) == NoMaster
  {
  }

  // ----- the master

  /** What reaches the master: a signal it waits for, or a fault of its own that the crash handler catches. */
  datatype MasterEvent = Waited(sig: Signal) | Fault

  /**
   `work_proc` and the crash handler: SIGHUP reloads, any other signal ends the process with
   CHILD_NEED_TERMINATE, a fault with CHILD_NEED_WORK, or in debug builds also with CHILD_NEED_TERMINATE.
   None when the events end first.
   */
  method WorkProc(events: seq<MasterEvent>, debug: bool) returns (code: Option<nat>, reloads: nat)
    ensures reloads <= |events| && forall i :: 0 <= i < reloads ==> events[i] == Waited(SIGHUP)
    ensures reloads < |events| ==> events[reloads] != Waited(SIGHUP)
    ensures code.None? <==> reloads == |events|
    ensures code.Some? ==> code.value == if events[reloads] == Fault && !debug then CHILD_NEED_WORK else CHILD_NEED_TERMINATE
  {
    reloads := 0;
    var i := 0;
    while i < |events|
      invariant 0 <= i <= |events| && reloads == i
      invariant forall j :: 0 <= j < i ==> events[j] == Waited(SIGHUP)
    {
      match events[i] {
        case Fault => return Some(if debug then CHILD_NEED_TERMINATE else CHILD_NEED_WORK), reloads;
        case Waited(sig) =>
          if sig != SIGHUP { return Some(CHILD_NEED_TERMINATE), reloads; }
          reloads := reloads + 1;
      }
      i := i + 1;
    }
    return None, reloads;
  }
}
