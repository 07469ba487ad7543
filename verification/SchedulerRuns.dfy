/**
 Whole runs of the process table from scheduler_init: creations, iterations of the loop, and state
 changes from outside, which the loop needs since the source itself makes no process ready.
 */
module SchedulerRuns {
  import opened Widths
  import opened Scheduler
  import opened SchedulerAdmission
  import opened SchedulerDispatch

  // ---------- who is dispatched at all ----------

  /** Nothing outside the scheduler makes a process ready. */
  predicate NeverWoken(events: seq<Event>) {
    forall i | 0 <= i < |events| && events[i].SetState? :: !events[i].state.Ready?
  }

  /** The idle process is current, and there is nothing else to run. */
  predicate Idle(s: State) {
    s.WellFormed() && s.currentPid == IDLE_PID && forall i | 0 <= i < s.count :: !s.table[i].state.Ready?
  }

  lemma IdlePicks(s: State)
    requires Idle(s)
    ensures Pick(s) == IDLE_PID && !SelfPick(s)
  {
    PickIsFirst(s);
  }

  lemma StepIdle(h: History, ev: Event)
    requires Idle(h.state) && (ev.SetState? ==> !ev.state.Ready?)
    ensures Idle(Step(h, ev).state)
  {
    hide Pick, Feasible;
    IdlePicks(h.state);
  }

  /** The source alone dispatches nothing: without outside wake-ups, every run idles for ever. */
  lemma {:induction false} IdlesUnlessWoken(start: u64, events: seq<Event>)
    requires NeverWoken(events)
    ensures var s := Run(start, events).state;
            Idle(s) && Pick(s) == IDLE_PID && !SelfPick(s)
  {
    if |events| > 0 {
      hide Step;
      IdlesUnlessWoken(start, events[..|events| - 1]);
      StepIdle(Run(start, events[..|events| - 1]), events[|events| - 1]);
    }
    IdlePicks(Run(start, events).state);
  }

  lemma CreateKeepsPick(s: State, request: Request)
    requires s.WellFormed()
    ensures var t := Scheduler.Create(s, request).0;
            Pick(t) == Pick(s) && t.currentPid == s.currentPid
  {
    hide Feasible;
    var t := Scheduler.Create(s, request).0;
    assert t.Procs()[..s.count] == s.Procs();
    assert t.count == s.count ==> t.Procs() == s.Procs();
  }

  lemma SelfPickStays(s: State, now: u64)
    requires s.WellFormed() && SelfPick(s)
    ensures SelfPick(Scheduler.Iterate(s, now))
  {
    SelfPickStarves(s, [now]);
    var t := Scheduler.Iterate(s, now);
    PickIsFirst(s);
    assert forall i: nat :: Eligible(t, i) <==> Eligible(s, i);
    PickDetermined(t, Pick(s) - 1);
  }

  /** Neither a creation nor an iteration starts a self-pick, or ends one: only outside state changes do. */
  lemma SelfPickFromOutside(h: History, ev: Event)
    requires h.state.WellFormed() && !ev.SetState?
    ensures SelfPick(Step(h, ev).state) <==> SelfPick(h.state)
  {
    var s := h.state;
    match ev
    case Create(request) => CreateKeepsPick(s, request);
    case Iterate(now) =>
      if SelfPick(s) { SelfPickStays(s, now); } else { IterateTakesFirst(s, now); }
  }

  /** Two processes are created and woken, the first is dispatched, and woken again while it is current. */
  function WokenWhileRunning(now: u64): seq<Event> {
    [Create(Request(true, 0, None)), Create(Request(true, 1, None)), SetState(1, Ready), SetState(2, Ready),
     Iterate(now), SetState(1, Ready)]
  }

  /** The first five events, in one state. */
  function FirstDispatched(start: u64, now: u64): (s: State)
    ensures s.WellFormed()
  {
    var a := Scheduler.Create(Init(start), Request(true, 0, None)).0;
    var b := Scheduler.Create(a, Request(true, 1, None)).0;
    Scheduler.Iterate(Scheduler.SetState(Scheduler.SetState(b, 1, Ready), 2, Ready), now)
  }

  lemma RunStep(start: u64, events: seq<Event>, n: nat)
    requires n < |events|
    ensures Run(start, events[..n + 1]) == Step(Run(start, events[..n]), events[n])
  {
    assert events[..n + 1][..n] == events[..n];
  }

  lemma RunsAs(start: u64, now: u64)
    ensures Run(start, WokenWhileRunning(now)).state == Scheduler.SetState(FirstDispatched(start, now), 1, Ready)
  {
    hide Feasible, Scheduler.Iterate, Scheduler.SetState, Pick;
    var es := WokenWhileRunning(now);
    assert es[..0] == [] && es[..6] == es;
    assert Run(start, es[..0]).state == Init(start);
    RunStep(start, es, 0);
    RunStep(start, es, 1);
    RunStep(start, es, 2);
    RunStep(start, es, 3);
    RunStep(start, es, 4);
    RunStep(start, es, 5);
  }

  lemma DispatchesFirst(start: u64, now: u64)
    ensures var s := FirstDispatched(start, now);
            && s.count == 2 && s.currentPid == 1
            && s.table[0].priority == 0 && s.table[1].priority == 1 && s.table[1].state == Ready
  {
    hide Feasible, Pick;
    var a := Scheduler.Create(Init(start), Request(true, 0, None)).0;
    var b := Scheduler.Create(a, Request(true, 1, None)).0;
    var c := Scheduler.SetState(Scheduler.SetState(b, 1, Ready), 2, Ready);
    assert Eligible(c, 0) && forall j: nat | j != 0 && Eligible(c, j) :: j == 1;
    PickDetermined(c, 0);
  }

  /**
   A run that ends in a self-pick: from then on the loop picks the first process at every iteration,
   and the second, which is ready, is never dispatched.
   */
  lemma SelfPickReached(start: u64, now: u64, times: seq<u64>)
    ensures var s := Run(start, WokenWhileRunning(now)).state;
            && SelfPick(s) && Eligible(s, 1)
            && (forall k | 0 <= k < |times| :: Trace(s, times)[k] == 1)
            && Eligible(After(s, times), 1)
  {
    hide Run, FirstDispatched, Pick;
    RunsAs(start, now);
    DispatchesFirst(start, now);
    var s := Run(start, WokenWhileRunning(now)).state;
    assert Eligible(s, 0) && Eligible(s, 1) && forall j: nat | j != 0 && Eligible(s, j) :: j == 1;
    PickDetermined(s, 0);
    SelfPickStarves(s, times);
  }

  // ---------- where the time goes ----------

  /** Every iteration sees a clock that has not gone back. */
  predicate ClockRises(start: u64, events: seq<Event>) {
    |events| > 0 ==>
      var rest, last := events[..|events| - 1], events[|events| - 1];
      ClockRises(start, rest) && (last.Iterate? ==> Run(start, rest).state.lastTick <= last.now)
  }

  /** The time that iterations of the run found the idle process current for. */
  function TimeIdle(start: u64, events: seq<Event>): nat {
    if |events| == 0 then 0
    else
      var rest, last := events[..|events| - 1], events[|events| - 1];
      TimeIdle(start, rest)
      + if last.Iterate? && Run(start, events).state.currentPid == IDLE_PID
        then Elapsed(Run(start, rest).state, last.now) else 0
  }

  predicate FreeSlotsUnused(s: State) {
    s.WellFormed() && forall i | s.count <= i < MAX_PROCESSES :: s.table[i].timeUsed == 0
  }

  lemma StepFreeSlots(h: History, ev: Event)
    requires FreeSlotsUnused(h.state)
    ensures FreeSlotsUnused(Step(h, ev).state)
  {
    hide Pick, Feasible;
  }

  lemma {:induction false} SameTimes(a: seq<Pcb>, b: seq<Pcb>)
    requires |a| == |b| && forall i | 0 <= i < |a| :: a[i].timeUsed == b[i].timeUsed
    ensures TotalUsed(a) == TotalUsed(b)
  {
    if |a| > 0 { SameTimes(a[..|a| - 1], b[..|b| - 1]); }
  }

  /** Creations and outside state changes use no time. */
  lemma StepUsesNoTime(h: History, ev: Event)
    requires FreeSlotsUnused(h.state) && !ev.Iterate?
    ensures TotalUsed(Step(h, ev).state.Procs()) == TotalUsed(h.state.Procs())
    ensures Step(h, ev).state.lastTick == h.state.lastTick
  {
    hide Feasible;
    var s, t := h.state, Step(h, ev).state;
    if t.count == s.count {
      SameTimes(s.Procs(), t.Procs());
    } else {
      assert t.Procs()[..s.count] == s.Procs();
    }
  }

  lemma NoneUsed(procs: seq<Pcb>)
    requires |procs| == 0
    ensures TotalUsed(procs) == 0
  {
  }

  lemma StepIterates(h: History, now: u64)
    requires h.state.WellFormed()
    ensures Step(h, Event.Iterate(now)).state == Scheduler.Iterate(h.state, now)
  {
  }

  /**
   From scheduler_init on, in every run with a clock that never goes back, the time that passed up to
   the last iteration is the time on the processes' accounts plus the time spent idle.
   */
  lemma {:induction false} RunTimeConserved(start: u64, events: seq<Event>)
    requires ClockRises(start, events)
    ensures var s := Run(start, events).state;
            FreeSlotsUnused(s) && TotalUsed(s.Procs()) + TimeIdle(start, events) == s.lastTick - start
  {
    if |events| == 0 {
      NoneUsed(Init(start).Procs());
    } else {
      hide Step, TotalUsed, FreeSlotsUnused, Elapsed;
      var rest, last := events[..|events| - 1], events[|events| - 1];
      RunTimeConserved(start, rest);
      StepFreeSlots(Run(start, rest), last);
      if last.Iterate? {
        IterateCharges(Run(start, rest).state, last.now);
        StepIterates(Run(start, rest), last.now);
      } else {
        StepUsesNoTime(Run(start, rest), last);
      }
    }
  }

  /** When the last iteration of the run was, or the start. */
  function LastIteration(start: u64, events: seq<Event>): u64 {
    if |events| == 0 then start
    else if events[|events| - 1].Iterate? then events[|events| - 1].now
    else LastIteration(start, events[..|events| - 1])
  }

  /** What the clock advanced by over the iterations of the run that left `pid` current. */
  function ClockTimeIn(start: u64, events: seq<Event>, pid: nat): int {
    if |events| == 0 then 0
    else
      var rest, last := events[..|events| - 1], events[|events| - 1];
      ClockTimeIn(start, rest, pid)
      + if last.Iterate? && Run(start, events).state.currentPid == pid then last.now - LastIteration(start, rest) else 0
  }

  lemma StepKeepsAccounts(h: History, ev: Event, i: nat)
    requires h.state.WellFormed() && i < MAX_PROCESSES && !ev.Iterate?
    ensures Step(h, ev).state.table[i].timeUsed == h.state.table[i].timeUsed
    ensures Step(h, ev).state.lastTick == h.state.lastTick
  {
    hide Feasible;
  }

  /**
   In every run from scheduler_init, with any clock, every process is charged, modulo 2^64, with
   the clock's advances over exactly the iterations that left it current.
   */
  lemma {:induction false} RunTimeGoesToDispatched(start: u64, events: seq<Event>, i: nat)
    requires i < MAX_PROCESSES
    ensures Run(start, events).state.lastTick == LastIteration(start, events)
    ensures Run(start, events).state.table[i].timeUsed == Wrap64(ClockTimeIn(start, events, i + 1))
  {
    if |events| > 0 {
      hide Step, Wrap64;
      var rest, last := events[..|events| - 1], events[|events| - 1];
      RunTimeGoesToDispatched(start, rest, i);
      if last.Iterate? {
        StepIterates(Run(start, rest), last.now);
        IterateChargesCurrent(Run(start, rest).state, last.now, i);
        WrapOfWrap(ClockTimeIn(start, rest, i + 1), last.now - LastIteration(start, rest));
      } else {
        StepKeepsAccounts(Run(start, rest), last, i);
      }
    } else {
      hide Step, Wrap64;
      WrapSame(0);
      assert Run(start, events).state == Init(start);
    }
  }

  function Iterations(events: seq<Event>): nat {
    if |events| == 0 then 0
    else Iterations(events[..|events| - 1]) + if events[|events| - 1].Iterate? then 1 else 0
  }

  lemma StepCounters(h: History, ev: Event)
    requires h.state.WellFormed()
    ensures var s, t := h.state, Step(h, ev).state;
            && t.ticks == (if ev.Iterate? then Wrap64(s.ticks + 1) else s.ticks)
            && t.lastDeadlineCheck
               == if ev.Iterate? && Wrap64(ev.now - s.lastDeadlineCheck) >= 1000 then ev.now else s.lastDeadlineCheck
  {
    hide Pick, Switch, Charge, Feasible;
  }

  /** The tick count is the number of iterations, modulo 2^64, and until the first no deadline was looked at. */
  lemma {:induction false} RunCounters(start: u64, events: seq<Event>)
    ensures Run(start, events).state.ticks == Wrap64(Iterations(events))
    ensures Iterations(events) == 0 ==> Run(start, events).state.lastDeadlineCheck == 0
  {
    hide Step, Wrap64;
    if |events| == 0 {
      WrapSame(0);
      assert Run(start, events).state == Init(start);
    } else {
      var rest, last := events[..|events| - 1], events[|events| - 1];
      RunCounters(start, rest);
      StepCounters(Run(start, rest), last);
      WrapOfWrap(Iterations(rest), 1);
    }
  }
}
