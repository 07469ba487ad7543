/** What the admission test guarantees over whole runs of the process table. */
module SchedulerAdmission {
  import opened Widths
  import opened RateMonotonic
  import opened Scheduler

  // ---------- runs ----------

  datatype Event = Create(request: Request) | Iterate(now: u64) | SetState(pid: nat, state: ProcessState)

  /** A state together with the parameters, if any, that the test granted to each created process. */
  datatype History = History(state: State, granted: seq<Option<RtParams>>)

  function Step(h: History, ev: Event): (r: History)
    requires h.state.WellFormed()
    ensures r.state.WellFormed()
  {
    match ev
    case Iterate(now) => h.(state := Scheduler.Iterate(h.state, now))
    case SetState(pid, state) => h.(state := Scheduler.SetState(h.state, pid, state))
    case Create(request) =>
      var (s, result) := Scheduler.Create(h.state, request);
      History(s, if result.Created? then h.granted + [request.params] else h.granted)
  }

  function Run(start: u64, events: seq<Event>): (h: History)
    ensures h.state.WellFormed()
  {
    if |events| == 0 then History(Init(start), [])
    else Step(Run(start, events[..|events| - 1]), events[|events| - 1])
  }

  function GrantedLoads(granted: seq<Option<RtParams>>): (us: seq<real>)
    ensures |us| == |granted| && NonNegative(us)
  {
    seq(|granted|, i requires 0 <= i < |granted| =>
      if granted[i].Some? then SlotLoad(granted[i].value) else 0.0)
  }

  /** The table may charge a process for more than it was granted, never for less. */
  predicate Covered(h: History) {
    h.state.WellFormed() && |h.granted| == h.state.count
    && forall i | 0 <= i < h.state.count :: GrantedLoads(h.granted)[i] <= SlotLoad(h.state.table[i].rt)
  }

  lemma {:induction false} SumMono(us: seq<real>, vs: seq<real>)
    requires |us| == |vs| && forall i | 0 <= i < |us| :: us[i] <= vs[i]
    ensures Sum(us) <= Sum(vs)
  {
    if |us| > 0 { SumMono(us[..|us| - 1], vs[..|vs| - 1]); }
  }

  lemma StepCovered(h: History, ev: Event)
    requires Covered(h)
    ensures Covered(Step(h, ev))
  {
    hide Pick, Feasible, SlotLoad;
  }

  /** Whatever is created without parameters leaves the product of the granted factors alone. */
  lemma GrantNothing(granted: seq<Option<RtParams>>)
    ensures Product(GrantedLoads(granted + [None])) == Product(GrantedLoads(granted))
  {
    var us := GrantedLoads(granted + [None]);
    assert us[..|granted|] == GrantedLoads(granted);
  }

  lemma GrantTask(h: History, p: RtParams)
    requires Covered(h) && Feasible(h.state.Procs(), p)
    ensures Product(GrantedLoads(h.granted + [Some(p)])) <= 2.0
  {
    var us := GrantedLoads(h.granted + [Some(p)]);
    assert us[..|h.granted|] == GrantedLoads(h.granted);
    SumMono(GrantedLoads(h.granted), Loads(h.state.Procs()));
    BoundImpliesHyperbolic(us, Sum(Loads(h.state.Procs())) + SlotLoad(p) + SAFETY_MARGIN);
  }

  lemma StepHyperbolic(h: History, ev: Event)
    requires Covered(h) && Product(GrantedLoads(h.granted)) <= 2.0
    ensures Product(GrantedLoads(Step(h, ev).granted)) <= 2.0
  {
    hide GrantedLoads, Product, Feasible;
    if ev.Create? && Scheduler.Create(h.state, ev.request).1.Created? {
      var params := ev.request.params;
      if params.Some? { GrantTask(h, params.value); } else { GrantNothing(h.granted); }
    }
  }

  /**
   In every run of creations, scheduler iterations and outside state changes, refused requests and
   tasks without parameters included, the tasks that passed the test satisfy the hyperbolic bound.
   */
  lemma {:induction false} AdmittedTasksHyperbolic(start: u64, events: seq<Event>)
    ensures Covered(Run(start, events))
    ensures Product(GrantedLoads(Run(start, events).granted)) <= 2.0
  {
    if |events| > 0 {
      var h := Run(start, events[..|events| - 1]);
      var ev := events[|events| - 1];
      AdmittedTasksHyperbolic(start, events[..|events| - 1]);
      StepCovered(h, ev);
      StepHyperbolic(h, ev);
    }
  }

  // ---------- what the test decides ----------

  /** What a request has to look like before its load is considered. */
  predicate Sensible(periodMs: u32, deadlineMs: u32, wcetUs: u32) {
    0 < deadlineMs <= periodMs && 0 < wcetUs < periodMs * 1000 % TWO_32
  }

  /** In every run, whatever was granted has a deadline within its period and an execution time below it. */
  lemma {:induction false} GrantedAreSensible(start: u64, events: seq<Event>)
    ensures forall p | Some(p) in Run(start, events).granted :: Sensible(p.periodMs, p.deadlineMs, p.wcetUs)
  {
    if |events| > 0 {
      hide WithinBound, Scheduler.Iterate, Scheduler.SetState;
      GrantedAreSensible(start, events[..|events| - 1]);
    }
  }

  /**
   The test in the source's own terms, next to any processes: the parameters are sensible, and their
   utilization fits under n (2^(1/n) - 1) - 5 percent together with that of the table, for n
   processes counting the new one.
   */
  lemma CreatedIff(s: State, priority: u32, p: RtParams, root: real)
    requires s.WellFormed() && s.count < MAX_PROCESSES
    requires root > 0.0 && Pow(root, s.count + 1) == 2.0
    ensures Scheduler.Create(s, Request(true, priority, Some(p))).1.Created?
            <==> && Sensible(p.periodMs, p.deadlineMs, p.wcetUs)
                 && Sum(Loads(s.Procs())) + p.wcetUs as real / (p.periodMs as real * 1000.0)
                    <= ((s.count + 1) as real) * (root - 1.0) - 0.05
  {
    hide Pow;
    SumNonNegative(Loads(s.Procs()));
    RootFreeBound(Sum(Loads(s.Procs())) + SlotLoad(p) + SAFETY_MARGIN, s.count + 1, root);
  }

  lemma CompareProducts(a: real, b: real, d: real)
    requires d > 0.0
    ensures a <= b <==> a * d <= b * d
  {
    if a <= b {
      MulMono(a, b, d);
    } else {
      MulStrict(b, a, d);
      assert d * b == b * d && d * a == a * d;
    }
  }

  lemma DivideAtMost(w: real, d: real, b: real)
    requires d > 0.0
    ensures w / d <= b <==> w <= b * d
  {
    var q := w / d;
    CompareProducts(q, b, d);
    assert q * d == w;
  }

  lemma Quotient95(wcet: nat, period: nat)
    requires period > 0
    ensures wcet as real / (period as real * 1000.0) <= 1.0 - 0.05 <==> 20 * wcet <= 19_000 * period
  {
    DivideAtMost(wcet as real, period as real * 1000.0, 0.95);
    assert 0.95 * (period as real * 1000.0) == 950.0 * (period as real);
    assert (20 * wcet) as real == 20.0 * (wcet as real) && (19_000 * period) as real == 19_000.0 * (period as real);
    assert 20 * wcet <= 19_000 * period <==> 20.0 * (wcet as real) <= 19_000.0 * (period as real);
  }

  /**
   On an empty table a request is granted exactly when its deadline lies within its period and its
   execution time is positive and at most 95 percent of it.
   */
  lemma FirstTaskIff(start: u64, priority: u32, p: RtParams)
    requires p.periodMs * 1000 < TWO_32
    ensures Scheduler.Create(Init(start), Request(true, priority, Some(p))).1 == Created(1)
            <==> 0 < p.deadlineMs <= p.periodMs && 0 < p.wcetUs && 20 * p.wcetUs <= 19_000 * p.periodMs
  {
    var s := Init(start);
    assert Loads(s.Procs()) == [];
    assert Pow(2.0, 1) == 2.0 * Pow(2.0, 0);
    CreatedIff(s, priority, p, 2.0);
    if p.periodMs > 0 { Quotient95(p.wcetUs, p.periodMs); }
  }

  /** The requests that led to a process, in order. */
  function Granted(start: u64, events: seq<Event>): seq<Request> {
    if |events| == 0 then []
    else
      var rest, last := events[..|events| - 1], events[|events| - 1];
      Granted(start, rest)
      + if last.Create? && Scheduler.Create(Run(start, rest).state, last.request).1.Created? then [last.request] else []
  }

  /** Slot `i` holds process i + 1 as it was asked for. */
  predicate AsAsked(s: State, requests: seq<Request>) {
    s.WellFormed() && s.count == |requests|
    && forall i | 0 <= i < s.count ::
         && requests[i].hasTarget
         && s.table[i].pid == i + 1 && s.table[i].priority == requests[i].priority
         && (requests[i].params.Some? ==> s.table[i].rt == requests[i].params.value)
  }

  lemma StepAsAsked(h: History, ev: Event, requests: seq<Request>)
    requires AsAsked(h.state, requests)
    ensures AsAsked(Step(h, ev).state,
                    requests + if ev.Create? && Scheduler.Create(h.state, ev.request).1.Created? then [ev.request] else [])
  {
    hide Feasible, Pick;
  }

  /** In every run, process i + 1 is the i-th one created, with the priority and parameters asked for. */
  lemma {:induction false} ProcessesAsAsked(start: u64, events: seq<Event>)
    ensures AsAsked(Run(start, events).state, Granted(start, events))
  {
    if |events| > 0 {
      hide Step, AsAsked;
      var rest := events[..|events| - 1];
      ProcessesAsAsked(start, rest);
      StepAsAsked(Run(start, rest), events[|events| - 1], Granted(start, rest));
    } else {
      assert Run(start, events).state == Init(start);
    }
  }

  /** What a caller is told: a refusal without a process for a missing target or a full table, else the next pid. */
  lemma CreationAnswer(start: u64, events: seq<Event>, request: Request)
    ensures var (n, result) := (|Granted(start, events)|, Scheduler.Create(Run(start, events).state, request).1);
            && (result == InvalidParam <==> !request.hasTarget || n == 32)
            && (result.Created? || result.Unavailable? ==> result.pid == n + 1)
            && (result.Unavailable? ==> request.params.Some?)
  {
    hide Run, Granted, Feasible;
    ProcessesAsAsked(start, events);
  }

  // ---------- monotonicity ----------

  lemma {:induction false} SumWithout(us: seq<real>, j: nat)
    requires j < |us|
    ensures Sum(us) == Sum(us[..j] + us[j + 1..]) + us[j]
  {
    var n := |us| - 1;
    if j < n {
      SumWithout(us[..n], j);
      assert (us[..j] + us[j + 1..])[..n - 1] == us[..n][..j] + us[..n][j + 1..];
    } else {
      assert us[..j] + us[j + 1..] == us[..n];
    }
  }

  lemma Cancel(a: multiset<real>, b: multiset<real>, c: multiset<real>)
    requires a + c <= b + c
    ensures a <= b
  {
    forall x
      ensures a[x] <= b[x]
    {
      assert (a + c)[x] <= (b + c)[x];
    }
  }

  /** The last element of the part can be taken out of the whole, leaving the rest of the part in it. */
  lemma Extract(part: seq<real>, whole: seq<real>) returns (j: nat)
    requires |part| > 0 && multiset(part) <= multiset(whole)
    ensures j < |whole| && whole[j] == part[|part| - 1]
    ensures multiset(part[..|part| - 1]) <= multiset(whole[..j] + whole[j + 1..])
  {
    var n := |part| - 1;
    var x := part[n];
    assert part == part[..n] + [x];
    assert multiset(part) == multiset(part[..n]) + multiset{x};
    assert x in multiset(whole);
    j :| 0 <= j < |whole| && whole[j] == x;
    var a, b := whole[..j], whole[j + 1..];
    assert whole == a + [x] + b;
    assert multiset(whole) == multiset(a + b) + multiset{x};
    Cancel(multiset(part[..n]), multiset(a + b), multiset{x});
  }

  lemma {:induction false} SumOfPart(part: seq<real>, whole: seq<real>)
    requires multiset(part) <= multiset(whole) && NonNegative(whole)
    ensures |part| <= |whole| && Sum(part) <= Sum(whole)
  {
    if |part| == 0 {
      SumNonNegative(whole);
    } else {
      var n := |part| - 1;
      var j := Extract(part, whole);
      SumOfPart(part[..n], whole[..j] + whole[j + 1..]);
      SumWithout(whole, j);
    }
  }

  /**
   A task accepted next to some processes is accepted next to any part of them, because the
   bound n * (2^(1/n) - 1) falls as n grows.
   */
  lemma AdmissionMonotone(whole: seq<Pcb>, part: seq<Pcb>, p: RtParams)
    requires multiset(Loads(part)) <= multiset(Loads(whole))
    requires Feasible(whole, p)
    ensures Feasible(part, p)
  {
    SumOfPart(Loads(part), Loads(whole));
    SumNonNegative(Loads(part));
    BoundMonotone(Sum(Loads(part)) + SlotLoad(p) + SAFETY_MARGIN,
                  Sum(Loads(whole)) + SlotLoad(p) + SAFETY_MARGIN, |part| + 1, |whole| + 1);
  }

  // ---------- stale parameters ----------

  /** The load of parameters is positive exactly when both numbers in it are. */
  lemma LoadPositive(p: RtParams)
    ensures SlotLoad(p) > 0.0 <==> p.periodMs > 0 && p.wcetUs > 0
  {
  }

  /** The parameters of the last request that was refused since the last creation, or zeros. */
  function LeftBehind(start: u64, events: seq<Event>): RtParams {
    if |events| == 0 then Blank().rt
    else
      var rest, last := events[..|events| - 1], events[|events| - 1];
      if !last.Create? then LeftBehind(start, rest)
      else
        match Scheduler.Create(Run(start, rest).state, last.request).1
        case InvalidParam => LeftBehind(start, rest)
        case Unavailable(_) => last.request.params.value
        case Created(_) => Blank().rt
  }

  /** The slot behind the processes holds these parameters, and all slots after it none. */
  predicate FreeSlotsHold(s: State, p: RtParams) {
    s.WellFormed()
    && (s.count < MAX_PROCESSES ==> s.table[s.count].rt == p)
    && forall i | s.count < i < MAX_PROCESSES :: s.table[i].rt == Blank().rt
  }

  lemma SetStateKeepsFreeSlots(s: State, pid: nat, state: ProcessState, left: RtParams)
    requires FreeSlotsHold(s, left)
    ensures FreeSlotsHold(Scheduler.SetState(s, pid, state), left)
  {
  }

  lemma IterateKeepsFreeSlots(s: State, now: u64, left: RtParams)
    requires FreeSlotsHold(s, left)
    ensures FreeSlotsHold(Scheduler.Iterate(s, now), left)
  {
    hide Pick;
  }

  lemma CreateMovesFreeSlots(s: State, request: Request, left: RtParams)
    requires FreeSlotsHold(s, left)
    ensures var (t, result) := Scheduler.Create(s, request);
            && (result.InvalidParam? ==> FreeSlotsHold(t, left))
            && (result.Unavailable? ==> request.params.Some? && FreeSlotsHold(t, request.params.value))
            && (result.Created? ==> FreeSlotsHold(t, Blank().rt))
  {
    hide Feasible;
  }

  lemma {:induction false} NextSlotHolds(start: u64, events: seq<Event>)
    ensures FreeSlotsHold(Run(start, events).state, LeftBehind(start, events))
  {
    if |events| > 0 {
      hide FreeSlotsHold, Scheduler.Iterate, Scheduler.Create, Scheduler.SetState;
      var rest, last := events[..|events| - 1], events[|events| - 1];
      NextSlotHolds(start, rest);
      var s := Run(start, rest).state;
      match last
      case Iterate(now) => IterateKeepsFreeSlots(s, now, LeftBehind(start, rest));
      case SetState(pid, state) => SetStateKeepsFreeSlots(s, pid, state, LeftBehind(start, rest));
      case Create(request) => CreateMovesFreeSlots(s, request, LeftBehind(start, rest));
    }
  }

  /** One more process at the end of the table. */
  lemma LoadOfOneMore(s: State, t: State)
    requires s.WellFormed() && t.WellFormed() && t.count == s.count + 1
    requires forall i | 0 <= i < s.count :: t.table[i].rt == s.table[i].rt
    ensures Sum(Loads(t.Procs())) == Sum(Loads(s.Procs())) + SlotLoad(t.table[s.count].rt)
  {
    assert Loads(t.Procs())[..s.count] == Loads(s.Procs());
  }

  /**
   A process created without parameters is charged, by all later tests, with the parameters of the
   last request refused since the last creation; it adds load exactly when these have a period
   and an execution time.
   */
  lemma UnparameterisedLoad(start: u64, events: seq<Event>, priority: u32)
    requires Run(start, events).state.count < MAX_PROCESSES
    ensures var s, left := Run(start, events).state, LeftBehind(start, events);
            var t := Scheduler.Create(s, Request(true, priority, None)).0;
            && t.count == s.count + 1
            && Sum(Loads(t.Procs())) == Sum(Loads(s.Procs())) + SlotLoad(left)
            && (Sum(Loads(t.Procs())) > Sum(Loads(s.Procs())) <==> left.periodMs > 0 && left.wcetUs > 0)
  {
    hide Run, LeftBehind, Sum;
    NextSlotHolds(start, events);
    var s := Run(start, events).state;
    LoadOfOneMore(s, Scheduler.Create(s, Request(true, priority, None)).0);
    LoadPositive(LeftBehind(start, events));
  }

  /** After this run, this call creates a process without parameters in a slot that holds some. */
  predicate InheritsLoad(start: u64, before: seq<Event>, ev: Event) {
    ev.Create? && ev.request.params == None && Scheduler.Create(Run(start, before).state, ev.request).1.Created?
    && LeftBehind(start, before).periodMs > 0 && LeftBehind(start, before).wcetUs > 0
  }

  /** Such a creation occurs in the run. */
  predicate LoadInherited(start: u64, events: seq<Event>) {
    |events| > 0
    && (LoadInherited(start, events[..|events| - 1])
        || InheritsLoad(start, events[..|events| - 1], events[|events| - 1]))
  }

  /** The loads that processes without parameters are charged with. */
  function StaleLoad(start: u64, events: seq<Event>): (load: real)
    ensures load >= 0.0
  {
    if |events| == 0 then 0.0
    else
      var rest, last := events[..|events| - 1], events[|events| - 1];
      StaleLoad(start, rest) + if InheritsLoad(start, rest, last) then SlotLoad(LeftBehind(start, rest)) else 0.0
  }

  lemma {:induction false} StaleIffInherited(start: u64, events: seq<Event>)
    ensures StaleLoad(start, events) > 0.0 <==> LoadInherited(start, events)
  {
    if |events| > 0 {
      var rest := events[..|events| - 1];
      hide SlotLoad;
      StaleIffInherited(start, rest);
      LoadPositive(LeftBehind(start, rest));
    }
  }

  lemma GrantedLoadOfOneMore(granted: seq<Option<RtParams>>, params: Option<RtParams>)
    ensures Sum(GrantedLoads(granted + [params]))
            == Sum(GrantedLoads(granted)) + if params.Some? then SlotLoad(params.value) else 0.0
  {
    assert GrantedLoads(granted + [params])[..|granted|] == GrantedLoads(granted);
  }

  lemma SameLoads(s: State, t: State)
    requires s.WellFormed() && t.WellFormed() && t.count == s.count
    requires forall i | 0 <= i < s.count :: t.table[i].rt == s.table[i].rt
    ensures Loads(t.Procs()) == Loads(s.Procs())
  {
  }

  /** The books of one step: what the table is charged with, what was granted, and the difference. */
  lemma StepLoad(h: History, ev: Event, left: RtParams, stale: real)
    requires h.state.WellFormed() && FreeSlotsHold(h.state, left)
    requires Sum(Loads(h.state.Procs())) == Sum(GrantedLoads(h.granted)) + stale
    ensures var created := ev.Create? && Scheduler.Create(h.state, ev.request).1.Created?;
            var more := if created && ev.request.params == None then SlotLoad(left) else 0.0;
            Sum(Loads(Step(h, ev).state.Procs())) == Sum(GrantedLoads(Step(h, ev).granted)) + stale + more
  {
    hide Sum, Feasible, SlotLoad, Loads, GrantedLoads, Pick;
    var g := Step(h, ev);
    if ev.Create? && Scheduler.Create(h.state, ev.request).1.Created? {
      LoadOfOneMore(h.state, g.state);
      GrantedLoadOfOneMore(h.granted, ev.request.params);
    } else {
      SameLoads(h.state, g.state);
    }
  }

  lemma ZeroLoad(p: RtParams)
    ensures p.periodMs == 0 || p.wcetUs == 0 ==> SlotLoad(p) == 0.0
  {
    LoadPositive(p);
  }

  lemma {:induction false} ChargedLoad(start: u64, events: seq<Event>)
    ensures var h := Run(start, events);
            Sum(Loads(h.state.Procs())) == Sum(GrantedLoads(h.granted)) + StaleLoad(start, events)
  {
    if |events| == 0 {
      assert Loads(Init(start).Procs()) == [] == GrantedLoads([]);
    } else {
      hide Step, Loads, GrantedLoads, Sum, SlotLoad;
      var rest, last := events[..|events| - 1], events[|events| - 1];
      ChargedLoad(start, rest);
      NextSlotHolds(start, rest);
      StepLoad(Run(start, rest), last, LeftBehind(start, rest), StaleLoad(start, rest));
      ZeroLoad(LeftBehind(start, rest));
    }
  }

  /**
   The admission test counts what was granted, and nothing else, exactly when no process without
   parameters was created while a refused request's load lay in its slot.
   */
  lemma ChargedAsGrantedIff(start: u64, events: seq<Event>)
    ensures var h := Run(start, events);
            Sum(Loads(h.state.Procs())) == Sum(GrantedLoads(h.granted)) <==> !LoadInherited(start, events)
  {
    hide Run, StaleLoad, LoadInherited;
    ChargedLoad(start, events);
    StaleIffInherited(start, events);
  }

  lemma SecondPower(x: real, y: real)
    requires x == y
    ensures Pow(x, 2) == y * y
  {
    assert Pow(x, 2) == x * Pow(x, 1);
    assert Pow(x, 1) == x * Pow(x, 0);
  }

  /**
   A request refused for its load of 97 percent, then a process without parameters: the latter
   now counts with 97 percent, and a later task of one percent is refused although no task was granted.
   */
  lemma StaleParametersBlockAdmission(start: u64)
    ensures var plain := Request(true, 4, None);
            var light := RtParams(10, 10, 100, 0);
            var (s, result) := Scheduler.Create(Init(start), Request(true, 0, Some(RtParams(10, 10, 9700, 0))));
            && result == Unavailable(1)
            && !Feasible(Scheduler.Create(s, plain).0.Procs(), light)
            && Feasible(Scheduler.Create(Init(start), plain).0.Procs(), light)
  {
    var plain := Request(true, 4, None);
    var heavy := RtParams(10, 10, 9700, 0);
    var s0 := Init(start);
    assert Loads(s0.Procs()) == [];
    assert Pow(2.02, 1) == 2.02 * Pow(2.02, 0);
    assert 1.0 + 1.02 / 1.0 == 2.02;
    assert !Feasible(s0.Procs(), heavy);
    var s1 := Scheduler.Create(s0, Request(true, 0, Some(heavy))).0;
    LoadOfOneMore(s0, Scheduler.Create(s0, plain).0);
    LoadOfOneMore(s1, Scheduler.Create(s1, plain).0);
    assert s1.Procs() == s0.Procs();
    SecondPower(1.0 + 1.03 / 2.0, 1.515);
    SecondPower(1.0 + 0.06 / 2.0, 1.03);
  }
}
