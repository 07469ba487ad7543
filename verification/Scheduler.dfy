/**
 The process table and the scheduling loop of kernel/core/scheduler.c. Floats are reals, and
 powf(2, 1/n) is an input `root` of which only root^n = 2 is known. The clock is an input, and the
 endless loop of scheduler_start is one method per iteration.
 */
module Scheduler {
  import opened Widths
  import opened RateMonotonic

  const MAX_PROCESSES: nat := 32
  const IDLE_PID: nat := 0
  const PRIORITY_COUNT: nat := 5
  const SAFETY_MARGIN := 0.05

  datatype ProcessState = Initial | Ready | Running | Blocked | Suspended | Terminated

  datatype RtParams = RtParams(periodMs: u32, deadlineMs: u32, wcetUs: u32, jitterUs: u32)

  datatype Pcb = Pcb(
    pid: u16,
    state: ProcessState,
    priority: u32,
    rt: RtParams,
    timeUsed: u64,
    lastScheduled: u64)

  datatype State = State(
    table: seq<Pcb>,
    count: nat,
    currentPid: nat,
    ticks: u64,
    lastTick: u64,
    lastDeadlineCheck: u64)
  {
    /** Slot i holds process i + 1, and the current process is one of the table or the idle one. */
    predicate WellFormed() {
      |table| == MAX_PROCESSES && count <= MAX_PROCESSES && currentPid <= count
      && forall i | 0 <= i < count :: table[i].pid == i + 1
    }

    function Procs(): seq<Pcb>
      requires count <= |table|
    {
      table[..count]
    }
  }

  datatype Request = Request(hasTarget: bool, priority: u32, params: Option<RtParams>)

  datatype CreateResult = InvalidParam | Unavailable(pid: nat) | Created(pid: nat)

  // ---------- admission ----------

  /** What a table slot contributes to the utilization sum. */
  function SlotLoad(p: RtParams): (u: real)
    ensures u >= 0.0
  {
    if p.periodMs > 0 then p.wcetUs as real / (p.periodMs as real * 1000.0) else 0.0
  }

  function Loads(procs: seq<Pcb>): (us: seq<real>)
    ensures |us| == |procs| && NonNegative(us)
  {
    seq(|procs|, i requires 0 <= i < |procs| => SlotLoad(procs[i].rt))
  }

  /** The checks on the parameters alone; the comparison in microseconds is in wrapping 32-bit arithmetic. */
  predicate WellPosed(p: RtParams) {
    p.periodMs > 0 && p.deadlineMs > 0 && p.wcetUs > 0
    && p.deadlineMs <= p.periodMs
    && p.wcetUs < Wrap32(p.periodMs * 1000)
  }

  predicate Feasible(procs: seq<Pcb>, p: RtParams) {
    WellPosed(p) && WithinBound(Sum(Loads(procs)) + SlotLoad(p) + SAFETY_MARGIN, |procs| + 1)
  }

  /** process_create. A refused request has already overwritten the first uncounted slot. */
  function Create(s: State, r: Request): (result: (State, CreateResult))
    requires s.WellFormed()
    ensures result.0.WellFormed()
  {
    if !r.hasTarget || s.count >= MAX_PROCESSES then (s, InvalidParam)
    else
      var slot := s.table[s.count].(
        pid := s.count + 1,
        state := Initial,
        priority := r.priority,
        rt := if r.params.Some? then r.params.value else s.table[s.count].rt);
      var t := s.(table := s.table[s.count := slot]);
      if r.params.Some? && !Feasible(s.Procs(), r.params.value) then (t, Unavailable(s.count + 1))
      else (t.(count := s.count + 1), Created(s.count + 1))
  }

  // ---------- dispatch ----------

  /** The slot the loop over the table settles on. */
  function Best(procs: seq<Pcb>): (b: Option<nat>)
    ensures b.Some? ==> b.value < |procs|
  {
    if |procs| == 0 then None
    else
      var last := |procs| - 1;
      var b := Best(procs[..last]);
      var highest: int := if b.Some? then procs[b.value].priority else PRIORITY_COUNT;
      if procs[last].state.Ready? && procs[last].priority < highest then Some(last) else b
  }

  function Pick(s: State): (pid: nat)
    requires s.WellFormed()
    ensures pid <= s.count
  {
    var b := Best(s.Procs());
    if b.Some? then b.value + 1 else IDLE_PID
  }

  /** The context switch: nothing happens when the picked process is already the current one. */
  function Switch(s: State, next: nat, now: u64): (t: State)
    requires s.WellFormed() && next <= s.count
    ensures t.WellFormed() && t.count == s.count
    ensures t.ticks == s.ticks && t.lastTick == s.lastTick && t.lastDeadlineCheck == s.lastDeadlineCheck
  {
    if next == s.currentPid then s
    else if next == IDLE_PID then s.(currentPid := next)
    else s.(currentPid := next,
            table := s.table[next - 1 := s.table[next - 1].(state := Running, lastScheduled := now)])
  }

  /** The time since the last iteration, charged to the process that is current now. */
  function Charge(s: State, now: u64): (t: State)
    requires s.WellFormed()
    ensures t.WellFormed() && t.count == s.count && t.currentPid == s.currentPid
    ensures t.ticks == s.ticks && t.lastTick == s.lastTick && t.lastDeadlineCheck == s.lastDeadlineCheck
  {
    if s.currentPid == IDLE_PID then s
    else
      var p := s.table[s.currentPid - 1];
      s.(table := s.table[s.currentPid - 1 := p.(timeUsed := Wrap64(p.timeUsed + Wrap64(now - s.lastTick)))])
  }

  /** One turn of the scheduling loop at time `now`. */
  function Iterate(s: State, now: u64): (t: State)
    requires s.WellFormed()
    ensures t.WellFormed()
  {
    Charge(Switch(s, Pick(s), now), now).(
      lastTick := now,
      ticks := Wrap64(s.ticks + 1),
      lastDeadlineCheck := if Wrap64(now - s.lastDeadlineCheck) >= 1000 then now else s.lastDeadlineCheck)
  }

  /** A change of a process's state from outside the scheduler; no file of the repository makes one. */
  function SetState(s: State, pid: nat, state: ProcessState): (t: State)
    requires s.WellFormed()
    ensures t.WellFormed() && t.count == s.count
  {
    if 0 < pid <= s.count then s.(table := s.table[pid - 1 := s.table[pid - 1].(state := state)]) else s
  }

  function Blank(): Pcb { Pcb(0, Initial, 0, RtParams(0, 0, 0, 0), 0, 0) }

  function Init(now: u64): (s: State)
    ensures s.WellFormed()
  {
    State(seq(MAX_PROCESSES, i => Blank()), 0, IDLE_PID, 0, now, 0)
  }

  class Kernel {
    const table: array<Pcb>
    var processCount: nat
    var currentPid: nat
    var ticks: u64
    var lastTick: u64
    var lastDeadlineCheck: u64

    ghost predicate Valid()
      reads this, table
    {
      table.Length == MAX_PROCESSES && View().WellFormed()
    }

    function View(): State
      reads this, table
    {
      State(table[..], processCount, currentPid, ticks, lastTick, lastDeadlineCheck)
    }

    /** scheduler_init */
    constructor (now: u64)
      ensures Valid() && fresh(table)
      ensures View() == Init(now)
    {
      table := new Pcb[MAX_PROCESSES](i => Blank());
      processCount, currentPid, ticks, lastTick, lastDeadlineCheck := 0, IDLE_PID, 0, now, 0;
      new;
      assert table[..] == seq(MAX_PROCESSES, i => Blank());
    }

    /** scheduler_rt_feasibility_check; a NULL parameter block is always feasible. */
    method FeasibilityCheck(params: Option<RtParams>, root: real) returns (ok: bool)
      requires Valid()
      requires root > 0.0 && Pow(root, processCount + 1) == 2.0
      ensures ok <==> params == None || Feasible(View().Procs(), params.value)
    {
      if params == None { return true; }
      var p := params.value;
      if p.periodMs == 0 || p.deadlineMs == 0 || p.wcetUs == 0 { return false; }
      if p.deadlineMs > p.periodMs { return false; }
      if p.wcetUs >= Wrap32(p.periodMs * 1000) { return false; }
      var taskUtilization := p.wcetUs as real / (p.periodMs as real * 1000.0);
      var systemUtilization := 0.0;
      ghost var loads := Loads(table[..processCount]);
      for i := 0 to processCount
        invariant systemUtilization == Sum(loads[..i]) >= 0.0
      {
        var existing := table[i].rt;
        assert loads[..i + 1][..i] == loads[..i] && loads[i] == SlotLoad(existing);
        if existing.periodMs > 0 {
          systemUtilization := systemUtilization + existing.wcetUs as real / (existing.periodMs as real * 1000.0);
        }
      }
      assert loads[..processCount] == loads;
      var totalTasks := processCount + 1;
      var rmsBound := totalTasks as real * (root - 1.0);
      RootFreeBound(systemUtilization + taskUtilization + SAFETY_MARGIN, totalTasks, root);
      return systemUtilization + taskUtilization <= rmsBound - SAFETY_MARGIN;
    }

    /** process_create */
    method ProcessCreate(hasTarget: bool, priority: u32, params: Option<RtParams>, root: real)
      returns (result: CreateResult)
      requires Valid()
      requires root > 0.0 && Pow(root, processCount + 1) == 2.0
      modifies this, table
      ensures Valid()
      ensures (View(), result) == Create(old(View()), Request(hasTarget, priority, params))
    {
      if !hasTarget || processCount >= MAX_PROCESSES { return InvalidParam; }
      ghost var before := View();
      var pid := processCount + 1;
      var slot := table[processCount].(pid := pid, state := Initial, priority := priority);
      if params.Some? { slot := slot.(rt := params.value); }
      table[processCount] := slot;
      assert View() == before.(table := before.table[processCount := slot]);
      assert View().Procs() == before.Procs();
      if params.Some? {
        var ok := FeasibilityCheck(params, root);
        if !ok { return Unavailable(pid); }
      }
      processCount := processCount + 1;
      return Created(pid);
    }

    /** The search for the ready process of the highest priority, first come first served. */
    method PickNext() returns (pid: nat)
      requires Valid()
      ensures pid == Pick(View())
    {
      pid := IDLE_PID;
      var highest: int := PRIORITY_COUNT;
      ghost var procs := table[..processCount];
      for i := 0 to processCount
        invariant var b := Best(procs[..i]);
                  && pid == (if b.Some? then b.value + 1 else IDLE_PID)
                  && highest == if b.Some? then procs[b.value].priority else PRIORITY_COUNT
      {
        assert procs[..i + 1][..i] == procs[..i];
        if table[i].state.Ready? && table[i].priority < highest {
          highest := table[i].priority;
          pid := table[i].pid;
        }
      }
      assert procs[..processCount] == procs;
    }

    /** The loop that looks a process up by its id. */
    method SlotOf(pid: nat) returns (slot: nat)
      requires Valid() && 0 < pid <= processCount
      ensures slot == pid - 1
    {
      slot := 0;
      while table[slot].pid != pid
        invariant slot <= pid - 1
        decreases pid - slot
      {
        slot := slot + 1;
      }
    }

    method SwitchTo(next: nat, now: u64)
      requires Valid() && next <= processCount
      modifies this, table
      ensures Valid()
      ensures View() == Switch(old(View()), next, now)
    {
      if next != currentPid {
        currentPid := next;
        if currentPid != IDLE_PID {
          var slot := SlotOf(currentPid);
          table[slot] := table[slot].(state := Running, lastScheduled := now);
          assert table[..] == old(table[..])[slot := table[slot]];
        }
      }
    }

    method ChargeCurrent(now: u64)
      requires Valid()
      modifies this, table
      ensures Valid()
      ensures View() == Charge(old(View()), now)
    {
      if currentPid != IDLE_PID {
        var slot := SlotOf(currentPid);
        table[slot] := table[slot].(timeUsed := Wrap64(table[slot].timeUsed + Wrap64(now - lastTick)));
        assert table[..] == old(table[..])[slot := table[slot]];
      }
    }

    /** One iteration of the loop of scheduler_start at time `now`. */
    method RunIteration(now: u64)
      requires Valid()
      modifies this, table
      ensures Valid()
      ensures View() == Iterate(old(View()), now)
    {
      hide Switch, Charge, Pick;
      var checkDue := Wrap64(now - lastDeadlineCheck) >= 1000;
      var next := PickNext();
      SwitchTo(next, now);
      ChargeCurrent(now);
      if checkDue { lastDeadlineCheck := now; }
      lastTick := now;
      ticks := Wrap64(ticks + 1);
    }
  }
}
