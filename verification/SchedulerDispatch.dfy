/** The order in which the scheduling loop dispatches processes, and where the time goes. */
module SchedulerDispatch {
  import opened Widths
  import opened Scheduler

  // ---------- runs without outside state changes ----------

  function After(s: State, times: seq<u64>): (t: State)
    requires s.WellFormed()
    ensures t.WellFormed()
    decreases |times|
  {
    if |times| == 0 then s else After(Iterate(s, times[0]), times[1..])
  }

  /** The process that is current after each iteration. */
  function Trace(s: State, times: seq<u64>): (pids: seq<nat>)
    requires s.WellFormed()
    ensures |pids| == |times|
    decreases |times|
  {
    if |times| == 0 then []
    else
      var t := Iterate(s, times[0]);
      [t.currentPid] + Trace(t, times[1..])
  }

  // ---------- the order ----------

  /** A process the loop can pick: ready, and of one of the five priorities. */
  predicate Eligible(s: State, i: nat)
    requires s.WellFormed()
  {
    i < s.count && s.table[i].state.Ready? && s.table[i].priority < 5
  }

  /** By priority, and by position in the table among equals. */
  predicate Before(s: State, i: nat, j: nat)
    requires s.WellFormed()
  {
    i < s.count && j < s.count
    && (s.table[i].priority < s.table[j].priority || (s.table[i].priority == s.table[j].priority && i < j))
  }

  /** `order` lists the eligible slots, each once, as a stable sort of the table by priority does. */
  ghost predicate IsStableOrder(s: State, order: seq<nat>)
    requires s.WellFormed()
  {
    (forall i: nat :: i in order <==> Eligible(s, i))
    && (forall j, k | 0 <= j < k < |order| :: Before(s, order[j], order[k]))
  }

  lemma {:induction false} BestIsFirst(s: State, n: nat)
    requires s.WellFormed() && n <= s.count
    ensures var b := Best(s.table[..n]);
            if b.Some? then
              Eligible(s, b.value) && (forall i: nat | i < n && i != b.value && Eligible(s, i) :: Before(s, b.value, i))
            else forall i: nat | i < n :: !Eligible(s, i)
  {
    if n > 0 {
      assert s.table[..n][..n - 1] == s.table[..n - 1];
      BestIsFirst(s, n - 1);
    }
  }

  /** The loop over the table picks the first eligible process in the order, and the idle process if there is none. */
  lemma PickIsFirst(s: State)
    requires s.WellFormed()
    ensures if Pick(s) != IDLE_PID
            then Eligible(s, Pick(s) - 1)
                 && (forall i: nat | i != Pick(s) - 1 && Eligible(s, i) :: Before(s, Pick(s) - 1, i))
            else forall i: nat :: !Eligible(s, i)
  {
    BestIsFirst(s, s.count);
    assert s.table[..s.count] == s.Procs();
  }

  lemma PickDetermined(s: State, i: nat)
    requires s.WellFormed() && Eligible(s, i)
    requires forall j: nat | j != i && Eligible(s, j) :: Before(s, i, j)
    ensures Pick(s) == i + 1
  {
    PickIsFirst(s);
  }

  /** The picked process is the current one already, so the switch that would mark it running is skipped. */
  predicate SelfPick(s: State)
    requires s.WellFormed()
  {
    Pick(s) != IDLE_PID && Pick(s) == s.currentPid
  }

  /** A picked process leaves the ready set for good; nothing else about eligibility changes. */
  lemma IterateTakesFirst(s: State, now: u64)
    requires s.WellFormed() && !SelfPick(s)
    ensures var t := Iterate(s, now);
            && t.currentPid == Pick(s)
            && t.count == s.count
            && (forall i: nat :: Eligible(t, i) <==> Eligible(s, i) && i != Pick(s) - 1)
            && (forall i | 0 <= i < s.count :: t.table[i].priority == s.table[i].priority)
            && !SelfPick(t)
  {
    var t := Iterate(s, now);
    PickIsFirst(s);
    PickIsFirst(t);
  }

  lemma FirstInOrder(s: State, order: seq<nat>)
    requires s.WellFormed() && IsStableOrder(s, order) && |order| > 0
    ensures Pick(s) == order[0] + 1
  {
    assert order[0] in order;
    forall j: nat | j != order[0] && Eligible(s, j)
      ensures Before(s, order[0], j)
    {
      assert j in order;
      var k :| 0 <= k < |order| && order[k] == j;
    }
    PickDetermined(s, order[0]);
  }

  lemma IdleNow(s: State)
    requires s.WellFormed() && IsStableOrder(s, [])
    ensures Pick(s) == IDLE_PID
  {
    hide Pick;
    forall i: nat
      ensures !Eligible(s, i)
    {
      assert i !in [];
    }
    PickIsFirst(s);
  }

  lemma RestOfOrder(s: State, t: State, order: seq<nat>)
    requires s.WellFormed() && t.WellFormed() && s.count == t.count
    requires |order| > 0 && IsStableOrder(s, order)
    requires forall i: nat :: Eligible(t, i) <==> Eligible(s, i) && i != order[0]
    requires forall i | 0 <= i < s.count :: t.table[i].priority == s.table[i].priority
    ensures IsStableOrder(t, order[1..])
  {
  }

  /** One iteration dispatches the head of the order and leaves its tail. */
  lemma OrderStep(s: State, now: u64, order: seq<nat>)
    requires s.WellFormed() && !SelfPick(s) && IsStableOrder(s, order)
    ensures var t := Iterate(s, now);
            && !SelfPick(t)
            && IsStableOrder(t, if |order| == 0 then [] else order[1..])
            && t.currentPid == if |order| == 0 then IDLE_PID else order[0] + 1
  {
    hide Iterate, Pick, SelfPick, Before;
    IterateTakesFirst(s, now);
    if |order| == 0 {
      IdleNow(s);
    } else {
      FirstInOrder(s, order);
      RestOfOrder(s, Iterate(s, now), order);
    }
  }

  /**
   Whatever the clock does, the iterations dispatch the eligible processes in stable priority
   order, each exactly once, and the idle process ever after.
   */
  lemma {:induction false} DispatchOrder(s: State, times: seq<u64>, order: seq<nat>)
    requires s.WellFormed() && !SelfPick(s) && IsStableOrder(s, order)
    ensures forall k | 0 <= k < |times| ::
              Trace(s, times)[k] == if k < |order| then order[k] + 1 else IDLE_PID
    decreases |times|
  {
    if |times| == 0 { return; }
    hide Iterate, Pick, SelfPick, Eligible, Before, IsStableOrder;
    var t := Iterate(s, times[0]);
    var rest := if |order| == 0 then [] else order[1..];
    OrderStep(s, times[0], order);
    DispatchOrder(t, times[1..], rest);
    assert Trace(s, times) == [t.currentPid] + Trace(t, times[1..]);
    forall k | 0 < k < |times|
      ensures Trace(s, times)[k] == if k < |order| then order[k] + 1 else IDLE_PID
    {
      assert Trace(s, times)[k] == Trace(t, times[1..])[k - 1];
    }
  }

  /** Slot `i` runs and carries the time it was dispatched at. */
  predicate Stamped(s: State, i: nat, now: u64)
    requires s.WellFormed()
  {
    i < s.count && s.table[i].state.Running? && s.table[i].lastScheduled == now
  }

  lemma {:induction false} StampKept(s: State, times: seq<u64>, i: nat, now: u64)
    requires s.WellFormed() && !SelfPick(s) && Stamped(s, i, now)
    ensures Stamped(After(s, times), i, now)
    decreases |times|
  {
    if |times| > 0 {
      PickIsFirst(s);
      IterateTakesFirst(s, times[0]);
      StampKept(Iterate(s, times[0]), times[1..], i, now);
    }
  }

  lemma FreshStamp(s: State, now: u64)
    requires s.WellFormed() && !SelfPick(s) && Pick(s) != IDLE_PID
    ensures Stamped(Iterate(s, now), Pick(s) - 1, now)
  {
  }

  /** Each process dispatched by then is running, stamped with the time of its own dispatch. */
  lemma {:induction false} DispatchStamps(s: State, times: seq<u64>, order: seq<nat>, k: nat)
    requires s.WellFormed() && !SelfPick(s) && IsStableOrder(s, order)
    requires k < |order| && k < |times|
    ensures Stamped(After(s, times), order[k], times[k])
    decreases |times|
  {
    hide IsStableOrder, Stamped;
    IterateTakesFirst(s, times[0]);
    var t := Iterate(s, times[0]);
    FirstInOrder(s, order);
    if k == 0 {
      FreshStamp(s, times[0]);
      StampKept(t, times[1..], order[0], times[0]);
    } else {
      RestOfOrder(s, t, order);
      DispatchStamps(t, times[1..], order[1..], k - 1);
    }
  }

  /** Insertion behind everything that is not of a later priority. */
  lemma {:induction false} Insert(s: State, rest: seq<nat>, x: nat) returns (order: seq<nat>)
    requires s.WellFormed() && x < s.count
    requires forall k | 0 <= k < |rest| :: rest[k] < x
    requires forall j, k | 0 <= j < k < |rest| :: Before(s, rest[j], rest[k])
    ensures |order| == |rest| + 1
    ensures forall i: nat :: i in order <==> i == x || i in rest
    ensures forall j, k | 0 <= j < k < |order| :: Before(s, order[j], order[k])
  {
    if |rest| == 0 { return [x]; }
    if Before(s, x, rest[0]) { return [x] + rest; }
    assert rest[0] in rest;
    assert rest == [rest[0]] + rest[1..];
    var tail := Insert(s, rest[1..], x);
    order := [rest[0]] + tail;
    forall k | 0 < k < |order|
      ensures Before(s, order[0], order[k])
    {
      assert order[k] in tail;
    }
  }

  lemma {:induction false} OrderOfPrefix(s: State, n: nat) returns (order: seq<nat>)
    requires s.WellFormed() && n <= s.count
    ensures |order| <= n
    ensures forall i: nat :: i in order <==> i < n && Eligible(s, i)
    ensures forall j, k | 0 <= j < k < |order| :: Before(s, order[j], order[k])
  {
    if n == 0 { return []; }
    var rest := OrderOfPrefix(s, n - 1);
    if !Eligible(s, n - 1) { return rest; }
    assert forall k | 0 <= k < |rest| :: rest[k] in rest;
    order := Insert(s, rest, n - 1);
  }

  /** There is such an order for every table, so DispatchOrder speaks about every start. */
  lemma StableOrderExists(s: State) returns (order: seq<nat>)
    requires s.WellFormed()
    ensures IsStableOrder(s, order) && |order| <= s.count
  {
    order := OrderOfPrefix(s, s.count);
  }

  /** A picked process that is current already is never marked running: it is picked for ever and starves the rest. */
  lemma {:induction false} SelfPickStarves(s: State, times: seq<u64>)
    requires s.WellFormed() && SelfPick(s)
    ensures forall k | 0 <= k < |times| :: Trace(s, times)[k] == s.currentPid
    ensures forall i: nat :: Eligible(After(s, times), i) <==> Eligible(s, i)
    decreases |times|
  {
    if |times| > 0 {
      var t := Iterate(s, times[0]);
      PickIsFirst(s);
      assert forall i: nat :: Eligible(t, i) <==> Eligible(s, i);
      PickDetermined(t, Pick(s) - 1);
      SelfPickStarves(t, times[1..]);
    }
  }

  /** The ready queue drains exactly when the loop does not start out by picking the current process. */
  lemma DrainsIffNoSelfPick(s: State)
    requires s.WellFormed()
    ensures (forall times: seq<u64> :: |times| == s.count + 1 ==> Trace(s, times)[s.count] == IDLE_PID)
            <==> !SelfPick(s)
  {
    if SelfPick(s) {
      var times: seq<u64> := seq(s.count + 1, i => 0);
      SelfPickStarves(s, times);
      assert Trace(s, times)[s.count] != IDLE_PID;
    } else {
      var order := StableOrderExists(s);
      forall times: seq<u64> | |times| == s.count + 1
        ensures Trace(s, times)[s.count] == IDLE_PID
      {
        DispatchOrder(s, times, order);
      }
    }
  }

  // ---------- where the time goes ----------

  /** What the loop takes for the time since the last iteration. */
  function Elapsed(s: State, now: u64): (e: u64)
    ensures e == now - s.lastTick + if now < s.lastTick then TWO_64 else 0
  {
    Wrap64(now - s.lastTick)
  }

  function TotalUsed(procs: seq<Pcb>): nat {
    if |procs| == 0 then 0 else TotalUsed(procs[..|procs| - 1]) + procs[|procs| - 1].timeUsed
  }

  /** The time that iterations found the idle process current for. */
  function IdleTime(s: State, times: seq<u64>): nat
    requires s.WellFormed()
    decreases |times|
  {
    if |times| == 0 then 0
    else
      var t := Iterate(s, times[0]);
      (if t.currentPid == IDLE_PID then Elapsed(s, times[0]) else 0) + IdleTime(t, times[1..])
  }

  lemma {:induction false} TotalUsedUpdate(procs: seq<Pcb>, k: nat, p: Pcb)
    requires k < |procs|
    ensures TotalUsed(procs[k := p]) == TotalUsed(procs) - procs[k].timeUsed + p.timeUsed
  {
    var n := |procs| - 1;
    if k < n {
      TotalUsedUpdate(procs[..n], k, p);
      assert procs[k := p][..n] == procs[..n][k := p];
    } else {
      assert procs[k := p][..n] == procs[..n];
    }
  }

  lemma {:induction false} OneUsed(procs: seq<Pcb>, k: nat)
    requires k < |procs|
    ensures procs[k].timeUsed <= TotalUsed(procs)
  {
    if k < |procs| - 1 { OneUsed(procs[..|procs| - 1], k); }
  }

  lemma ChargeAdds(s: State, now: u64)
    requires s.WellFormed() && s.currentPid != IDLE_PID
    ensures var delta := Elapsed(s, now);
            var total := TotalUsed(Charge(s, now).Procs());
            && (total == TotalUsed(s.Procs()) + delta || total == TotalUsed(s.Procs()) + delta - TWO_64)
            && (TotalUsed(s.Procs()) + delta < TWO_64 ==> total == TotalUsed(s.Procs()) + delta)
  {
    var k := s.currentPid - 1;
    TotalUsedUpdate(s.Procs(), k, Charge(s, now).table[k]);
    OneUsed(s.Procs(), k);
    assert Charge(s, now).Procs() == s.Procs()[k := Charge(s, now).table[k]];
  }

  lemma SwitchKeepsTimes(s: State, next: nat, now: u64)
    requires s.WellFormed() && next <= s.count
    ensures TotalUsed(Switch(s, next, now).Procs()) == TotalUsed(s.Procs())
  {
    var t := Switch(s, next, now);
    if t.table != s.table {
      TotalUsedUpdate(s.Procs(), next - 1, t.table[next - 1]);
      assert t.Procs() == s.Procs()[next - 1 := t.table[next - 1]];
    } else {
      assert t.Procs() == s.Procs();
    }
  }

  /** One iteration adds the elapsed time to the processes or to the idle time, up to wrapping of one counter. */
  lemma IterateCharges(s: State, now: u64)
    requires s.WellFormed()
    ensures var t := Iterate(s, now);
            var delta := Elapsed(s, now);
            var total := TotalUsed(t.Procs());
            && t.lastTick == now
            && if t.currentPid == IDLE_PID then total == TotalUsed(s.Procs())
               else (total == TotalUsed(s.Procs()) + delta || total == TotalUsed(s.Procs()) + delta - TWO_64)
                    && (TotalUsed(s.Procs()) + delta < TWO_64 ==> total == TotalUsed(s.Procs()) + delta)
  {
    var u := Switch(s, Pick(s), now);
    SwitchKeepsTimes(s, Pick(s), now);
    if u.currentPid != IDLE_PID { ChargeAdds(u, now); }
    hide Switch;
    assert Iterate(s, now).Procs() == Charge(u, now).Procs();
  }

  predicate Monotone(from: u64, times: seq<u64>)
    decreases |times|
  {
    |times| > 0 ==> from <= times[0] && Monotone(times[0], times[1..])
  }

  /**
   With a clock that never goes back, and no more time on the processes' accounts than the clock
   shows, every microsecond that passes is charged once: to a process or to idling.
   */
  lemma {:induction false} TimeConserved(s: State, times: seq<u64>)
    requires s.WellFormed() && Monotone(s.lastTick, times) && TotalUsed(s.Procs()) <= s.lastTick
    ensures var t := After(s, times);
            TotalUsed(t.Procs()) + IdleTime(s, times) == TotalUsed(s.Procs()) + t.lastTick - s.lastTick
    decreases |times|
  {
    if |times| > 0 {
      hide Iterate, TotalUsed, Elapsed;
      IterateCharges(s, times[0]);
      TimeConserved(Iterate(s, times[0]), times[1..]);
    }
  }

  /** With any clock the same balance holds modulo 2^64. */
  lemma {:induction false} TimeConservedModulo(s: State, times: seq<u64>) returns (turns: int)
    requires s.WellFormed()
    ensures var t := After(s, times);
            TotalUsed(t.Procs()) + IdleTime(s, times)
            == TotalUsed(s.Procs()) + t.lastTick - s.lastTick + turns * TWO_64
    decreases |times|
  {
    if |times| == 0 { return 0; }
    hide Iterate, TotalUsed, Elapsed;
    var t := Iterate(s, times[0]);
    IterateCharges(s, times[0]);
    var rest := TimeConservedModulo(t, times[1..]);
    var wrapped := if times[0] < s.lastTick then 1 else 0;
    var over := if t.currentPid != IDLE_PID
                   && TotalUsed(t.Procs()) != TotalUsed(s.Procs()) + Elapsed(s, times[0]) then 1 else 0;
    turns := rest + wrapped - over;
  }

  // ---------- who the time is charged to ----------

  /** What the clock advanced by while `pid` was the one dispatched, if `pids` were dispatched at `times`. */
  function ClockTime(pids: seq<nat>, from: int, times: seq<u64>, pid: nat): int
    requires |pids| == |times|
    decreases |times|
  {
    if |times| == 0 then 0
    else (if pids[0] == pid then times[0] - from else 0) + ClockTime(pids[1..], times[0], times[1..], pid)
  }

  lemma WrapOfWrap(a: int, b: int)
    ensures Wrap64(Wrap64(a) + b) == Wrap64(a + b)
    ensures Wrap64(b + Wrap64(a)) == Wrap64(a + b)
  {
  }

  /** One iteration charges the advance of the clock to the process that it leaves current, and nothing to the others. */
  lemma IterateChargesCurrent(s: State, now: u64, i: nat)
    requires s.WellFormed() && i < MAX_PROCESSES
    ensures var t := Iterate(s, now);
            && t.lastTick == now
            && t.table[i].timeUsed
               == if t.currentPid == i + 1 then Wrap64(s.table[i].timeUsed + (now - s.lastTick)) else s.table[i].timeUsed
  {
    hide Pick;
    WrapOfWrap(now - s.lastTick, s.table[i].timeUsed);
  }

  lemma WrapSame(x: u64)
    ensures Wrap64(x) == x
  {
  }

  /**
   Whatever the clock does, every process is charged, modulo 2^64, with the clock's advances over
   exactly the iterations that leave it current.
   */
  lemma {:induction false} TimeGoesToDispatched(s: State, times: seq<u64>, i: nat)
    requires s.WellFormed() && i < MAX_PROCESSES
    ensures After(s, times).table[i].timeUsed
            == Wrap64(s.table[i].timeUsed + ClockTime(Trace(s, times), s.lastTick, times, i + 1))
    decreases |times|
  {
    hide Iterate, Wrap64;
    if |times| == 0 {
      WrapSame(s.table[i].timeUsed);
    } else {
      var t := Iterate(s, times[0]);
      IterateChargesCurrent(s, times[0], i);
      TimeGoesToDispatched(t, times[1..], i);
      assert Trace(s, times)[1..] == Trace(t, times[1..]);
      var rest := ClockTime(Trace(t, times[1..]), times[0], times[1..], i + 1);
      WrapOfWrap(s.table[i].timeUsed + (times[0] - s.lastTick), rest);
    }
  }

  /** The other counters of the loop: the number of iterations, and when deadlines were last looked at. */
  lemma {:induction false} LoopCounters(s: State, times: seq<u64>)
    requires s.WellFormed() && |times| > 0
    ensures var t, last := After(s, times), times[|times| - 1];
            && t.ticks == Wrap64(s.ticks + |times|)
            && t.lastTick == last
            && Wrap64(last - t.lastDeadlineCheck) < 1000
            && (t.lastDeadlineCheck == s.lastDeadlineCheck || t.lastDeadlineCheck in times)
    decreases |times|
  {
    hide Pick, Switch, Charge;
    var t := Iterate(s, times[0]);
    WrapOfWrap(s.ticks + 1, |times| - 1);
    if |times| > 1 {
      LoopCounters(t, times[1..]);
      assert forall x | x in times[1..] :: x in times;
    } else {
      assert After(t, times[1..]) == t;
    }
  }

  /** Deadlines are looked at exactly when a millisecond has passed since the last look. */
  lemma DeadlineCheckDue(s: State, now: u64)
    requires s.WellFormed() && now != s.lastDeadlineCheck
    ensures Iterate(s, now).lastDeadlineCheck == now <==> Wrap64(now - s.lastDeadlineCheck) >= 1000
  {
    hide Pick, Switch, Charge;
  }
}
