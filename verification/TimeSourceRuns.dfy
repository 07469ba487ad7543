/** What redundancy buys over whole runs, and where it does not help. */
module TimeSourceRuns {
  import opened Widths
  import opened TimeSources

  /** The highest frequency the timer driver accepts. */
  const MAX_TIMER_FREQUENCY := 1_000_000

  datatype Event = Tick(readings: Readings) | InitAgain(answers: BootAnswers)

  function Step(s: State, ev: Event): (t: State)
    requires s.WellFormed()
    ensures t.WellFormed()
  {
    match ev
    case Tick(r) => GetTickCount(s, r).1
    case InitAgain(a) => InitTime(s, a).1
  }

  function Run(s: State, events: seq<Event>): (t: State)
    requires s.WellFormed()
    ensures t.WellFormed()
  {
    if |events| == 0 then s else Step(Run(s, events[..|events| - 1]), events[|events| - 1])
  }

  function Boot(a: BootAnswers): (s: State)
    ensures s.WellFormed()
  {
    InitTime(Zeroed(), a).1
  }

  // ---------- the invariant of a system with both hardware sources ----------

  /**
   The states of a system whose two hardware sources both came up: a source is healthy until its
   fourth failure, at most one has had four, and the active source is the first healthy one.
   */
  ghost predicate Redundant(s: State) {
    s.WellFormed()
    && (var p, q, w := s.sources[PRIMARY], s.sources[SECONDARY], s.sources[SOFTWARE];
        && p.initialized && q.initialized && w.initialized && q.frequency == SECONDARY_FREQUENCY
        && p.failCount <= 4 && q.failCount <= 4 && w.failCount == 0
        && (p.healthy <==> p.failCount <= 3) && (q.healthy <==> q.failCount <= 3) && w.healthy
        && (p.healthy || q.healthy)
        && p.drift == q.drift
        && s.active == if p.healthy then PRIMARY else SECONDARY)
  }

  /** What one call may change for the worse but never for the better. */
  ghost predicate NoRecovery(s: State, t: State) {
    |s.sources| == SOURCE_COUNT && |t.sources| == SOURCE_COUNT
    && forall i | 0 <= i < SOURCE_COUNT ::
         (t.sources[i].healthy ==> s.sources[i].healthy) && s.sources[i].failCount <= t.sources[i].failCount
  }

  predicate SameClock(x: Source, y: Source) {
    x.bootTicks == y.bootTicks && x.frequency == y.frequency
  }

  /** No call resets a clock that came up. */
  ghost predicate ClocksKept(s: State, t: State) {
    |s.sources| == SOURCE_COUNT && |t.sources| == SOURCE_COUNT && t.softwareTicks == s.softwareTicks
    && SameClock(t.sources[PRIMARY], s.sources[PRIMARY]) && SameClock(t.sources[SECONDARY], s.sources[SECONDARY])
  }

  /** This call sees the source `x` ahead of `y` by more than the tolerated drift. */
  predicate Ahead(x: Source, xCounter: u64, y: Source, yCounter: u64)
    requires x.frequency > 0 && y.frequency > 0
  {
    Micros(x.bootTicks, x.frequency, xCounter) > Micros(y.bootTicks, y.frequency, yCounter) + 1_000
  }

  /** A comparison touches drifts and fail counts only, and blames the source that is ahead. */
  lemma CompareEffect(s: State, timer: u64, rtc: u64)
    requires s.WellFormed() && forall i | 0 <= i < SOURCE_COUNT :: s.sources[i].failCount <= 4
    ensures var t := CompareSources(s, timer, rtc);
            var p, q := s.sources[PRIMARY], s.sources[SECONDARY];
            && t == s.(sources := t.sources)
            && t.sources[PRIMARY]
               == p.(drift := t.sources[PRIMARY].drift, failCount := t.sources[PRIMARY].failCount)
            && t.sources[SECONDARY]
               == q.(drift := t.sources[SECONDARY].drift, failCount := t.sources[SECONDARY].failCount)
            && t.sources[SOFTWARE] == s.sources[SOFTWARE]
            && (p.drift == q.drift ==> t.sources[PRIMARY].drift == t.sources[SECONDARY].drift)
            && t.sources[PRIMARY].failCount
               == p.failCount + (if p.healthy && q.healthy && Ahead(p, timer, q, rtc) then 1 else 0)
            && t.sources[SECONDARY].failCount
               == q.failCount + (if p.healthy && q.healthy && Ahead(q, rtc, p, timer) then 1 else 0)
            && t.sources[PRIMARY].failCount + t.sources[SECONDARY].failCount <= p.failCount + q.failCount + 1
            && (!p.healthy || !q.healthy ==> t == s)
  {
    hide Micros;
  }

  lemma ValidateRedundant(s: State, r: Readings)
    requires Redundant(s)
    ensures Redundant(Validate(s, r)) && NoRecovery(s, Validate(s, r)) && ClocksKept(s, Validate(s, r))
  {
    hide CompareSources, Ahead;
    CompareEffect(s.(lastValidation := RawTime(s, r.atStart).0), r.timer, r.rtc);
  }

  lemma StepRedundant(s: State, ev: Event)
    requires Redundant(s)
    ensures Redundant(Step(s, ev)) && NoRecovery(s, Step(s, ev)) && ClocksKept(s, Step(s, ev))
  {
    hide Validate;
    if ev.Tick? { ValidateRedundant(s, ev.readings); }
  }

  lemma {:induction false} RunRedundant(s: State, events: seq<Event>)
    requires Redundant(s)
    ensures Redundant(Run(s, events)) && ClocksKept(s, Run(s, events))
  {
    if |events| > 0 {
      hide Redundant, Step;
      RunRedundant(s, events[..|events| - 1]);
      StepRedundant(Run(s, events[..|events| - 1]), events[|events| - 1]);
    }
  }

  lemma BootRedundant(a: BootAnswers)
    requires a.timerOk && a.rtcOk
    ensures Redundant(Boot(a))
    ensures Boot(a).sources[PRIMARY].failCount <= 1 && Boot(a).sources[PRIMARY].bootTicks == a.timerBoot
  {
    hide SourceTime;
    ValidateRedundant(InitSources(Zeroed(), a), a.first);
  }

  /** What initialisation records of each source, for all answers, and the time it notes as the last validation. */
  lemma BootRecords(a: BootAnswers)
    ensures var s := Boot(a);
            var p, q, w := s.sources[PRIMARY], s.sources[SECONDARY], s.sources[SOFTWARE];
            && p.initialized == p.healthy == a.timerOk && q.initialized == q.healthy == a.rtcOk
            && w.initialized && w.healthy && w.frequency == 1_000 && w.bootTicks == 0
            && (a.timerOk ==> p.bootTicks == a.timerBoot && p.frequency == a.timerFrequency)
            && (a.rtcOk ==> q.bootTicks == a.rtcBoot && q.frequency == 32_768)
            && s.lastValidation == if a.timerOk then Wrap64(a.first.atEnd - a.timerBoot) else 0
  {
    hide CompareSources, Ahead, Wrap64;
    var t := InitSources(Zeroed(), a);
    CompareEffect(t.(lastValidation := RawTime(t, a.first.atStart).0), a.first.timer, a.first.rtc);
  }

  /**
   After both hardware sources came up, for ever: at most four failures each and never four for
   both, an active source that is healthy, initialised and never the software counter, and equal drifts.
   */
  lemma AlwaysRedundant(a: BootAnswers, events: seq<Event>)
    requires a.timerOk && a.rtcOk
    ensures Redundant(Run(Boot(a), events))
  {
    hide Boot;
    BootRedundant(a);
    RunRedundant(Boot(a), events);
  }

  lemma {:induction false} HealthNeverRegained(a: BootAnswers, events: seq<Event>, n: nat)
    requires a.timerOk && a.rtcOk && n <= |events|
    ensures NoRecovery(Run(Boot(a), events[..n]), Run(Boot(a), events))
    decreases |events| - n
  {
    if n == |events| {
      assert events[..n] == events;
    } else {
      assert events[..n + 1][..n] == events[..n];
      AlwaysRedundant(a, events[..n]);
      StepRedundant(Run(Boot(a), events[..n]), events[n]);
      HealthNeverRegained(a, events, n + 1);
    }
  }

  /** The active source changes at most once in a run: a change is one to the secondary, and it stays there. */
  lemma OneFailover(a: BootAnswers, events: seq<Event>, i: nat, j: nat)
    requires a.timerOk && a.rtcOk && i <= j <= |events|
    ensures var before, after := Run(Boot(a), events[..i]).active, Run(Boot(a), events[..j]).active;
            before != after ==> before == PRIMARY && after == SECONDARY == Run(Boot(a), events).active
  {
    hide Run, Boot;
    AlwaysRedundant(a, events[..i]);
    AlwaysRedundant(a, events[..j]);
    AlwaysRedundant(a, events);
    assert events[..j][..i] == events[..i];
    HealthNeverRegained(a, events[..j], i);
    HealthNeverRegained(a, events, j);
  }

  // ---------- who is retired, and when ----------

  /** The validation of this call is due, and both hardware sources are there to compare. */
  predicate Compared(s: State, r: Readings)
    requires s.WellFormed()
  {
    s.sources[PRIMARY].healthy && s.sources[SECONDARY].healthy
    && Wrap64(RawTime(s, r.atStart).0 - s.lastValidation) >= 1_000_000
  }

  predicate PrimaryStrike(s: State, ev: Event)
    requires s.WellFormed()
  {
    ev.Tick? && Compared(s, ev.readings)
    && Ahead(s.sources[PRIMARY], ev.readings.timer, s.sources[SECONDARY], ev.readings.rtc)
  }

  predicate SecondaryStrike(s: State, ev: Event)
    requires s.WellFormed()
  {
    ev.Tick? && Compared(s, ev.readings)
    && Ahead(s.sources[SECONDARY], ev.readings.rtc, s.sources[PRIMARY], ev.readings.timer)
  }

  /** How many calls of a run compare the sources and see the primary ahead. */
  function PrimaryStrikes(s: State, events: seq<Event>): nat
    requires s.WellFormed()
  {
    if |events| == 0 then 0
    else
      var n := |events| - 1;
      PrimaryStrikes(s, events[..n]) + if PrimaryStrike(Run(s, events[..n]), events[n]) then 1 else 0
  }

  function SecondaryStrikes(s: State, events: seq<Event>): nat
    requires s.WellFormed()
  {
    if |events| == 0 then 0
    else
      var n := |events| - 1;
      SecondaryStrikes(s, events[..n]) + if SecondaryStrike(Run(s, events[..n]), events[n]) then 1 else 0
  }

  /** How far apart the sources show the time at these readings. */
  function Distance(p: Source, q: Source, r: Readings): nat
    requires p.frequency > 0 && q.frequency > 0
  {
    var a, b := Micros(p.bootTicks, p.frequency, r.timer), Micros(q.bootTicks, q.frequency, r.rtc);
    if a > b then a - b else b - a
  }

  /** How far apart a call finds the sources, if it compares them. */
  function Apart(s: State, ev: Event): nat
    requires s.WellFormed()
  {
    if ev.Tick? && Compared(s, ev.readings)
    then Distance(s.sources[PRIMARY], s.sources[SECONDARY], ev.readings) else 0
  }

  function TotalApart(s: State, events: seq<Event>): nat
    requires s.WellFormed()
  {
    if |events| == 0 then 0
    else TotalApart(s, events[..|events| - 1]) + Apart(Run(s, events[..|events| - 1]), events[|events| - 1])
  }

  lemma ValidateDrift(s: State, r: Readings)
    requires Redundant(s)
    ensures Validate(s, r).sources[PRIMARY].drift == Wrap64(s.sources[PRIMARY].drift + Apart(s, Tick(r)))
  {
    hide Micros, Ahead;
  }

  lemma StepDrift(s: State, ev: Event)
    requires Redundant(s)
    ensures Step(s, ev).sources[PRIMARY].drift == Wrap64(s.sources[PRIMARY].drift + Apart(s, ev))
  {
    hide Validate, Compared, Distance;
    if ev.Tick? {
      ValidateRedundant(s, ev.readings);
      ValidateDrift(s, ev.readings);
    }
  }

  lemma WrapTwice(a: int, b: int)
    ensures Wrap64(Wrap64(a) + b) == Wrap64(a + b)
  {
  }

  lemma WrapSmall(x: int)
    requires 0 <= x < TWO_64
    ensures Wrap64(x) == x
  {
  }

  lemma {:induction false} PrimaryDrift(s: State, events: seq<Event>)
    requires Redundant(s)
    ensures Run(s, events).sources[PRIMARY].drift == Wrap64(s.sources[PRIMARY].drift + TotalApart(s, events))
  {
    hide Step, Apart, Wrap64;
    if |events| == 0 {
      WrapSmall(s.sources[PRIMARY].drift);
    } else {
      var rest, last := events[..|events| - 1], events[|events| - 1];
      PrimaryDrift(s, rest);
      RunRedundant(s, rest);
      hide Redundant;
      var t, d: nat, more: nat := Run(s, rest), TotalApart(s, rest), Apart(Run(s, rest), last);
      StepDrift(t, last);
      assert Run(s, events) == Step(t, last) && TotalApart(s, events) == d + more;
      WrapTwice(s.sources[PRIMARY].drift + d, more);
    }
  }

  /**
   Over every run, both drifts grow by what the comparisons found the sources apart, modulo 2^64;
   `DistanceIsTrue` says when a distance is the true difference.
   */
  lemma DriftsAreDistances(s: State, events: seq<Event>)
    requires Redundant(s)
    ensures Run(s, events).sources[PRIMARY].drift == Wrap64(s.sources[PRIMARY].drift + TotalApart(s, events))
    ensures Run(s, events).sources[SECONDARY].drift == Wrap64(s.sources[SECONDARY].drift + TotalApart(s, events))
  {
    hide Run, TotalApart;
    PrimaryDrift(s, events);
    RunRedundant(s, events);
  }

  /** The fail counts after a call that finds `s` and leaves `t`. */
  ghost predicate CountsStrikes(s: State, ev: Event, t: State)
    requires s.WellFormed() && t.WellFormed()
  {
    && t.sources[PRIMARY].failCount == s.sources[PRIMARY].failCount + (if PrimaryStrike(s, ev) then 1 else 0)
    && t.sources[SECONDARY].failCount == s.sources[SECONDARY].failCount + (if SecondaryStrike(s, ev) then 1 else 0)
  }

  lemma ValidateStrikes(s: State, r: Readings)
    requires Redundant(s)
    ensures CountsStrikes(s, Tick(r), Validate(s, r))
  {
    hide CompareSources, Ahead;
    CompareEffect(s.(lastValidation := RawTime(s, r.atStart).0), r.timer, r.rtc);
  }

  lemma StepStrikes(s: State, ev: Event)
    requires Redundant(s)
    ensures CountsStrikes(s, ev, Step(s, ev))
  {
    hide Validate, Compared, Ahead;
    if ev.Tick? {
      ValidateRedundant(s, ev.readings);
      ValidateStrikes(s, ev.readings);
    }
  }

  /** The fail counts count the comparisons that saw a source ahead, over any run and any mixture of calls. */
  lemma {:induction false} FailuresAreStrikes(s: State, events: seq<Event>)
    requires Redundant(s)
    ensures var t := Run(s, events);
            && Redundant(t)
            && t.sources[PRIMARY].failCount == s.sources[PRIMARY].failCount + PrimaryStrikes(s, events)
            && t.sources[SECONDARY].failCount == s.sources[SECONDARY].failCount + SecondaryStrikes(s, events)
  {
    if |events| > 0 {
      hide Redundant, Step, PrimaryStrike, SecondaryStrike;
      var n := |events| - 1;
      FailuresAreStrikes(s, events[..n]);
      StepStrikes(Run(s, events[..n]), events[n]);
      StepRedundant(Run(s, events[..n]), events[n]);
    }
  }

  /**
   The primary is retired, and the secondary takes over, exactly when the primary has been seen
   ahead four times; the secondary is retired exactly when it has been seen ahead four times.
   */
  lemma FourthStrikeFailsOver(s: State, events: seq<Event>)
    requires Redundant(s)
    ensures var t := Run(s, events);
            && (t.active == SECONDARY <==> s.sources[PRIMARY].failCount + PrimaryStrikes(s, events) == 4)
            && (!t.sources[PRIMARY].healthy <==> t.active == SECONDARY)
            && (!t.sources[SECONDARY].healthy <==> s.sources[SECONDARY].failCount + SecondaryStrikes(s, events) == 4)
  {
    FailuresAreStrikes(s, events);
  }

  /** By these readings the primary is not ahead of the secondary. */
  predicate NotAhead(p: Source, q: Source, r: Readings) {
    p.frequency > 0 && q.frequency > 0
    && Micros(p.bootTicks, p.frequency, r.timer) <= Micros(q.bootTicks, q.frequency, r.rtc)
  }

  lemma {:induction false} SlowNeverStrikes(s: State, events: seq<Event>)
    requires Redundant(s)
    requires forall i | 0 <= i < |events| && events[i].Tick? ::
               NotAhead(s.sources[PRIMARY], s.sources[SECONDARY], events[i].readings)
    ensures PrimaryStrikes(s, events) == 0
  {
    if |events| > 0 {
      hide Redundant, Micros, Compared;
      var n := |events| - 1;
      SlowNeverStrikes(s, events[..n]);
      RunRedundant(s, events[..n]);
    }
  }

  /**
   Blame goes to the source that is ahead, so a primary that runs slow stays active for ever, while
   the secondary that is right is retired at the fourth comparison that sees it ahead.
   */
  lemma SlowPrimaryStaysActive(s: State, events: seq<Event>)
    requires Redundant(s) && s.active == PRIMARY
    requires forall i | 0 <= i < |events| && events[i].Tick? ::
               NotAhead(s.sources[PRIMARY], s.sources[SECONDARY], events[i].readings)
    ensures Run(s, events).active == PRIMARY
    ensures Run(s, events).sources[PRIMARY].failCount == s.sources[PRIMARY].failCount
    ensures !Run(s, events).sources[SECONDARY].healthy
            <==> s.sources[SECONDARY].failCount + SecondaryStrikes(s, events) == 4
  {
    SlowNeverStrikes(s, events);
    FailuresAreStrikes(s, events);
    FourthStrikeFailsOver(s, events);
  }

  // ---------- a timer that stops ----------

  /** A call during which the timer shows `c` throughout; the real-time clock shows anything. */
  predicate Stopped(ev: Event, c: u64) {
    ev.Tick? && ev.readings.atStart == ev.readings.timer == ev.readings.atEnd == c
  }

  /** With the timer at `c`, no validation is due any more. */
  predicate Settled(s: State, c: u64)
    requires s.WellFormed()
  {
    s.active == PRIMARY ==> Wrap64(Wrap64(c - s.sources[PRIMARY].bootTicks) - s.lastValidation) < VALIDATION_INTERVAL
  }

  lemma StoppedStep(s: State, ev: Event, c: u64)
    requires Redundant(s) && Stopped(ev, c)
    ensures Settled(Step(s, ev), c)
    ensures Settled(s, c) ==> !PrimaryStrike(s, ev)
  {
    hide CompareSources, Ahead;
    CompareEffect(s.(lastValidation := RawTime(s, c).0), c, ev.readings.rtc);
  }

  lemma {:induction false} StoppedStrikesOnce(s: State, events: seq<Event>, c: u64)
    requires Redundant(s) && |events| > 0 && forall i | 0 <= i < |events| :: Stopped(events[i], c)
    ensures Redundant(Run(s, events)) && Settled(Run(s, events), c)
    ensures PrimaryStrikes(s, events) == if PrimaryStrike(s, events[0]) then 1 else 0
  {
    hide Settled, PrimaryStrike, Step;
    var n := |events| - 1;
    RunRedundant(s, events);
    RunRedundant(s, events[..n]);
    StoppedStep(Run(s, events[..n]), events[n], c);
    if n > 0 {
      StoppedStrikesOnce(s, events[..n], c);
      assert events[..n][0] == events[0];
    } else {
      assert events[..n] == [];
    }
  }

  lemma StoppedRead(s: State, ev: Event, c: u64)
    requires Redundant(s) && s.active == PRIMARY && Settled(s, c) && Stopped(ev, c)
    ensures GetTickCount(s, ev.readings).0 == Wrap64(c - s.sources[PRIMARY].bootTicks)
  {
    hide CompareSources, RetireFailed, Failover;
  }

  /**
   A primary that stops is never found out: the interval between validations is measured by the
   stopped timer itself, so at most the first of its calls can blame it. It stays active unless
   that is the fourth failure, and the clock stands still, whatever the real-time clock shows.
   */
  lemma StoppedPrimaryStaysActive(s: State, events: seq<Event>, c: u64, last: Event)
    requires Redundant(s) && s.active == PRIMARY && |events| > 0
    requires forall i | 0 <= i < |events| :: Stopped(events[i], c)
    requires Stopped(last, c)
    ensures Run(s, events).active == SECONDARY <==>
              s.sources[PRIMARY].failCount == 3 && PrimaryStrike(s, events[0])
    ensures Run(s, events).active == PRIMARY ==>
              GetTickCount(Run(s, events), last.readings).0 == Wrap64(c - s.sources[PRIMARY].bootTicks)
  {
    hide Run, PrimaryStrike, PrimaryStrikes, SecondaryStrikes, GetTickCount;
    StoppedStrikesOnce(s, events, c);
    FourthStrikeFailsOver(s, events);
    RunRedundant(s, events);
    if Run(s, events).active == PRIMARY { StoppedRead(Run(s, events), last, c); }
  }

  /** After any start of both sources, a timer stuck at any value is never replaced, and time stands still. */
  lemma StuckFromBoot(a: BootAnswers, events: seq<Event>, c: u64, last: Event)
    requires a.timerOk && a.rtcOk && |events| > 0
    requires (forall i | 0 <= i < |events| :: Stopped(events[i], c)) && Stopped(last, c)
    ensures Run(Boot(a), events).active == PRIMARY
    ensures GetTickCount(Run(Boot(a), events), last.readings).0 == Wrap64(c - a.timerBoot)
  {
    hide Run, Boot, GetTickCount;
    BootRedundant(a);
    AlwaysRedundant(a, events);
    StoppedPrimaryStaysActive(Boot(a), events, c, last);
  }

  /** Both clocks come up at 0, the timer at its usual frequency. */
  function PlainBoot(): BootAnswers {
    BootAnswers(true, 0, MAX_TIMER_FREQUENCY, true, 0, Readings(0, 0, 0, 0))
  }

  /** Hourly reads by the real-time clock, with the timer stuck at 0 since boot. */
  function HourlyReads(n: nat): (events: seq<Event>)
    ensures |events| == n
  {
    seq(n, i => Tick(Readings(0, 0, Wrap64(SECONDARY_FREQUENCY * 3600 * (i + 1)), 0)))
  }

  /** After any number of hours on the other clock, the kernel's time is still 0 and nothing failed over. */
  lemma HoursLost(n: nat)
    requires n > 0
    ensures var start := Boot(PlainBoot());
            && Run(start, HourlyReads(n)).active == PRIMARY
            && GetTickCount(Run(start, HourlyReads(n)), HourlyReads(n)[n - 1].readings).0 == 0
  {
    hide Run, Boot, GetTickCount;
    StuckFromBoot(PlainBoot(), HourlyReads(n), 0, HourlyReads(n)[n - 1]);
  }

  // ---------- clocks that agree ----------

  /** Microseconds since boot by one source, in numbers without bounds. */
  function TrueMicros(x: Source, counter: u64): nat
    requires x.frequency > 0
  {
    Wrap64(counter - x.bootTicks) * 1_000_000 / x.frequency
  }

  /** The product with which the source converts ticks still fits in 64 bits. */
  predicate InRange(x: Source, counter: u64) {
    Wrap64(counter - x.bootTicks) * 1_000_000 < TWO_64
  }

  lemma Below(a: nat, b: nat, f: nat)
    requires a <= b
    ensures a * f <= b * f
  {
  }

  lemma QuotientAtLeast(x: nat, f: nat, q: nat)
    requires f > 0 && q * f <= x
    ensures q <= x / f
  {
    var r := x / f;
    assert (r + 1) * f == r * f + f;
    if r < q { Below(r + 1, q, f); }
  }

  lemma QuotientGap(x: nat, y: nat, f: nat, n: nat)
    requires f > 0 && x >= y + n * f
    ensures x / f >= y / f + n
  {
    var q := y / f;
    assert (q + n) * f == q * f + n * f;
    QuotientAtLeast(x, f, q + n);
  }

  lemma WrapFalls(x: nat)
    requires x >= TWO_64
    ensures Wrap64(x) <= x - TWO_64
  {
  }

  /** A product that no longer fits makes the source show at least 2^64 / frequency microseconds too little. */
  lemma WrapLoss(x: Source, counter: u64, n: nat)
    requires x.frequency > 0 && n * x.frequency <= TWO_64 && !InRange(x, counter)
    ensures Micros(x.bootTicks, x.frequency, counter) + n <= TrueMicros(x, counter)
  {
    var product: nat := Wrap64(counter - x.bootTicks) * 1_000_000;
    WrapFalls(product);
    QuotientGap(product, Wrap64(product), x.frequency, n);
  }

  /** The converted time is right exactly as long as the product fits: at 1 MHz, for about 213 days. */
  lemma MicrosExact(x: Source, counter: u64)
    requires x.frequency > 0
    ensures Micros(x.bootTicks, x.frequency, counter) == TrueMicros(x, counter) <==> InRange(x, counter)
  {
    hide Wrap64;
    if InRange(x, counter) { WrapSmall(Wrap64(counter - x.bootTicks) * 1_000_000); } else { WrapLoss(x, counter, 1); }
  }

  /** While both products fit, the distance that a comparison finds is the true difference in microseconds. */
  lemma DistanceIsTrue(p: Source, q: Source, r: Readings)
    requires p.frequency > 0 && q.frequency > 0 && InRange(p, r.timer) && InRange(q, r.rtc)
    ensures Distance(p, q, r) == TrueMicros(p, r.timer) - TrueMicros(q, r.rtc)
            || Distance(p, q, r) == TrueMicros(q, r.rtc) - TrueMicros(p, r.timer)
  {
    hide Micros, TrueMicros, InRange;
    MicrosExact(p, r.timer);
    MicrosExact(q, r.rtc);
  }

  /** By these readings the two hardware sources are at most the tolerated drift apart. */
  predicate Agree(p: Source, q: Source, r: Readings) {
    p.frequency > 0 && q.frequency > 0
    && -1_000 <= TrueMicros(p, r.timer) - TrueMicros(q, r.rtc) <= 1_000
  }

  lemma AgreementInRange(p: Source, q: Source, r: Readings)
    requires Agree(p, q, r) && InRange(p, r.timer) && InRange(q, r.rtc)
    ensures !Ahead(p, r.timer, q, r.rtc) && !Ahead(q, r.rtc, p, r.timer)
  {
    hide Micros, TrueMicros, InRange;
    MicrosExact(p, r.timer);
    MicrosExact(q, r.rtc);
  }

  lemma {:induction false} AgreementNeverStrikes(s: State, events: seq<Event>)
    requires Redundant(s)
    requires forall i | 0 <= i < |events| && events[i].Tick? ::
               var p, q, r := s.sources[PRIMARY], s.sources[SECONDARY], events[i].readings;
               Agree(p, q, r) && InRange(p, r.timer) && InRange(q, r.rtc)
    ensures PrimaryStrikes(s, events) == SecondaryStrikes(s, events) == 0
  {
    if |events| > 0 {
      hide Redundant, Micros, TrueMicros, Compared;
      var n := |events| - 1;
      AgreementNeverStrikes(s, events[..n]);
      RunRedundant(s, events[..n]);
      if events[n].Tick? { AgreementInRange(s.sources[PRIMARY], s.sources[SECONDARY], events[n].readings); }
    }
  }

  /** Sources that agree are never blamed, and nothing fails over, as long as their products fit. */
  lemma AgreementKeepsStanding(s: State, events: seq<Event>)
    requires Redundant(s)
    requires forall i | 0 <= i < |events| && events[i].Tick? ::
               var p, q, r := s.sources[PRIMARY], s.sources[SECONDARY], events[i].readings;
               Agree(p, q, r) && InRange(p, r.timer) && InRange(q, r.rtc)
    ensures Redundant(Run(s, events)) && Run(s, events).active == s.active
    ensures forall i | 0 <= i < SOURCE_COUNT ::
              Run(s, events).sources[i].failCount == s.sources[i].failCount
              && Run(s, events).sources[i].healthy == s.sources[i].healthy
  {
    hide Run, PrimaryStrikes, SecondaryStrikes, Agree, InRange;
    AgreementNeverStrikes(s, events);
    FailuresAreStrikes(s, events);
  }

  /**
   A comparison of clocks that agree blames a source exactly when the product of the other no longer
   fits, as long as one of the two fits: the source that is right is the one that gets the blame.
   When neither fits, both show too little, and anything can happen (`NeitherFits`).
   */
  lemma AgreementBlamedIff(s: State, r: Readings)
    requires Redundant(s) && Compared(s, r) && s.sources[PRIMARY].frequency <= MAX_TIMER_FREQUENCY
    requires Agree(s.sources[PRIMARY], s.sources[SECONDARY], r)
    ensures InRange(s.sources[PRIMARY], r.timer) || InRange(s.sources[SECONDARY], r.rtc) ==>
              && (PrimaryStrike(s, Tick(r)) <==> !InRange(s.sources[SECONDARY], r.rtc))
              && (SecondaryStrike(s, Tick(r)) <==> !InRange(s.sources[PRIMARY], r.timer))
  {
    hide Micros, TrueMicros, InRange, Compared;
    var p, q := s.sources[PRIMARY], s.sources[SECONDARY];
    MicrosExact(p, r.timer);
    MicrosExact(q, r.rtc);
    if !InRange(p, r.timer) { WrapLoss(p, r.timer, 3 * MAX_DRIFT); }
    if !InRange(q, r.rtc) { WrapLoss(q, r.rtc, 3 * MAX_DRIFT); }
  }

  /** The usual clocks, both at 0 when the system booted. */
  predicate UsualClocks(p: Source, q: Source) {
    p.bootTicks == q.bootTicks == 0 && p.frequency == MAX_TIMER_FREQUENCY && q.frequency == SECONDARY_FREQUENCY
  }

  /** Clocks 11 microseconds apart after 213 days, at the usual frequencies: the primary shows 0. */
  lemma AgreementEnds(p: Source, q: Source, r: Readings)
    requires UsualClocks(p, q) && r.timer == 18_446_744_073_710 && r.rtc == 604_462_909_807
    ensures Agree(p, q, r) && InRange(q, r.rtc) && !InRange(p, r.timer)
    ensures Micros(p.bootTicks, p.frequency, r.timer) == 0 && Ahead(q, r.rtc, p, r.timer)
  {
    assert Micros(0, MAX_TIMER_FREQUENCY, r.timer) == 0;
    assert Micros(0, SECONDARY_FREQUENCY, r.rtc) == 18_446_744_073_699;
  }

  /** What the usual clocks show at these readings, right and wrapped. */
  lemma Shown(p: Source, q: Source, r: Readings)
    requires UsualClocks(p, q)
    ensures TrueMicros(p, r.timer) == r.timer && TrueMicros(q, r.rtc) == r.rtc * 15_625 / 512
    ensures InRange(p, r.timer) <==> r.timer * 1_000_000 < TWO_64
    ensures InRange(q, r.rtc) <==> r.rtc * 1_000_000 < TWO_64
    ensures Micros(p.bootTicks, p.frequency, r.timer) == r.timer * 1_000_000 % TWO_64 / 1_000_000
    ensures Micros(q.bootTicks, q.frequency, r.rtc) == r.rtc * 1_000_000 % TWO_64 / 32_768
  {
    WrapSmall(r.timer);
    WrapSmall(r.rtc);
  }

  /** The same for agreement and blame. */
  lemma AheadInMicros(p: Source, q: Source, r: Readings)
    requires UsualClocks(p, q)
    ensures p.frequency > 0 && q.frequency > 0
    ensures Agree(p, q, r) <==> -1_000 <= r.timer - r.rtc * 15_625 / 512 <= 1_000
    ensures InRange(p, r.timer) <==> r.timer * 1_000_000 < TWO_64
    ensures InRange(q, r.rtc) <==> r.rtc * 1_000_000 < TWO_64
    ensures Ahead(p, r.timer, q, r.rtc) <==>
              r.timer * 1_000_000 % TWO_64 / 1_000_000 > r.rtc * 1_000_000 % TWO_64 / 32_768 + 1_000
    ensures Ahead(q, r.rtc, p, r.timer) <==>
              r.rtc * 1_000_000 % TWO_64 / 32_768 > r.timer * 1_000_000 % TWO_64 / 1_000_000 + 1_000
  {
    hide Micros, TrueMicros, InRange;
    Shown(p, q, r);
  }

  /** Three pairs of readings that agree and fit in neither product: the primary, the secondary, nobody is ahead. */
  lemma NeitherFits(p: Source, q: Source, a: Readings, b: Readings, c: Readings)
    requires UsualClocks(p, q)
    requires a.timer == 562_949_953_421_325 && a.rtc == 18_446_744_073_710
    requires b.timer == 571_849_066_284_997 && b.rtc == 18_738_350_204_026
    requires c.timer == 288_230_376_151_711_744 && c.rtc == 9_444_732_965_739_291
    ensures forall r | r in {a, b, c} :: Agree(p, q, r) && !InRange(p, r.timer) && !InRange(q, r.rtc)
    ensures Ahead(p, a.timer, q, a.rtc)
    ensures Ahead(q, b.rtc, p, b.timer)
    ensures !Ahead(p, c.timer, q, c.rtc) && !Ahead(q, c.rtc, p, c.timer)
  {
    hide Agree, InRange, Ahead, UsualClocks;
    AheadInMicros(p, q, a);
    AheadInMicros(p, q, b);
    AheadInMicros(p, q, c);
  }

  // ---------- a timer that runs slow, and one that runs fast ----------

  lemma PlainBootState()
    ensures var s := Boot(PlainBoot());
            && Redundant(s) && UsualClocks(s.sources[PRIMARY], s.sources[SECONDARY]) && s.lastValidation == 0
            && s.sources[PRIMARY].failCount == s.sources[SECONDARY].failCount == 0
  {
    BootRedundant(PlainBoot());
  }

  lemma ValidateNoted(s: State, r: Readings)
    requires Redundant(s) && Compared(s, r)
    ensures Validate(s, r).lastValidation == RawTime(s, r.atStart).0
  {
    hide Ahead, CompareSources;
    CompareEffect(s.(lastValidation := RawTime(s, r.atStart).0), r.timer, r.rtc);
  }

  /** A validation that is due counts as the last one. */
  lemma ValidationNoted(s: State, r: Readings)
    requires Redundant(s) && Compared(s, r)
    ensures Step(s, Tick(r)).lastValidation == RawTime(s, r.atStart).0
  {
    hide Validate, Compared;
    ValidateRedundant(s, r);
    ValidateNoted(s, r);
  }

  /** The usual clocks, last compared at `at` ticks of the timer, with these failures so far. */
  ghost predicate Steady(s: State, at: nat, primaryFails: nat, secondaryFails: nat) {
    && Redundant(s) && UsualClocks(s.sources[PRIMARY], s.sources[SECONDARY]) && s.lastValidation == at
    && s.sources[PRIMARY].failCount == primaryFails && s.sources[SECONDARY].failCount == secondaryFails
  }

  /** Read `k` of a run in which the timer counts one second where two pass. */
  function SlowRead(k: nat): Readings
    requires k <= 4
  {
    Readings(k * 1_000_000, k * 1_000_000, k * 65_536, k * 1_000_000)
  }

  lemma SlowReadBlames(s: State, k: nat)
    requires 0 < k <= 4 && Steady(s, (k - 1) * 1_000_000, 0, k - 1)
    ensures Steady(Step(s, Tick(SlowRead(k))), k * 1_000_000, 0, k)
  {
    hide Step;
    var r := SlowRead(k);
    assert Micros(0, MAX_TIMER_FREQUENCY, r.timer) == k * 1_000_000;
    assert Micros(0, SECONDARY_FREQUENCY, r.rtc) == k * 2_000_000;
    hide Micros;
    assert Compared(s, r) && SecondaryStrike(s, Tick(r)) && !PrimaryStrike(s, Tick(r));
    StepStrikes(s, Tick(r));
    StepRedundant(s, Tick(r));
    ValidationNoted(s, r);
  }

  function SlowReads(n: nat): (events: seq<Event>)
    requires n <= 4
    ensures |events| == n
  {
    seq(n, i requires 0 <= i < n => Tick(SlowRead(i + 1)))
  }

  lemma {:induction false} SlowRun(n: nat)
    requires n <= 4
    ensures Steady(Run(Boot(PlainBoot()), SlowReads(n)), n * 1_000_000, 0, n)
  {
    hide Step, Boot;
    if n == 0 {
      PlainBootState();
    } else {
      hide Steady;
      SlowRun(n - 1);
      assert SlowReads(n)[..n - 1] == SlowReads(n - 1);
      SlowReadBlames(Run(Boot(PlainBoot()), SlowReads(n - 1)), n);
    }
  }

  /**
   With a timer at half its speed and a real-time clock that is right, four reads two seconds apart
   retire the clock that is right; the slow timer stays active and healthy.
   */
  lemma RightClockRetired()
    ensures var s := Run(Boot(PlainBoot()), SlowReads(4));
            && s.active == PRIMARY && s.sources[PRIMARY].healthy && !s.sources[SECONDARY].healthy
  {
    hide Run, Boot;
    SlowRun(4);
  }

  // ---------- reads that go back ----------

  /**
   If the active counter does not fall during a call, the call returns less than it showed at its
   start exactly when it hands over to a real-time clock that has fewer ticks: the unit changes
   from ticks of the timer to ticks of the other clock.
   */
  lemma ReadGoesBackIff(s: State, r: Readings)
    requires Redundant(s) && s.active == PRIMARY
    requires Step(s, Tick(r)).active == PRIMARY ==>
               Wrap64(r.atStart - s.sources[PRIMARY].bootTicks) <= Wrap64(r.atEnd - s.sources[PRIMARY].bootTicks)
    ensures GetTickCount(s, r).0 < RawTime(s, r.atStart).0 <==>
              && s.sources[PRIMARY].failCount == 3 && PrimaryStrike(s, Tick(r))
              && Wrap64(r.atEnd - s.sources[SECONDARY].bootTicks) < Wrap64(r.atStart - s.sources[PRIMARY].bootTicks)
  {
    hide Validate, Ahead, Wrap64;
    ValidateRedundant(s, r);
    ValidateStrikes(s, r);
  }

  lemma WrapNoLarger(x: nat)
    ensures 0 <= Wrap64(x) <= x
  {
  }

  lemma QuotientOrder(x: nat, f: nat, y: nat, g: nat)
    requires 0 < g <= f && x <= y
    ensures x / f <= y / g
  {
    var n := x / f;
    Below(g, f, n);
    assert n * f <= x;
    QuotientAtLeast(y, g, n);
  }

  /** Whoever is ahead at a frequency that is no lower has counted more ticks. */
  lemma FewerTicks(p: Source, x: u64, q: Source, y: u64)
    requires 0 < q.frequency <= p.frequency && InRange(q, y) && Ahead(p, x, q, y)
    ensures Wrap64(y - q.bootTicks) < Wrap64(x - p.bootTicks)
  {
    hide Wrap64;
    var a: nat, b: nat := Wrap64(x - p.bootTicks), Wrap64(y - q.bootTicks);
    WrapSmall(b * 1_000_000);
    WrapNoLarger(a * 1_000_000);
    if a <= b { QuotientOrder(Wrap64(a * 1_000_000), p.frequency, b * 1_000_000, q.frequency); }
  }

  /**
   A timer at least as fast as the real-time clock, and one instant for all reads of a call: then
   every handover sets the time back.
   */
  lemma HandoverGoesBack(s: State, r: Readings)
    requires Redundant(s) && s.sources[PRIMARY].failCount == 3 && PrimaryStrike(s, Tick(r))
    requires s.sources[PRIMARY].frequency >= SECONDARY_FREQUENCY && InRange(s.sources[SECONDARY], r.rtc)
    requires r.atStart == r.timer && r.atEnd == r.rtc
    ensures Step(s, Tick(r)).active == SECONDARY
    ensures GetTickCount(s, r).0 < RawTime(s, r.atStart).0
  {
    hide Validate, GetTickCount;
    var p, q := s.sources[PRIMARY], s.sources[SECONDARY];
    StepStrikes(s, Tick(r));
    StepRedundant(s, Tick(r));
    FewerTicks(p, r.timer, q, r.rtc);
    ReadGoesBackIff(s, r);
  }

  /** Read `k` of a run in which the real-time clock counts 2.25 seconds where the timer counts 2.5. */
  function FastRead(k: nat): Readings
    requires k <= 4
  {
    Readings(k * 2_500_000, k * 2_500_000, k * 73_728, if k < 4 then k * 2_500_000 else k * 73_728)
  }

  lemma FastReadBlames(s: State, k: nat)
    requires 0 < k <= 4 && Steady(s, (k - 1) * 2_500_000, k - 1, 0)
    ensures PrimaryStrike(s, Tick(FastRead(k)))
    ensures Steady(Step(s, Tick(FastRead(k))), k * 2_500_000, k, 0)
  {
    hide Step;
    var r := FastRead(k);
    assert Micros(0, MAX_TIMER_FREQUENCY, r.timer) == k * 2_500_000;
    assert Micros(0, SECONDARY_FREQUENCY, r.rtc) == k * 2_250_000;
    hide Micros;
    assert Compared(s, r) && PrimaryStrike(s, Tick(r)) && !SecondaryStrike(s, Tick(r));
    StepStrikes(s, Tick(r));
    StepRedundant(s, Tick(r));
    ValidationNoted(s, r);
  }

  function FastReads(n: nat): (events: seq<Event>)
    requires n <= 4
    ensures |events| == n
  {
    seq(n, i requires 0 <= i < n => Tick(FastRead(i + 1)))
  }

  lemma {:induction false} FastRun(n: nat)
    requires n <= 4
    ensures Steady(Run(Boot(PlainBoot()), FastReads(n)), n * 2_500_000, n, 0)
  {
    hide Step, Boot;
    if n == 0 {
      PlainBootState();
    } else {
      hide Steady;
      FastRun(n - 1);
      assert FastReads(n)[..n - 1] == FastReads(n - 1);
      FastReadBlames(Run(Boot(PlainBoot()), FastReads(n - 1)), n);
    }
  }

  /** The fourth read of that run starts at 10000000 and returns 294912. */
  lemma TimeGoesBack()
    ensures var s := Run(Boot(PlainBoot()), FastReads(3));
            && RawTime(s, FastRead(4).atStart).0 == 10_000_000
            && GetTickCount(s, FastRead(4)).0 == 294_912
  {
    hide Run, Boot, Ahead, Validate;
    FastRun(3);
    var s := Run(Boot(PlainBoot()), FastReads(3));
    FastReadBlames(s, 4);
    ValidateRedundant(s, FastRead(4));
    ValidateStrikes(s, FastRead(4));
  }

  // ---------- which sources came up ----------

  /** No timer: nothing is read, and nothing changes. */
  ghost predicate NoTimer(s: State) {
    s.WellFormed() && s.active == PRIMARY && !s.sources[PRIMARY].initialized
    && (s.sources[SECONDARY].initialized ==>
          s.sources[SECONDARY].healthy && s.sources[SECONDARY].frequency == SECONDARY_FREQUENCY)
    && s.sources[PRIMARY].drift == s.sources[SECONDARY].drift
    && forall i | 0 <= i < SOURCE_COUNT :: s.sources[i].failCount == 0
  }

  /** A timer without a second source: there is nothing to compare it with. */
  ghost predicate TimerOnly(s: State) {
    s.WellFormed() && s.active == PRIMARY && s.sources[PRIMARY].healthy && !s.sources[SECONDARY].healthy
    && forall i | 0 <= i < SOURCE_COUNT :: s.sources[i].failCount == 0
  }

  /** Some initialisation of the run found a working timer. */
  predicate TimerCameUp(events: seq<Event>) {
    exists i | 0 <= i < |events| :: events[i].InitAgain? && events[i].answers.timerOk
  }

  /** What the zeroed context can become, by calls of any kind. */
  ghost predicate Reachable(s: State, timerUp: bool) {
    s.softwareTicks == 0 && if timerUp then TimerOnly(s) || Redundant(s) else NoTimer(s)
  }

  lemma ValidateAlone(s: State, r: Readings)
    requires TimerOnly(s)
    ensures TimerOnly(Validate(s, r)) && Validate(s, r).softwareTicks == s.softwareTicks
  {
    hide SourceTime;
  }

  lemma FirstInit(s: State, a: BootAnswers)
    requires Reachable(s, false)
    ensures Reachable(InitTime(s, a).1, a.timerOk) && InitTime(s, a).0 == READY
  {
    hide Validate;
    var t := InitSources(s, a);
    if a.timerOk {
      if t.sources[SECONDARY].healthy { ValidateRedundant(t, a.first); } else { ValidateAlone(t, a.first); }
    }
  }

  lemma StepReachable(s: State, timerUp: bool, ev: Event)
    requires Reachable(s, timerUp)
    ensures Reachable(Step(s, ev), timerUp || (ev.InitAgain? && ev.answers.timerOk))
  {
    hide Validate;
    if timerUp {
      if Redundant(s) { StepRedundant(s, ev); } else if ev.Tick? { ValidateAlone(s, ev.readings); }
    } else if ev.InitAgain? {
      FirstInit(s, ev.answers);
    }
  }

  lemma TimerCameUpStep(events: seq<Event>)
    requires |events| > 0
    ensures var last := events[|events| - 1];
            TimerCameUp(events) <==>
              TimerCameUp(events[..|events| - 1]) || (last.InitAgain? && last.answers.timerOk)
  {
    var n := |events| - 1;
    assert forall i | 0 <= i < n :: events[..n][i] == events[i];
  }

  lemma {:induction false} RunReachable(events: seq<Event>)
    ensures Reachable(Run(Zeroed(), events), TimerCameUp(events))
  {
    if |events| > 0 {
      hide Reachable, Step, Zeroed, TimerCameUp;
      var n := |events| - 1;
      RunReachable(events[..n]);
      TimerCameUpStep(events);
      StepReachable(Run(Zeroed(), events[..n]), TimerCameUp(events[..n]), events[n]);
    } else {
      hide Redundant, TimerOnly;
    }
  }

  /**
   The software counter is set up as a fallback that is always available. Over every run of reads
   and initialisations, whatever the hardware answers, it is never active and never counts, and no
   initialisation reports the failure that is meant for it.
   */
  lemma FallbackNeverUsed(events: seq<Event>, a: BootAnswers)
    ensures Run(Zeroed(), events).active != SOFTWARE && Run(Zeroed(), events).softwareTicks == 0
    ensures InitTime(Run(Zeroed(), events), a).0 == if TimerCameUp(events) then ALREADY else READY
  {
    hide Run, Zeroed, TimerCameUp;
    RunReachable(events);
    if !TimerCameUp(events) { FirstInit(Run(Zeroed(), events), a); }
  }

  lemma NoClock(s: State, r: Readings)
    requires s.WellFormed() && !s.sources[s.active].initialized
    ensures GetTickCount(s, r) == (0, s)
  {
  }

  lemma ValidateNotDue(s: State, r: Readings)
    requires s.WellFormed() && s.active != SOFTWARE
    requires r.atStart == Wrap64(s.lastValidation + s.sources[s.active].bootTicks)
    ensures Validate(s, r) == s
  {
    hide CompareSources, RetireFailed, Failover;
    var now := RawTime(s, r.atStart).0;
    assert now == s.lastValidation;
  }

  /** A read that needs no validation shows the active counter. */
  lemma ReadBetween(s: State, r: Readings)
    requires s.WellFormed() && s.active != SOFTWARE && s.sources[s.active].initialized
    requires r.atStart == Wrap64(s.lastValidation + s.sources[s.active].bootTicks)
    requires r.atEnd == Wrap64(s.sources[s.active].bootTicks + 1)
    ensures GetTickCount(s, r) == (1, s)
  {
    hide Validate;
    assert Validate(s, r) == s by { ValidateNotDue(s, r); }
  }

  /**
   The clock shows 0 at every read exactly as long as no initialisation found a working timer,
   although every initialisation reported success.
   */
  lemma ClockStuckIffTimerFails(events: seq<Event>)
    ensures (forall r: Readings :: GetTickCount(Run(Zeroed(), events), r).0 == 0) <==> !TimerCameUp(events)
  {
    hide Run, Zeroed, TimerCameUp, GetTickCount;
    RunReachable(events);
    var s := Run(Zeroed(), events);
    if TimerCameUp(events) {
      assert s.WellFormed() && s.active != SOFTWARE && s.sources[s.active].initialized;
      var b: int := s.sources[s.active].bootTicks;
      var r := Readings(Wrap64(s.lastValidation + b), 0, 0, Wrap64(b + 1));
      ReadBetween(s, r);
      assert GetTickCount(s, r).0 == 1;
    } else {
      forall r: Readings
        ensures GetTickCount(s, r).0 == 0
      {
        NoClock(s, r);
      }
    }
  }
}
