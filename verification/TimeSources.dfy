/**
 The redundant time sources of lib/time/time.c: a hardware timer, a real-time clock and a software
 counter, of which one is active.

 The raw counters of the two hardware sources are inputs, read anew at every use. The read of the
 time inside the validation, which the source makes by a call back into the function that started
 the validation, is the raw read that this function ends with.
 */
module TimeSources {
  import opened Widths
  import opened SystemErrors

  const PRIMARY: nat := 0
  const SECONDARY: nat := 1
  const SOFTWARE: nat := 2
  const SOURCE_COUNT: nat := 3

  const SECONDARY_FREQUENCY := 32_768
  const SOFTWARE_FREQUENCY := 1_000
  const VALIDATION_INTERVAL := 1_000_000
  const MAX_DRIFT := 1_000

  /** What the timer driver reports as its frequency once it came up. */
  type Frequency = x: u64 | x > 0 witness 1

  const READY := SystemError(Code.Ok, System, NoSeverity)
  const ALREADY := SystemError(AlreadyInit, System, Warning)
  const MISCONFIGURED := SystemError(ConfigError, System, Warning)

  datatype Source = Source(
    bootTicks: u64,
    frequency: u64,
    initialized: bool,
    healthy: bool,
    failCount: u32,
    drift: u64)

  datatype State = State(sources: seq<Source>, active: nat, lastValidation: u64, softwareTicks: u64) {
    /** An initialised source has a frequency, and only initialised sources have ever been healthy. */
    predicate WellFormed() {
      |sources| == SOURCE_COUNT && active < SOURCE_COUNT
      && forall i | 0 <= i < SOURCE_COUNT ::
           (sources[i].initialized ==> sources[i].frequency > 0) && (sources[i].healthy ==> sources[i].initialized)
    }
  }

  /** The counters that one call of kernel_time_get_tick_count reads, in the order it reads them. */
  datatype Readings = Readings(atStart: u64, timer: u64, rtc: u64, atEnd: u64)

  function Zeroed(): (s: State)
    ensures s.WellFormed()
  {
    State(seq(SOURCE_COUNT, i => Source(0, 0, false, false, 0, 0)), PRIMARY, 0, 0)
  }

  /** The raw read of the active source; `counter` is what its hardware shows. */
  function RawTime(s: State, counter: u64): (u64, State)
    requires s.WellFormed()
  {
    if s.active == SOFTWARE then
      var t := s.(softwareTicks := Wrap64(s.softwareTicks + 1));
      (t.softwareTicks, t)
    else (Wrap64(counter - s.sources[s.active].bootTicks), s)
  }

  lemma QuotientFits(x: u64, f: u64)
    requires f > 0
    ensures 0 <= x / f <= x
  {
  }

  /** Microseconds since boot by one source, in wrapping 64-bit arithmetic. */
  function Micros(bootTicks: u64, frequency: u64, counter: u64): u64
    requires frequency > 0
  {
    QuotientFits(Wrap64(Wrap64(counter - bootTicks) * 1_000_000), frequency);
    Wrap64(Wrap64(counter - bootTicks) * 1_000_000) / frequency
  }

  /** What the validation compares; 0 for a source that failed. */
  function SourceTime(x: Source, counter: u64): u64
    requires x.healthy ==> x.frequency > 0
  {
    if x.healthy then Micros(x.bootTicks, x.frequency, counter) else 0
  }

  /** The comparison of the two hardware sources: the one that is ahead takes the blame. */
  function CompareSources(s: State, timer: u64, rtc: u64): (t: State)
    requires s.WellFormed()
    ensures t.WellFormed()
  {
    var p, q := s.sources[PRIMARY], s.sources[SECONDARY];
    if !p.healthy || !q.healthy then s
    else
      var a, b := SourceTime(p, timer), SourceTime(q, rtc);
      var d := if a > b then a - b else b - a;
      var blameP := if d > MAX_DRIFT && a > b then 1 else 0;
      var blameQ := if d > MAX_DRIFT && a <= b then 1 else 0;
      s.(sources := [
        p.(drift := Wrap64(p.drift + d), failCount := Wrap32(p.failCount + blameP)),
        q.(drift := Wrap64(q.drift + d), failCount := Wrap32(q.failCount + blameQ)),
        s.sources[SOFTWARE]])
  }

  /** Sources that failed more than three times are unhealthy from now on. */
  function RetireFailed(s: State): (t: State)
    requires s.WellFormed()
    ensures t.WellFormed()
    ensures forall i | 0 <= i < SOURCE_COUNT ::
              t.sources[i] == s.sources[i].(healthy := s.sources[i].healthy && s.sources[i].failCount <= 3)
  {
    s.(sources := seq(SOURCE_COUNT, i requires 0 <= i < SOURCE_COUNT =>
        s.sources[i].(healthy := s.sources[i].healthy && s.sources[i].failCount <= 3)))
  }

  /** The first usable source takes over from an unhealthy active one. */
  function Failover(s: State): (t: State)
    requires s.WellFormed()
    ensures t.WellFormed()
  {
    if s.sources[s.active].healthy then s
    else if s.sources[PRIMARY].healthy then s.(active := PRIMARY)
    else if s.sources[SECONDARY].healthy then s.(active := SECONDARY)
    else if s.sources[SOFTWARE].healthy then s.(active := SOFTWARE)
    else s
  }

  /** validate_time_sources */
  function Validate(s: State, r: Readings): (t: State)
    requires s.WellFormed()
    ensures t.WellFormed()
  {
    var (now, u) := RawTime(s, r.atStart);
    if Wrap64(now - u.lastValidation) < VALIDATION_INTERVAL then u
    else Failover(RetireFailed(CompareSources(u.(lastValidation := now), r.timer, r.rtc)))
  }

  /** kernel_time_get_tick_count */
  function GetTickCount(s: State, r: Readings): (result: (u64, State))
    requires s.WellFormed()
    ensures result.1.WellFormed()
  {
    if !s.sources[s.active].initialized then (0, s)
    else RawTime(Validate(s, r), r.atEnd)
  }

  /** What the hardware answers during kernel_time_init. */
  datatype BootAnswers = BootAnswers(
    timerOk: bool,
    timerBoot: u64,
    timerFrequency: Frequency,
    rtcOk: bool,
    rtcBoot: u64,
    first: Readings)

  function InitSources(s: State, a: BootAnswers): (t: State)
    requires s.WellFormed()
    ensures t.WellFormed()
  {
    var p, q, w := s.sources[PRIMARY], s.sources[SECONDARY], s.sources[SOFTWARE];
    s.(active := if a.timerOk then PRIMARY else s.active,
       sources := [
         if a.timerOk
         then p.(bootTicks := a.timerBoot, frequency := a.timerFrequency, initialized := true, healthy := true) else p,
         if a.rtcOk
         then q.(bootTicks := a.rtcBoot, frequency := SECONDARY_FREQUENCY, initialized := true, healthy := true) else q,
         w.(bootTicks := 0, frequency := SOFTWARE_FREQUENCY, initialized := true, healthy := true)])
  }

  /** kernel_time_init */
  function InitTime(s: State, a: BootAnswers): (result: (SystemError, State))
    requires s.WellFormed()
    ensures result.1.WellFormed()
  {
    if s.sources[PRIMARY].initialized then (ALREADY, s)
    else
      var (now, t) := GetTickCount(InitSources(s, a), a.first);
      (if t.active != SOFTWARE then READY else MISCONFIGURED, t.(lastValidation := now))
  }

  /** The branch for a timer that overflowed and the plain difference agree modulo 2^64. */
  lemma LatencyWraps(start: u64, end: u64)
    ensures end >= start ==> Wrap64(end - start) == end - start
    ensures end < start ==> Wrap64(Wrap64(Wrap64(TWO_64 - 1 - start) + end) + 1) == Wrap64(end - start)
  {
    if end < start { assert Wrap64(end - start) == end - start + TWO_64; }
  }

  class TimeContext {
    const sources: array<Source>
    var active: nat
    var lastValidation: u64
    var softwareTicks: u64

    ghost predicate Valid()
      reads this, sources
    {
      sources.Length == SOURCE_COUNT && View().WellFormed()
    }

    function View(): State
      reads this, sources
    {
      State(sources[..], active, lastValidation, softwareTicks)
    }

    constructor ()
      ensures Valid() && fresh(sources)
      ensures View() == Zeroed()
    {
      sources := new Source[SOURCE_COUNT](i => Source(0, 0, false, false, 0, 0));
      active, lastValidation, softwareTicks := PRIMARY, 0, 0;
      new;
      assert sources[..] == seq(SOURCE_COUNT, i => Source(0, 0, false, false, 0, 0));
    }

    method ReadActive(counter: u64) returns (time: u64)
      requires Valid()
      modifies `softwareTicks
      ensures Valid() && (time, View()) == RawTime(old(View()), counter)
    {
      if active == SOFTWARE {
        softwareTicks := Wrap64(softwareTicks + 1);
        return softwareTicks;
      }
      return Wrap64(counter - sources[active].bootTicks);
    }

    method ReadSource(i: nat, counter: u64) returns (time: u64)
      requires Valid() && i < SOURCE_COUNT
      ensures time == SourceTime(sources[i], counter)
    {
      hide Wrap64;
      time := 0;
      if sources[i].healthy {
        time := Wrap64(counter - sources[i].bootTicks);
        QuotientFits(Wrap64(time * 1_000_000), sources[i].frequency);
        time := Wrap64(time * 1_000_000) / sources[i].frequency;
      }
    }

    method Compare(timer: u64, rtc: u64)
      requires Valid()
      modifies sources
      ensures Valid() && View() == CompareSources(old(View()), timer, rtc)
    {
      hide SourceTime;
      var primaryTime := ReadSource(PRIMARY, timer);
      var secondaryTime := ReadSource(SECONDARY, rtc);
      if sources[PRIMARY].healthy && sources[SECONDARY].healthy {
        var drift: u64 :=
          if primaryTime > secondaryTime then primaryTime - secondaryTime else secondaryTime - primaryTime;
        sources[PRIMARY] := sources[PRIMARY].(drift := Wrap64(sources[PRIMARY].drift + drift));
        sources[SECONDARY] := sources[SECONDARY].(drift := Wrap64(sources[SECONDARY].drift + drift));
        if drift > MAX_DRIFT {
          if primaryTime > secondaryTime {
            sources[PRIMARY] := sources[PRIMARY].(failCount := Wrap32(sources[PRIMARY].failCount + 1));
          } else {
            sources[SECONDARY] := sources[SECONDARY].(failCount := Wrap32(sources[SECONDARY].failCount + 1));
          }
        }
      }
    }

    method Retire()
      requires Valid()
      modifies sources
      ensures Valid() && View() == RetireFailed(old(View()))
    {
      for i := 0 to SOURCE_COUNT
        invariant forall j | 0 <= j < i ::
                    sources[j] == old(sources[j]).(healthy := old(sources[j]).healthy && old(sources[j]).failCount <= 3)
        invariant forall j | i <= j < SOURCE_COUNT :: sources[j] == old(sources[j])
      {
        if sources[i].failCount > 3 { sources[i] := sources[i].(healthy := false); }
      }
      assert sources[..] == RetireFailed(old(View())).sources;
    }

    method SwitchIfUnhealthy()
      requires Valid()
      modifies `active
      ensures Valid() && View() == Failover(old(View()))
    {
      if sources[active].healthy { return; }
      for i := 0 to SOURCE_COUNT
        invariant active == old(active)
        invariant forall j | 0 <= j < i :: !sources[j].healthy
      {
        if sources[i].healthy && sources[i].initialized {
          active := i;
          return;
        }
      }
    }

    method ValidateSources(r: Readings)
      requires Valid()
      modifies this, sources
      ensures Valid() && View() == Validate(old(View()), r)
    {
      hide CompareSources, RetireFailed, Failover;
      var now := ReadActive(r.atStart);
      if Wrap64(now - lastValidation) < VALIDATION_INTERVAL { return; }
      lastValidation := now;
      Compare(r.timer, r.rtc);
      Retire();
      SwitchIfUnhealthy();
    }

    method TickCount(r: Readings) returns (time: u64)
      requires Valid()
      modifies this, sources
      ensures Valid() && (time, View()) == GetTickCount(old(View()), r)
    {
      if !sources[active].initialized { return 0; }
      hide Validate;
      ValidateSources(r);
      time := ReadActive(r.atEnd);
    }

    method Init(a: BootAnswers) returns (error: SystemError)
      requires Valid()
      modifies this, sources
      ensures Valid() && (error, View()) == InitTime(old(View()), a)
    {
      if sources[PRIMARY].initialized { return ALREADY; }
      if a.timerOk {
        sources[PRIMARY] := sources[PRIMARY].(bootTicks := a.timerBoot, frequency := a.timerFrequency,
                                              initialized := true, healthy := true);
        active := PRIMARY;
      }
      if a.rtcOk {
        sources[SECONDARY] := sources[SECONDARY].(bootTicks := a.rtcBoot, frequency := SECONDARY_FREQUENCY,
                                                  initialized := true, healthy := true);
      }
      sources[SOFTWARE] := sources[SOFTWARE].(bootTicks := 0, frequency := SOFTWARE_FREQUENCY,
                                              initialized := true, healthy := true);
      assert View() == InitSources(old(View()), a);
      var now := TickCount(a.first);
      lastValidation := now;
      return if active != SOFTWARE then READY else MISCONFIGURED;
    }

    /** kernel_time_calculate_latency */
    method Latency(start: u64, r: Readings) returns (latency: u64)
      requires Valid()
      modifies this, sources
      ensures Valid() && View() == GetTickCount(old(View()), r).1
      ensures latency == Wrap64(GetTickCount(old(View()), r).0 - start)
    {
      hide GetTickCount, Wrap64;
      var end := TickCount(r);
      LatencyWraps(start, end);
      if end >= start { return end - start; }
      return Wrap64(Wrap64(Wrap64(TWO_64 - 1 - start) + end) + 1);
    }
  }
}
