/**
 The logging client of lib/logging/log_client.c: publish when the transport answers, otherwise
 fall back to a 32-entry buffer that overwrites its oldest entry.

 The transport is an oracle. `publishes` is its answer to the one publish of a send; a flush
 reads its answers from `outcomes`, and a transport with no answer left has failed.
 */
module LogClient {
  import opened Widths
  import opened LogEntry
  import opened SystemErrors
  import opened Ring

  const CAPACITY: nat := 32

  const DONE := SystemError(Code.Ok, System, Low)
  const NULL_POINTER := SystemError(CriticalNull, Safety, Critical)
  const NO_SERVICE := SystemError(ServiceNotFound, System, High)
  const NOT_READY := SystemError(NotInit, System, High)
  const ENTRY_CORRUPT := SystemError(DataCorrupt, System, High)

  datatype State = State(initialized: bool, hasPublisher: bool, buffered: seq<Entry>)

  /** The queue after a store, and the entry that the store pushed out, if any. */
  function Stored(queue: seq<Entry>, e: Entry): (seq<Entry>, seq<Entry>) {
    if |queue| >= CAPACITY then (queue[1..] + [e], queue[..1]) else (queue + [e], [])
  }

  datatype Event =
    | Init(created: bool)
    | Send(entry: Entry, publishes: bool)
    | Flush(outcomes: seq<bool>)
    | Cleanup

  /** How many of the first `n` publishes succeed before the first failure. */
  function Successes(outcomes: seq<bool>, n: nat): (k: nat)
    ensures k <= n && k <= |outcomes|
    ensures forall i | 0 <= i < k :: outcomes[i]
    ensures k < n && k < |outcomes| ==> !outcomes[k]
  {
    if n == 0 || |outcomes| == 0 || !outcomes[0] then 0 else 1 + Successes(outcomes[1..], n - 1)
  }

  /** How many buffered entries a flush hands over. */
  function Taken(c: State, outcomes: seq<bool>): (n: nat)
    ensures n <= |c.buffered|
  {
    if c.initialized && c.hasPublisher then Successes(outcomes, |c.buffered|) else 0
  }

  /** What one call makes of the client's state. */
  function Next(c: State, ev: Event): State {
    match ev
    case Init(created) => State(true, c.hasPublisher || created, [])
    case Flush(outcomes) => c.(buffered := c.buffered[Taken(c, outcomes)..])
    case Cleanup => c.(hasPublisher := false)
    case Send(e, publishes) =>
      if !Intact(e) || (c.hasPublisher && publishes) || !c.initialized then c
      else c.(buffered := Stored(c.buffered, e).0)
  }

  /** The clauses of `Successes` leave it no choice. */
  lemma SuccessesUnique(outcomes: seq<bool>, n: nat, k: nat)
    requires k <= n && k <= |outcomes|
    requires forall i | 0 <= i < k :: outcomes[i]
    requires k == n || k == |outcomes| || !outcomes[k]
    ensures k == Successes(outcomes, n)
  {
  }

  class Client {
    var entries: array<Entry>
    var writeIndex: u16
    var readIndex: u16
    var count: u16
    var initialized: bool
    var hasPublisher: bool

    ghost predicate Valid()
      reads this
    {
      entries.Length == CAPACITY && readIndex < CAPACITY && count <= CAPACITY
      && writeIndex == Slot(readIndex, count, CAPACITY)
    }

    function View(): State
      requires Valid()
      reads this, entries
    {
      State(initialized, hasPublisher, Window(entries[..], readIndex, count))
    }

    /** The zeroed static storage before any call. */
    constructor ()
      ensures Valid() && fresh(entries)
      ensures View() == State(false, false, [])
    {
      entries := new Entry[CAPACITY](i => Entry(0, 0, 0, 0, 0, 0, 0, 0));
      writeIndex, readIndex, count, initialized, hasPublisher := 0, 0, 0, false, false;
    }

    /** early_log_buffer_store */
    method Store(entry: Entry) returns (error: SystemError)
      requires Valid()
      modifies this, entries
      ensures Valid() && entries == old(entries)
      ensures !old(initialized) ==> View() == old(View()) && error == NULL_POINTER
      ensures old(initialized) ==> error == DONE
      ensures old(initialized) ==> View() == old(View()).(buffered := Stored(old(View()).buffered, entry).0)
    {
      if !initialized { return NULL_POINTER; }
      if count >= CAPACITY {
        Pop(entries[..], readIndex, count);
        readIndex := (readIndex + 1) % CAPACITY;
        count := count - 1;
      }
      assert View().buffered == if old(count) == CAPACITY then old(View().buffered)[1..] else old(View().buffered);
      PushWithRoom(entries[..], readIndex, count, entry);
      ghost var before := entries[..];
      entries[writeIndex] := entry;
      assert entries[..] == before[writeIndex := entry];
      writeIndex := (writeIndex + 1) % CAPACITY;
      count := count + 1;
      return DONE;
    }

    /** early_log_buffer_flush; `published` is what the transport took, in order. */
    method Flush(outcomes: seq<bool>) returns (error: SystemError, published: seq<Entry>)
      requires Valid()
      modifies this
      ensures Valid() && entries == old(entries)
      ensures published == old(View()).buffered[..Taken(old(View()), outcomes)]
      ensures View() == Next(old(View()), Event.Flush(outcomes))
      ensures error == if !old(initialized && hasPublisher) then NOT_READY
                       else if count == 0 then DONE else NO_SERVICE
    {
      hide Successes;
      published := [];
      if !initialized || !hasPublisher { return NOT_READY, []; }
      ghost var all := View().buffered;
      var k := 0;
      while count > 0
        invariant Valid() && entries == old(entries) && initialized && hasPublisher
        invariant k + count == |all| && k <= |outcomes|
        invariant forall i | 0 <= i < k :: outcomes[i]
        invariant published == all[..k]
        invariant View().buffered == all[k..]
        decreases count
      {
        if k == |outcomes| || !outcomes[k] {
          SuccessesUnique(outcomes, |all|, k);
          return NO_SERVICE, published;
        }
        Pop(entries[..], readIndex, count);
        published := published + [entries[readIndex]];
        readIndex := (readIndex + 1) % CAPACITY;
        count := count - 1;
        k := k + 1;
      }
      SuccessesUnique(outcomes, |all|, k);
      return DONE, published;
    }

    /** log_client_init: the buffer is emptied before it could be flushed, so the flush publishes nothing. */
    method Init(created: bool, outcomes: seq<bool>) returns (error: SystemError, published: seq<Entry>)
      requires Valid()
      modifies this, entries
      ensures Valid() && entries == old(entries)
      ensures published == []
      ensures View() == Next(old(View()), Event.Init(created))
      ensures error == if old(hasPublisher) || created then DONE else NO_SERVICE
    {
      for i := 0 to CAPACITY
        invariant entries == old(entries) && entries.Length == CAPACITY && hasPublisher == old(hasPublisher)
      {
        entries[i] := Entry(0, 0, 0, 0, 0, 0, 0, 0);
      }
      writeIndex, readIndex, count, initialized := 0, 0, 0, true;
      if hasPublisher { return DONE, []; }
      hasPublisher := created;
      if !hasPublisher { return NO_SERVICE, []; }
      error, published := Flush(outcomes);
    }

    /** log_client_cleanup */
    method Cleanup()
      requires Valid()
      modifies `hasPublisher
      ensures Valid() && View() == Next(old(View()), Event.Cleanup)
    {
      if hasPublisher { hasPublisher := false; }
    }

    /** send_log_entry_pubsub; `taken` tells whether the transport took the entry. */
    method Send(entry: Option<Entry>, publishes: bool) returns (error: SystemError, taken: bool)
      requires Valid()
      modifies this, entries
      ensures Valid() && entries == old(entries)
      ensures entry == None ==> error == NULL_POINTER
      ensures entry.Some? && !Intact(entry.value) ==> error == ENTRY_CORRUPT
      ensures taken <==> entry.Some? && Intact(entry.value) && old(hasPublisher) && publishes
      ensures entry.Some? && Intact(entry.value) ==>
                error == if taken || old(initialized) then DONE else NULL_POINTER
      ensures View() == if entry == None then old(View()) else Next(old(View()), Event.Send(entry.value, publishes))
    {
      if entry == None { return NULL_POINTER, false; }
      var checksum := ClientChecksum(entry.value);
      if checksum != entry.value.checksum { return ENTRY_CORRUPT, false; }
      if hasPublisher {
        if publishes { return DONE, true; }
      }
      taken := false;
      error := Store(entry.value);
    }
  }

  // ---------- whole runs ----------

  /**
   A run's books: the client's state, the entries whose send returned success, what the transport
   took (by send or flush), what stores pushed out, and what a re-initialisation threw away.
   `pending` is what the last flush or initialisation left in the buffer, with all stores since.
   */
  datatype Books = Books(
    client: State,
    accepted: seq<Entry>,
    delivered: seq<Entry>,
    overwritten: seq<Entry>,
    discarded: seq<Entry>,
    pending: seq<Entry>)

  function Open(): Books {
    Books(State(false, false, []), [], [], [], [], [])
  }

  function Step(b: Books, ev: Event): Books {
    var c := b.client;
    var after := b.(client := Next(c, ev));
    match ev
    case Init(_) => after.(discarded := b.discarded + c.buffered, pending := [])
    case Cleanup => after
    case Flush(outcomes) =>
      after.(delivered := b.delivered + c.buffered[..Taken(c, outcomes)], pending := after.client.buffered)
    case Send(e, publishes) =>
      if !Intact(e) then after
      else if c.hasPublisher && publishes then after.(accepted := b.accepted + [e], delivered := b.delivered + [e])
      else if !c.initialized then after
      else
        after.(accepted := b.accepted + [e], overwritten := b.overwritten + Stored(c.buffered, e).1,
               pending := b.pending + [e])
  }

  function Run(events: seq<Event>): Books {
    if |events| == 0 then Open() else Step(Run(events[..|events| - 1]), events[|events| - 1])
  }

  function Newest(s: seq<Entry>): seq<Entry> {
    if |s| <= 32 then s else s[|s| - 32..]
  }

  /**
   Every accepted entry is in exactly one place, and the buffer holds, in order, the newest 32 of
   what was left at the last flush and has been stored since.
   */
  ghost predicate Balanced(b: Books) {
    && multiset(b.accepted) == multiset(b.delivered) + multiset(b.client.buffered)
         + multiset(b.overwritten) + multiset(b.discarded)
    && b.client.buffered == Newest(b.pending)
    && (!b.client.initialized ==> b.client.buffered == [])
  }

  lemma Split(s: seq<Entry>, k: nat)
    requires k <= |s|
    ensures multiset(s) == multiset(s[..k]) + multiset(s[k..])
  {
    assert s == s[..k] + s[k..];
  }

  lemma FlushBalanced(b: Books, outcomes: seq<bool>)
    requires Balanced(b)
    ensures Balanced(Step(b, Flush(outcomes)))
  {
    var c := b.client;
    Split(c.buffered, Taken(c, outcomes));
  }

  lemma StoredWithRoom(queue: seq<Entry>, e: Entry)
    requires |queue| < CAPACITY
    ensures multiset(Stored(queue, e).0) + multiset(Stored(queue, e).1) == multiset(queue) + multiset{e}
  {
    assert multiset(queue + [e]) == multiset(queue) + multiset{e};
  }

  lemma StoredWhenFull(queue: seq<Entry>, pending: seq<Entry>, e: Entry)
    requires |queue| >= CAPACITY && queue == Newest(pending)
    ensures multiset(Stored(queue, e).0) + multiset(Stored(queue, e).1) == multiset(queue) + multiset{e}
    ensures Stored(queue, e).0 == Newest(pending + [e])
  {
    Split(queue, 1);
    assert multiset(queue[1..] + [e]) == multiset(queue[1..]) + multiset{e};
    assert Newest(pending + [e]) == (pending + [e])[|pending| + 1 - CAPACITY..];
  }

  lemma StoredBalanced(queue: seq<Entry>, pending: seq<Entry>, e: Entry)
    requires queue == Newest(pending)
    ensures var (after, out) := Stored(queue, e);
            multiset(after) + multiset(out) == multiset(queue) + multiset{e} && after == Newest(pending + [e])
  {
    if |queue| >= CAPACITY { StoredWhenFull(queue, pending, e); } else { StoredWithRoom(queue, e); }
  }

  lemma OneMore(accepted: multiset<Entry>, delivered: multiset<Entry>, buffered: multiset<Entry>,
                overwritten: multiset<Entry>, discarded: multiset<Entry>,
                e: multiset<Entry>, after: multiset<Entry>, out: multiset<Entry>)
    requires accepted == delivered + buffered + overwritten + discarded
    requires after + out == buffered + e
    ensures accepted + e == delivered + after + (overwritten + out) + discarded
    ensures accepted + e == (delivered + e) + buffered + overwritten + discarded
  {
    assert delivered + after + (overwritten + out) + discarded == (after + out) + (delivered + overwritten + discarded);
  }

  lemma SendBalanced(b: Books, e: Entry, publishes: bool)
    requires Balanced(b)
    ensures Balanced(Step(b, Send(e, publishes)))
  {
    hide Intact, Stored, Newest;
    var (queue, out) := Stored(b.client.buffered, e);
    StoredBalanced(b.client.buffered, b.pending, e);
    OneMore(multiset(b.accepted), multiset(b.delivered), multiset(b.client.buffered), multiset(b.overwritten),
            multiset(b.discarded), multiset{e}, multiset(queue), multiset(out));
    assert multiset(b.accepted + [e]) == multiset(b.accepted) + multiset{e};
    assert multiset(b.delivered + [e]) == multiset(b.delivered) + multiset{e};
    assert multiset(b.overwritten + out) == multiset(b.overwritten) + multiset(out);
  }

  lemma StepBalanced(b: Books, ev: Event)
    requires Balanced(b)
    ensures Balanced(Step(b, ev))
  {
    match ev
    case Init(_) =>
    case Cleanup =>
    case Flush(outcomes) => FlushBalanced(b, outcomes);
    case Send(e, publishes) => SendBalanced(b, e, publishes);
  }

  lemma {:induction false} NothingLost(events: seq<Event>)
    ensures Balanced(Run(events))
  {
    if |events| > 0 {
      NothingLost(events[..|events| - 1]);
      StepBalanced(Run(events[..|events| - 1]), events[|events| - 1]);
    }
  }

  /** Without initialisation or publisher a flush does nothing. */
  lemma FlushRefused(b: Books, outcomes: seq<bool>)
    requires !b.client.initialized || !b.client.hasPublisher
    ensures var after := Step(b, Flush(outcomes));
            after.client == b.client && after.delivered == b.delivered && after.accepted == b.accepted
  {
    hide Successes, Stored, Intact;
    assert Taken(b.client, outcomes) == 0;
    assert b.client.buffered[0..] == b.client.buffered && b.delivered + b.client.buffered[..0] == b.delivered;
  }

  /** A flush hands over the oldest entries and keeps exactly the rest, also when it fails half-way. */
  lemma FlushSplits(b: Books, outcomes: seq<bool>) returns (published: seq<Entry>)
    requires b.client.initialized && b.client.hasPublisher
    ensures var after := Step(b, Flush(outcomes));
            && after.delivered == b.delivered + published
            && published + after.client.buffered == b.client.buffered
            && (after.client.buffered == []
                <==> |b.client.buffered| <= |outcomes| && forall i | 0 <= i < |b.client.buffered| :: outcomes[i])
  {
    var all := b.client.buffered;
    var n := Successes(outcomes, |all|);
    assert n < |all| && n < |outcomes| ==> !outcomes[n];
    published := all[..n];
    assert published + all[n..] == all;
  }

  // ---------- the program's own calls ----------

  /**
   Runs of the calls that other files can make: the flush is private to the initialisation, where it
   finds the buffer empty.
   */
  ghost predicate Public(events: seq<Event>) {
    forall i | 0 <= i < |events| :: !events[i].Flush?
  }

  predicate Initialised(events: seq<Event>) {
    |events| > 0 && (events[|events| - 1].Init? || Initialised(events[..|events| - 1]))
  }

  /** An initialisation created a publisher, and no cleanup has dropped it since. */
  predicate PublisherHeld(events: seq<Event>) {
    |events| > 0
    && var last := events[|events| - 1];
       (last.Init? && last.created) || (!last.Cleanup? && PublisherHeld(events[..|events| - 1]))
  }

  /** After these calls, this call is a send whose entry the transport takes. */
  predicate Publishes(before: seq<Event>, ev: Event) {
    ev.Send? && Intact(ev.entry) && PublisherHeld(before) && ev.publishes
  }

  /** After these calls, this call is a send that succeeds by storing its entry. */
  predicate FallsBack(before: seq<Event>, ev: Event) {
    ev.Send? && Intact(ev.entry) && !(PublisherHeld(before) && ev.publishes) && Initialised(before)
  }

  function Direct(before: seq<Event>, ev: Event): seq<Entry> {
    if Publishes(before, ev) then [ev.entry] else []
  }

  function Kept(before: seq<Event>, ev: Event): seq<Entry> {
    if FallsBack(before, ev) then [ev.entry] else []
  }

  /** The entries that were published by their own send. */
  function SentDirectly(events: seq<Event>): seq<Entry> {
    if |events| == 0 then []
    else SentDirectly(events[..|events| - 1]) + Direct(events[..|events| - 1], events[|events| - 1])
  }

  /** The entries whose send succeeded by storing them. */
  function SentToBuffer(events: seq<Event>): seq<Entry> {
    if |events| == 0 then []
    else SentToBuffer(events[..|events| - 1]) + Kept(events[..|events| - 1], events[|events| - 1])
  }

  lemma StepFlags(b: Books, ev: Event)
    ensures Step(b, ev).client.initialized == (b.client.initialized || ev.Init?)
    ensures Step(b, ev).client.hasPublisher == ((!ev.Cleanup? && b.client.hasPublisher) || (ev.Init? && ev.created))
  {
    hide Intact, Stored, Taken;
  }

  lemma {:induction false} ClientFollows(events: seq<Event>)
    ensures Run(events).client.initialized == Initialised(events)
    ensures Run(events).client.hasPublisher == PublisherHeld(events)
  {
    if |events| > 0 {
      hide Step;
      var rest, last := events[..|events| - 1], events[|events| - 1];
      ClientFollows(rest);
      StepFlags(Run(rest), last);
    }
  }

  /** What one call adds to the accepted entries. */
  lemma AcceptedStep(b: Books, before: seq<Event>, ev: Event)
    requires b.client.initialized == Initialised(before) && b.client.hasPublisher == PublisherHeld(before)
    ensures Step(b, ev).accepted == b.accepted + (Direct(before, ev) + Kept(before, ev))
  {
    hide Intact, Stored, Taken;
  }

  lemma BothGrow(all: seq<Entry>, a: seq<Entry>, b: seq<Entry>, x: seq<Entry>, y: seq<Entry>)
    requires multiset(all) == multiset(a) + multiset(b)
    ensures multiset(all + (x + y)) == multiset(a + x) + multiset(b + y)
  {
    forall e
      ensures multiset(all + (x + y))[e] == (multiset(a + x) + multiset(b + y))[e]
    {
      assert multiset(all)[e] == multiset(a)[e] + multiset(b)[e];
    }
  }

  lemma {:induction false} AcceptedSplit(events: seq<Event>)
    ensures multiset(Run(events).accepted) == multiset(SentDirectly(events)) + multiset(SentToBuffer(events))
  {
    if |events| > 0 {
      hide Step, Direct, Kept, Initialised, PublisherHeld;
      var rest, last := events[..|events| - 1], events[|events| - 1];
      AcceptedSplit(rest);
      ClientFollows(rest);
      AcceptedStep(Run(rest), rest, last);
      BothGrow(Run(rest).accepted, SentDirectly(rest), SentToBuffer(rest), Direct(rest, last), Kept(rest, last));
    }
  }

  lemma CancelDelivered(a: multiset<Entry>, b: multiset<Entry>, c: multiset<Entry>)
    requires a + b == a + c
    ensures b == c
  {
    forall e
      ensures b[e] == c[e]
    {
      assert (a + b)[e] == (a + c)[e];
    }
  }

  lemma {:induction false} OnlyDirectDelivered(events: seq<Event>)
    requires Public(events)
    ensures Run(events).delivered == SentDirectly(events)
  {
    if |events| > 0 {
      hide Intact, Stored;
      OnlyDirectDelivered(events[..|events| - 1]);
      ClientFollows(events[..|events| - 1]);
    }
  }

  /**
   The fallback delivers nothing: what the transport gets is exactly what sends publish themselves.
   Every entry that a send reported as stored stays in the buffer, is overwritten, or is thrown away.
   */
  lemma StoredNeverDelivered(events: seq<Event>)
    requires Public(events)
    ensures Run(events).delivered == SentDirectly(events)
    ensures var b := Run(events);
            multiset(SentToBuffer(events))
            == multiset(b.client.buffered) + multiset(b.overwritten) + multiset(b.discarded)
  {
    hide Run, SentDirectly, SentToBuffer;
    NothingLost(events);
    AcceptedSplit(events);
    OnlyDirectDelivered(events);
    var b := Run(events);
    var kept := multiset(b.client.buffered) + multiset(b.overwritten) + multiset(b.discarded);
    assert multiset(b.accepted) == multiset(b.delivered) + kept;
    CancelDelivered(multiset(b.delivered), multiset(SentToBuffer(events)), kept);
  }

  /** A stored entry waits in the buffer: there was one since the last initialisation. */
  predicate Waiting(events: seq<Event>) {
    |events| > 0
    && var rest, last := events[..|events| - 1], events[|events| - 1];
       !last.Init? && (FallsBack(rest, last) || Waiting(rest))
  }

  lemma BufferedStep(b: Books, before: seq<Event>, ev: Event)
    requires b.client.initialized == Initialised(before) && b.client.hasPublisher == PublisherHeld(before)
    requires !ev.Flush?
    ensures Step(b, ev).client.buffered != [] <==> !ev.Init? && (FallsBack(before, ev) || b.client.buffered != [])
  {
    hide Intact, Initialised, PublisherHeld;
  }

  lemma {:induction false} WaitingIsBuffered(events: seq<Event>)
    requires Public(events)
    ensures Waiting(events) <==> Run(events).client.buffered != []
  {
    if |events| > 0 {
      hide FallsBack, Step;
      var rest, last := events[..|events| - 1], events[|events| - 1];
      WaitingIsBuffered(rest);
      ClientFollows(rest);
      BufferedStep(Run(rest), rest, last);
    }
  }

  /** An initialisation throws away exactly what the buffer holds: nothing iff no stored entry waits. */
  lemma InitDiscards(events: seq<Event>, created: bool)
    requires Public(events)
    ensures var before, after := Run(events), Step(Run(events), Init(created));
            && after.delivered == before.delivered && after.client.buffered == []
            && after.discarded == before.discarded + before.client.buffered
            && (after.discarded == before.discarded <==> !Waiting(events))
  {
    WaitingIsBuffered(events);
    var before := Run(events);
    assert |before.discarded + before.client.buffered| == |before.discarded| + |before.client.buffered|;
  }

  /** Some initialisation of the run comes after a stored entry. */
  predicate InitAfterStore(events: seq<Event>) {
    |events| > 0
    && var rest, last := events[..|events| - 1], events[|events| - 1];
       InitAfterStore(rest) || (last.Init? && SentToBuffer(rest) != [])
  }

  lemma {:induction false} StoredStillWaits(events: seq<Event>)
    requires !InitAfterStore(events)
    ensures SentToBuffer(events) != [] <==> Waiting(events)
  {
    if |events| > 0 {
      hide FallsBack;
      StoredStillWaits(events[..|events| - 1]);
    }
  }

  /** A run throws no stored entry away exactly when no initialisation follows the first stored entry. */
  lemma {:induction false} NothingDiscardedIff(events: seq<Event>)
    requires Public(events)
    ensures Run(events).discarded == [] <==> !InitAfterStore(events)
  {
    if |events| > 0 {
      hide Intact, Waiting, FallsBack;
      var rest := events[..|events| - 1];
      NothingDiscardedIff(rest);
      WaitingIsBuffered(rest);
      if !InitAfterStore(rest) { StoredStillWaits(rest); }
    }
  }
}
