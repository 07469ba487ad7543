/**
 The logger service of services/logger/logger_service.c: one 100-entry buffer per level, which
 refuses new entries when it is full, fed by raw pub-sub messages.
 */
module LoggerService {
  import opened Widths
  import opened LogEntry
  import opened SystemErrors

  const CAPACITY: nat := 100
  const SERVICE_LEVELS: nat := 6

  const DONE := SystemError(Code.Ok, System, Low)
  const NULL_MESSAGE := SystemError(CriticalNull, Safety, Critical)
  const BAD_SIZE := SystemError(InvalidSize, Safety, Critical)
  const ENTRY_CORRUPT := SystemError(DataCorrupt, System, High)
  const NOT_REGISTERED := SystemError(RegistrationFailed, System, Critical)
  const NOT_RUNNING := SystemError(NotInit, System, Medium)

  /** logger_service_buffer_t: nothing ever leaves it, so the occupied slots are a prefix. */
  datatype LevelBuffer = LevelBuffer(entries: seq<Entry>, writeIndex: u16, entryCount: u16) {
    predicate Valid() {
      |entries| == CAPACITY && entryCount <= CAPACITY && writeIndex == entryCount % CAPACITY
    }

    function Contents(): (c: seq<Entry>)
      requires Valid()
      ensures |c| == entryCount
    {
      entries[..entryCount]
    }
  }

  function Blank(): (b: LevelBuffer)
    ensures b.Valid() && b.Contents() == []
  {
    LevelBuffer(seq(CAPACITY, i => Entry(0, 0, 0, 0, 0, 0, 0, 0)), 0, 0)
  }

  datatype Status = Status(entryCount: u16, bufferCapacity: u16, droppedCount: u16, storageUsage: u32)

  function Views(buffers: seq<LevelBuffer>): (v: seq<seq<Entry>>)
    requires forall b | b in buffers :: b.Valid()
    ensures |v| == |buffers|
    ensures forall i | 0 <= i < |v| :: v[i] == buffers[i].Contents()
  {
    seq(|buffers|, i requires 0 <= i < |buffers| => buffers[i].Contents())
  }

  function Empty(): (v: seq<seq<Entry>>)
    ensures |v| == SERVICE_LEVELS
  {
    [[], [], [], [], [], []]
  }

  function Stored(view: seq<seq<Entry>>): nat {
    if |view| == 0 then 0 else Stored(view[..|view| - 1]) + |view[|view| - 1]|
  }

  function Verdict(message: Option<seq<u8>>): SystemError {
    if message == None || |message.value| < ENTRY_SIZE then NULL_MESSAGE
    else if |message.value| != ENTRY_SIZE then BAD_SIZE
    else if !Intact(Decode(message.value)) then ENTRY_CORRUPT
    else DONE
  }

  /** A message to be stored: 20 bytes, the first 18 of which sum to the last two. */
  predicate Accepted(message: Option<seq<u8>>) {
    message.Some? && |message.value| == 20 && SumsUp(message.value)
  }

  /** What the sender of a message is told: too short, too long, spoilt, or fine. */
  lemma VerdictOfBytes(message: Option<seq<u8>>)
    ensures Verdict(message) ==
              if message == None then SystemError(CriticalNull, Safety, Critical)
              else if |message.value| < 20 then SystemError(CriticalNull, Safety, Critical)
              else if |message.value| > 20 then SystemError(InvalidSize, Safety, Critical)
              else if !SumsUp(message.value) then SystemError(DataCorrupt, System, High)
              else SystemError(Code.Ok, System, Low)
    ensures Verdict(message) == DONE <==> Accepted(message)
  {
    hide Decode, Intact, SumsUp;
    if message.Some? && |message.value| == ENTRY_SIZE { FieldsOfBytes(message.value); }
  }

  function Deliver(view: seq<seq<Entry>>, message: Option<seq<u8>>): (after: seq<seq<Entry>>)
    requires |view| == SERVICE_LEVELS
    ensures |after| == SERVICE_LEVELS
  {
    if Verdict(message) != DONE then view
    else
      var e := Decode(message.value);
      if e.level < SERVICE_LEVELS && |view[e.level]| < CAPACITY then view[e.level := view[e.level] + [e]] else view
  }

  class Service {
    const levels: array<LevelBuffer>
    var running: bool
    var storageAvailable: bool
    var writeOffset: u32
    var lastFlush: u64
    var lastStatus: Status

    ghost predicate Valid()
      reads levels
    {
      levels.Length == SERVICE_LEVELS && (forall i | 0 <= i < levels.Length :: levels[i].Valid())
    }

    /** What each level buffer holds, oldest entry first. */
    function View(): (v: seq<seq<Entry>>)
      requires Valid()
      reads levels
    {
      Views(levels[..])
    }

    /** The zeroed static storage before logger_service_init. */
    constructor ()
      ensures Valid() && fresh(levels)
      ensures View() == Empty()
      ensures !running && !storageAvailable
    {
      levels := new LevelBuffer[SERVICE_LEVELS](i => Blank());
      running, storageAvailable, writeOffset, lastFlush, lastStatus := false, false, 0, 0, Status(0, 0, 0, 0);
    }

    /** logger_service_init, with the answers of the topic registration and of sys_time_get_us as inputs. */
    method Init(registration: SystemError, time: Reply<u64>) returns (error: SystemError)
      requires Valid()
      modifies this, levels
      ensures Valid() && View() == Empty() && lastStatus == old(lastStatus)
      ensures !storageAvailable && writeOffset == 0
      ensures running == registration.code.Ok?
      ensures error == if running then DONE else NOT_REGISTERED
      ensures lastFlush == if running && time.Succeeded() then time.value else 0
    {
      for i := 0 to SERVICE_LEVELS
        invariant levels.Length == SERVICE_LEVELS && lastStatus == old(lastStatus)
        invariant forall j | 0 <= j < i :: levels[j] == Blank()
      {
        levels[i] := Blank();
      }
      running, storageAvailable, writeOffset, lastFlush := false, false, 0, 0;
      if !registration.code.Ok? { return NOT_REGISTERED; }
      running := true;
      if time.Succeeded() { lastFlush := time.value; }
      return DONE;
    }

    /** logger_service_buffer_put: the entry's own checksum and level are verified first. */
    method BufferPut(level: nat, entry: Entry) returns (stored: bool)
      requires Valid() && level < SERVICE_LEVELS
      modifies levels
      ensures Valid()
      ensures stored <==> Intact(entry) && entry.level < SERVICE_LEVELS && |old(View())[level]| < CAPACITY
      ensures View() == if stored then old(View())[level := old(View())[level] + [entry]] else old(View())
    {
      var checksum := ServiceChecksum(entry);
      if entry.checksum != checksum || entry.level >= SERVICE_LEVELS { return false; }
      var b := levels[level];
      if b.entryCount >= CAPACITY { return false; }
      levels[level] := LevelBuffer(b.entries[b.writeIndex := entry], (b.writeIndex + 1) % CAPACITY, b.entryCount + 1);
      assert levels[level].Contents() == b.Contents() + [entry];
      return true;
    }

    /** logger_service_process_message and process_log_entry_pubsub. */
    method ProcessMessage(message: Option<seq<u8>>) returns (error: SystemError)
      requires Valid()
      modifies levels
      ensures Valid()
      ensures error == Verdict(message)
      ensures error.code.Ok? <==> Accepted(message)
      ensures View() == Deliver(old(View()), message)
    {
      VerdictOfBytes(message);
      if message == None || |message.value| < ENTRY_SIZE { return NULL_MESSAGE; }
      if |message.value| != ENTRY_SIZE { return BAD_SIZE; }
      var entry := Decode(message.value);
      var checksum := ClientChecksum(entry);
      if checksum != entry.checksum { return ENTRY_CORRUPT; }
      var converted := Entry(entry.timestamp, entry.processId, entry.level, entry.tagId, entry.messageId,
                             entry.data0, entry.data1, 0);
      var recomputed := ServiceChecksum(converted);
      assert Payload(converted) == Payload(entry);
      PayloadSumFits(converted);
      converted := converted.(checksum := recomputed);
      assert converted == entry;
      if converted.level < SERVICE_LEVELS {
        var stored := BufferPut(converted.level, converted);
      }
      return DONE;
    }

    /** logger_service_get_status: totals over the levels, and the usage percentage it computes. */
    method GetStatus() returns (error: SystemError, usagePercentage: nat)
      requires Valid()
      modifies `lastStatus
      ensures Valid() && View() == old(View())
      ensures !running ==> error == NOT_RUNNING && lastStatus == old(lastStatus)
      ensures running ==> error == DONE && lastStatus.entryCount == Stored(View())
      ensures running ==> lastStatus.bufferCapacity == CAPACITY * SERVICE_LEVELS && lastStatus.droppedCount == 0
      ensures running ==> lastStatus.storageUsage == if storageAvailable then writeOffset else 0
      ensures usagePercentage == if running then Stored(View()) * 100 / (CAPACITY * SERVICE_LEVELS) else 0
      ensures usagePercentage <= 100
    {
      if !running { return NOT_RUNNING, 0; }
      var total: u16 := 0;
      ghost var view := View();
      for i := 0 to SERVICE_LEVELS
        invariant total == Stored(view[..i]) <= CAPACITY * i
      {
        assert view[..i + 1][..i] == view[..i];
        total := Wrap16(total + levels[i].entryCount);
      }
      assert view[..SERVICE_LEVELS] == view;
      usagePercentage := total * 100 / (CAPACITY * SERVICE_LEVELS);
      lastStatus := Status(total, CAPACITY * SERVICE_LEVELS, 0, if storageAvailable then writeOffset else 0);
      error := DONE;
    }
  }

  // ---------- whole runs ----------

  function Run(messages: seq<Option<seq<u8>>>): (v: seq<seq<Entry>>)
    ensures |v| == SERVICE_LEVELS
  {
    if |messages| == 0 then Empty() else Deliver(Run(messages[..|messages| - 1]), messages[|messages| - 1])
  }

  /** The messages of one level that are to be stored, in arrival order. */
  function Arrivals(messages: seq<Option<seq<u8>>>, level: nat): seq<seq<u8>> {
    if |messages| == 0 then []
    else
      var m := messages[|messages| - 1];
      Arrivals(messages[..|messages| - 1], level) + if Accepted(m) && m.value[6] == level then [m.value] else []
  }

  function First(s: seq<seq<u8>>, n: nat): (r: seq<seq<u8>>) {
    if |s| <= n then s else s[..n]
  }

  lemma FirstGrows(s: seq<seq<u8>>, x: seq<u8>, n: nat)
    ensures First(s + [x], n) == if |First(s, n)| < n then First(s, n) + [x] else First(s, n)
  {
  }

  function Min(a: nat, b: nat): nat { if a <= b then a else b }

  function Total(messages: seq<Option<seq<u8>>>, levels: nat): nat {
    if levels == 0 then 0 else Total(messages, levels - 1) + Min(100, |Arrivals(messages, levels - 1)|)
  }

  /** Entries as the bytes they came in. */
  function Wire(es: seq<Entry>): (bs: seq<seq<u8>>)
    ensures |bs| == |es|
  {
    seq(|es|, i requires 0 <= i < |es| => Encode(es[i]))
  }

  lemma AcceptedLength(message: Option<seq<u8>>)
    requires Accepted(message)
    ensures |message.value| == ENTRY_SIZE
  {
  }

  /** What one message adds to the buffer of a level, in terms of bytes. */
  lemma DeliverBytes(view: seq<seq<Entry>>, message: Option<seq<u8>>, level: nat)
    requires |view| == SERVICE_LEVELS && level < SERVICE_LEVELS
    ensures Wire(Deliver(view, message)[level])
            == if Accepted(message) && message.value[6] == level && |view[level]| < CAPACITY
               then Wire(view[level]) + [message.value] else Wire(view[level])
  {
    hide Decode, Encode, Verdict, Accepted;
    VerdictOfBytes(message);
    if Accepted(message) {
      AcceptedLength(message);
      FieldsOfBytes(message.value);
      CodecRoundTrip(Decode(message.value), message.value);
      if message.value[6] == level && |view[level]| < CAPACITY {
        assert Wire(view[level] + [Decode(message.value)]) == Wire(view[level]) + [message.value];
      }
    }
  }

  lemma ArrivalsStep(messages: seq<Option<seq<u8>>>, level: nat)
    requires |messages| > 0
    ensures var rest, m := messages[..|messages| - 1], messages[|messages| - 1];
            && (Accepted(m) ==> |m.value| == 20)
            && Arrivals(messages, level)
               == if Accepted(m) && m.value[6] == level then Arrivals(rest, level) + [m.value] else Arrivals(rest, level)
  {
    hide SumsUp;
  }

  /**
   After any messages, every level buffer holds, byte for byte, the first 100 messages of its level
   that have 20 bytes and sum up, in arrival order.
   */
  lemma {:induction false} FirstHundredPerLevel(messages: seq<Option<seq<u8>>>, level: nat)
    requires level < 6
    ensures Wire(Run(messages)[level]) == First(Arrivals(messages, level), 100)
  {
    if |messages| == 0 {
      assert Wire([]) == [];
    } else {
      hide Deliver, Wire, Accepted, First, Arrivals;
      var rest, m := messages[..|messages| - 1], messages[|messages| - 1];
      FirstHundredPerLevel(rest, level);
      DeliverBytes(Run(rest), m, level);
      ArrivalsStep(messages, level);
      if Accepted(m) { FirstGrows(Arrivals(rest, level), m.value, CAPACITY); }
    }
  }

  /** Every stored entry is intact, sits in its own level's buffer, and is byte for byte one of the messages. */
  lemma {:induction false} StoredEntriesIntact(messages: seq<Option<seq<u8>>>, level: nat)
    requires level < SERVICE_LEVELS
    ensures forall e | e in Run(messages)[level] ::
              Intact(e) && e.level == level && Some(Encode(e)) in messages
  {
    if |messages| > 0 {
      var rest := messages[..|messages| - 1];
      var m := messages[|messages| - 1];
      StoredEntriesIntact(rest, level);
      if Verdict(m) == DONE {
        CodecRoundTrip(Decode(m.value), m.value);
        assert m in messages;
      }
      assert forall x | x in rest :: x in messages;
    }
  }

  /** The reported total counts at most 100 arrivals per level; the rest were dropped without a trace. */
  lemma {:induction false} ReportedTotal(messages: seq<Option<seq<u8>>>, levels: nat)
    requires levels <= 6
    ensures Stored(Run(messages)[..levels]) == Total(messages, levels) <= 100 * levels
  {
    if levels > 0 {
      ReportedTotal(messages, levels - 1);
      FirstHundredPerLevel(messages, levels - 1);
      assert Run(messages)[..levels][..levels - 1] == Run(messages)[..levels - 1];
    }
  }
}
