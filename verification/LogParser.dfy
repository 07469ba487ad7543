/**
 The record loop of the offline parser, tools/log_parser/log_parser.c. A file is its bytes; what
 the parser prints is represented by the records it prints, in order.
 */
module LogParser {
  import opened Widths
  import opened Bytes
  import opened LogEntry
  import opened SystemErrors

  datatype Stats = Stats(total: u32, valid: u32, corrupted: u32, unknown: u32)

  datatype ModuleFilter = ModuleFilter(tagId: u8, minLevel: u32)

  /** How log_parser_validate_entry sorts a record; only the first two kinds are valid. */
  datatype Kind = Known | UnknownTag | BadLevel | Corrupt

  function Classify(e: Entry): Kind {
    if !Intact(e) then Corrupt
    else if e.level >= LEVEL_COUNT then BadLevel
    else if e.tagId >= TAG_COUNT then UnknownTag
    else Known
  }

  predicate IsValid(e: Entry) { Classify(e).Known? || Classify(e).UnknownTag? }

  /** The whole records of a byte stream; a shorter rest at its end is never looked at. */
  function Records(stream: seq<u8>): (es: seq<Entry>)
    ensures |es| == |stream| / ENTRY_SIZE
  {
    seq(|stream| / ENTRY_SIZE, i requires 0 <= i < |stream| / ENTRY_SIZE =>
      Decode(stream[ENTRY_SIZE * i..ENTRY_SIZE * i + ENTRY_SIZE]))
  }

  function Tally(es: seq<Entry>, kind: Kind): nat {
    if |es| == 0 then 0
    else Tally(es[..|es| - 1], kind) + if Classify(es[|es| - 1]) == kind then 1 else 0
  }

  /** The counters after one more record, each a 32-bit counter that may wrap. */
  function Count(s: Stats, kind: Kind): Stats {
    Stats(Wrap32(s.total + 1),
          if kind.Known? || kind.UnknownTag? then Wrap32(s.valid + 1) else s.valid,
          if kind.Corrupt? then Wrap32(s.corrupted + 1) else s.corrupted,
          if kind.UnknownTag? then Wrap32(s.unknown + 1) else s.unknown)
  }

  function Advance(s: Stats, es: seq<Entry>): Stats {
    if |es| == 0 then s else Count(Advance(s, es[..|es| - 1]), Classify(es[|es| - 1]))
  }

  /** No filter list, or an empty one, lets every record through. */
  predicate Passes(filters: Option<seq<ModuleFilter>>, e: Entry) {
    filters == None || |filters.value| == 0
    || exists f | f in filters.value :: f.tagId == e.tagId && e.level >= f.minLevel
  }

  predicate Printed(filters: Option<seq<ModuleFilter>>, e: Entry) {
    IsValid(e) && Passes(filters, e)
  }

  function Select(es: seq<Entry>, filters: Option<seq<ModuleFilter>>): seq<Entry> {
    if |es| == 0 then []
    else
      var last := es[|es| - 1];
      Select(es[..|es| - 1], filters) + if Printed(filters, last) then [last] else []
  }

  /** A record that is to be printed, by its bytes and the filters. */
  predicate Wanted(b: seq<u8>, filters: Option<seq<ModuleFilter>>)
    requires |b| == ENTRY_SIZE
  {
    && SumsUp(b) && b[6] < 4
    && (filters == None || filters.value == []
        || exists i | 0 <= i < |filters.value| :: filters.value[i].tagId == b[7] && filters.value[i].minLevel <= b[6])
  }

  lemma PrintedIff(b: seq<u8>, filters: Option<seq<ModuleFilter>>)
    requires |b| == ENTRY_SIZE
    ensures Printed(filters, Decode(b)) <==> Wanted(b, filters)
  {
    hide Decode, SumsUp, Intact;
    FieldsOfBytes(b);
    var e := Decode(b);
    if Passes(filters, e) && filters.Some? && |filters.value| > 0 {
      var f :| f in filters.value && f.tagId == e.tagId && e.level >= f.minLevel;
      var i :| 0 <= i < |filters.value| && filters.value[i] == f;
    }
  }

  class Parser {
    var stats: Stats

    /** log_parser_init resets the counters. */
    constructor ()
      ensures stats == Stats(0, 0, 0, 0)
    {
      stats := Stats(0, 0, 0, 0);
    }

    /** log_parser_validate_entry; a block of any other size is refused and not counted. */
    method ValidateEntry(data: Option<seq<u8>>) returns (ok: bool)
      modifies this
      ensures ok <==> data.Some? && |data.value| == ENTRY_SIZE && IsValid(Decode(data.value))
      ensures stats == if data.Some? && |data.value| == ENTRY_SIZE then
                Count(old(stats), Classify(Decode(data.value))).(total := old(stats).total, valid := old(stats).valid)
              else old(stats)
    {
      if data == None || |data.value| != ENTRY_SIZE { return false; }
      var entry := Decode(data.value);
      var checksum := ClientChecksum(entry);
      if checksum != entry.checksum {
        stats := stats.(corrupted := Wrap32(stats.corrupted + 1));
        return false;
      }
      if entry.level >= LEVEL_COUNT { return false; }
      if entry.tagId >= TAG_COUNT { stats := stats.(unknown := Wrap32(stats.unknown + 1)); }
      return true;
    }

    /** The filter loop: the first matching filter decides. */
    method ShouldOutput(filters: Option<seq<ModuleFilter>>, entry: Entry) returns (output: bool)
      ensures output == Passes(filters, entry)
      ensures output <==>
                filters == None || filters.value == []
                || exists i | 0 <= i < |filters.value| ::
                     filters.value[i].tagId == entry.tagId && filters.value[i].minLevel <= entry.level
    {
      if filters == None || |filters.value| == 0 { return true; }
      for i := 0 to |filters.value|
        invariant forall j | 0 <= j < i ::
                    !(filters.value[j].tagId == entry.tagId && entry.level >= filters.value[j].minLevel)
      {
        if filters.value[i].tagId == entry.tagId && entry.level >= filters.value[i].minLevel { return true; }
      }
      return false;
    }

    /** One turn of the record loop. */
    method ParseRecord(block: seq<u8>, filters: Option<seq<ModuleFilter>>) returns (shown: bool)
      requires |block| == ENTRY_SIZE
      modifies this
      ensures stats == Count(old(stats), Classify(Decode(block)))
      ensures shown == Printed(filters, Decode(block))
      ensures shown <==> Wanted(block, filters)
    {
      PrintedIff(block, filters);
      stats := stats.(total := Wrap32(stats.total + 1));
      var ok := ValidateEntry(Some(block));
      if !ok { return false; }
      stats := stats.(valid := Wrap32(stats.valid + 1));
      shown := ShouldOutput(filters, Decode(block));
    }

    /** The record loop of log_parser_process_file_ex; with no filters, that of log_parser_process_file. */
    method ProcessFile(stream: seq<u8>, filters: Option<seq<ModuleFilter>>) returns (printed: seq<Entry>)
      modifies this
      ensures stats == Advance(old(stats), Records(stream))
      ensures printed == Select(Records(stream), filters)
    {
      hide Classify, Printed, Decode, Count;
      printed := [];
      ghost var all := Records(stream);
      var i := 0;
      while ENTRY_SIZE * i + ENTRY_SIZE <= |stream|
        invariant 0 <= i <= |all|
        invariant stats == Advance(old(stats), all[..i])
        invariant printed == Select(all[..i], filters)
      {
        var block := stream[ENTRY_SIZE * i..ENTRY_SIZE * i + ENTRY_SIZE];
        assert all[i] == Decode(block) && all[..i + 1][..i] == all[..i];
        var shown := ParseRecord(block, filters);
        if shown { printed := printed + [Decode(block)]; }
        i := i + 1;
      }
      assert all[..i] == all;
    }
  }

  // ---------- accounting ----------

  /** The counters `s` raised by the given amounts. */
  function Raised(s: Stats, total: nat, valid: nat, corrupted: nat, unknown: nat): Stats {
    Stats(Wrap32(s.total + total), Wrap32(s.valid + valid),
          Wrap32(s.corrupted + corrupted), Wrap32(s.unknown + unknown))
  }

  lemma RaiseOne(s: Stats, t: nat, v: nat, c: nat, u: nat, kind: Kind)
    ensures Count(Raised(s, t, v, c, u), kind)
            == Raised(s, t + 1, if kind.Known? || kind.UnknownTag? then v + 1 else v,
                      if kind.Corrupt? then c + 1 else c, if kind.UnknownTag? then u + 1 else u)
  {
    hide Wrap32;
    Wrap32Next(s.total + t);
    Wrap32Next(s.valid + v);
    Wrap32Next(s.corrupted + c);
    Wrap32Next(s.unknown + u);
  }

  lemma RaisedByNothing(s: Stats)
    ensures Raised(s, 0, 0, 0, 0) == s
  {
  }

  /** The wrapping counters hold the tallies modulo 2^32. */
  lemma {:induction false} AdvanceTallies(s: Stats, es: seq<Entry>)
    ensures Advance(s, es) == Raised(s, |es|, Tally(es, Known) + Tally(es, UnknownTag),
                                     Tally(es, Corrupt), Tally(es, UnknownTag))
  {
    hide Classify, Raised, Count, Wrap32;
    if |es| == 0 {
      RaisedByNothing(s);
    } else {
      var rest := es[..|es| - 1];
      AdvanceTallies(s, rest);
      RaiseOne(s, |rest|, Tally(rest, Known) + Tally(rest, UnknownTag), Tally(rest, Corrupt),
               Tally(rest, UnknownTag), Classify(es[|es| - 1]));
    }
  }

  lemma {:induction false} Partition(es: seq<Entry>)
    ensures |es| == Tally(es, Known) + Tally(es, UnknownTag) + Tally(es, BadLevel) + Tally(es, Corrupt)
  {
    if |es| > 0 { Partition(es[..|es| - 1]); }
  }

  /**
   From fresh counters, any stream of fewer than 2^32 records is accounted for record by record:
   valid, corrupted and level-rejected records make up the total, which is the number of whole
   records in the stream, and the records with an unknown tag are among the valid ones.
   */
  lemma StreamAccounted(stream: seq<u8>)
    requires |stream| / ENTRY_SIZE < TWO_32
    ensures var s := Advance(Stats(0, 0, 0, 0), Records(stream));
            && s.total == |stream| / ENTRY_SIZE
            && s.total == s.valid + s.corrupted + Tally(Records(stream), BadLevel)
            && s.unknown == Tally(Records(stream), UnknownTag) <= s.valid
            && s.corrupted == Tally(Records(stream), Corrupt)
  {
    hide Advance, Tally, Count;
    Partition(Records(stream));
    AdvanceTallies(Stats(0, 0, 0, 0), Records(stream));
  }

  /** What is printed is the input thinned out: order kept, and exactly the matching records chosen. */
  lemma {:induction false} SelectChooses(es: seq<Entry>, filters: Option<seq<ModuleFilter>>)
    returns (chosen: seq<nat>)
    ensures |chosen| == |Select(es, filters)|
    ensures forall k | 0 <= k < |chosen| :: chosen[k] < |es| && Select(es, filters)[k] == es[chosen[k]]
    ensures forall j, k | 0 <= j < k < |chosen| :: chosen[j] < chosen[k]
    ensures forall i: nat | i < |es| :: i in chosen <==> Printed(filters, es[i])
  {
    if |es| == 0 { return []; }
    chosen := SelectChooses(es[..|es| - 1], filters);
    if Printed(filters, es[|es| - 1]) { chosen := chosen + [|es| - 1]; }
  }

  function Block(stream: seq<u8>, i: nat): (b: seq<u8>)
    requires 20 * i + 20 <= |stream|
    ensures |b| == ENTRY_SIZE
  {
    stream[20 * i..20 * i + 20]
  }

  /**
   What is printed of a byte stream, in terms of its bytes: in their order, exactly the records whose
   first 18 bytes sum to their last two, whose level is below 4, and which some filter lets
   through, if there are filters: one with their tag and a minimum level not above their own.
   */
  lemma StreamChooses(stream: seq<u8>, filters: Option<seq<ModuleFilter>>) returns (chosen: seq<nat>)
    ensures |chosen| == |Select(Records(stream), filters)|
    ensures forall k | 0 <= k < |chosen| :: 20 * chosen[k] + 20 <= |stream|
    ensures forall k | 0 <= k < |chosen| :: Encode(Select(Records(stream), filters)[k]) == Block(stream, chosen[k])
    ensures forall j, k | 0 <= j < k < |chosen| :: chosen[j] < chosen[k]
    ensures forall i: nat | 20 * i + 20 <= |stream| :: i in chosen <==> Wanted(Block(stream, i), filters)
  {
    hide Decode, Encode, Printed, Wanted, Select;
    chosen := SelectChooses(Records(stream), filters);
    forall i: nat | 20 * i + 20 <= |stream|
      ensures Records(stream)[i] == Decode(Block(stream, i))
      ensures i in chosen <==> Wanted(Block(stream, i), filters)
      ensures Encode(Records(stream)[i]) == Block(stream, i)
    {
      PrintedIff(Block(stream, i), filters);
      CodecRoundTrip(Decode(Block(stream, i)), Block(stream, i));
    }
  }

  /** How a record is counted, in terms of its bytes. */
  lemma KindOfBytes(b: seq<u8>)
    requires |b| == ENTRY_SIZE
    ensures Classify(Decode(b)) == Corrupt <==> !SumsUp(b)
    ensures Classify(Decode(b)) == BadLevel <==> SumsUp(b) && b[6] >= 4
    ensures Classify(Decode(b)) == UnknownTag <==> SumsUp(b) && b[6] < 4 && b[7] >= 9
  {
    hide Decode, SumsUp, Intact;
    FieldsOfBytes(b);
  }

  // ---------- laws of the filters ----------

  /** Raising the minimum level of a filter never adds a record. */
  lemma StricterFilter(filters: seq<ModuleFilter>, i: nat, minLevel: u32, e: Entry)
    requires i < |filters| && filters[i].minLevel <= minLevel
    ensures Printed(Some(filters[i := filters[i].(minLevel := minLevel)]), e) ==> Printed(Some(filters), e)
  {
    hide IsValid;
    var stricter := filters[i := filters[i].(minLevel := minLevel)];
    if Passes(Some(stricter), e) {
      var f :| f in stricter && f.tagId == e.tagId && e.level >= f.minLevel;
      var j :| 0 <= j < |stricter| && stricter[j] == f;
      assert filters[j] in filters;
    }
  }

  /** One more filter next to others never takes a record away. */
  lemma MoreFilters(filters: seq<ModuleFilter>, f: ModuleFilter, e: Entry)
    requires |filters| > 0
    ensures Printed(Some(filters), e) ==> Printed(Some(filters + [f]), e)
  {
    hide IsValid;
    if Passes(Some(filters), e) {
      var g :| g in filters && g.tagId == e.tagId && e.level >= g.minLevel;
      assert g in filters + [f];
    }
  }

  /** A single filter for all levels of a tag prints exactly the valid records of the tag. */
  lemma WholeTag(tagId: u8, e: Entry)
    ensures Printed(Some([ModuleFilter(tagId, 0)]), e) <==> IsValid(e) && e.tagId == tagId
  {
    hide IsValid;
    assert ModuleFilter(tagId, 0) in [ModuleFilter(tagId, 0)];
  }

  // ---------- round trip ----------

  lemma {:induction false} EncodedBlock(es: seq<Entry>, i: nat)
    requires i < |es|
    ensures EncodeAll(es)[ENTRY_SIZE * i..ENTRY_SIZE * i + ENTRY_SIZE] == Encode(es[i])
  {
    if i < |es| - 1 {
      EncodedBlock(es[..|es| - 1], i);
    }
  }

  /** Records written one after the other read back as they were, whatever unfinished record follows. */
  lemma ReadsBackWritten(es: seq<Entry>, tail: seq<u8>)
    requires |tail| < ENTRY_SIZE
    ensures Records(EncodeAll(es) + tail) == es
  {
    hide Decode, Encode;
    var stream := EncodeAll(es) + tail;
    forall i | 0 <= i < |es|
      ensures Records(stream)[i] == es[i]
    {
      EncodedBlock(es, i);
      SliceOfFront(EncodeAll(es), tail, ENTRY_SIZE * i, ENTRY_SIZE * i + ENTRY_SIZE);
      CodecRoundTrip(es[i], Encode(es[i]));
    }
  }

  lemma RecordsOfPrefix(stream: seq<u8>, n: nat)
    requires ENTRY_SIZE * n <= |stream|
    ensures Records(stream[..ENTRY_SIZE * n]) == Records(stream)[..n]
  {
    hide Decode;
    forall i | 0 <= i < n
      ensures stream[ENTRY_SIZE * i..ENTRY_SIZE * i + ENTRY_SIZE]
              == stream[..ENTRY_SIZE * n][ENTRY_SIZE * i..ENTRY_SIZE * i + ENTRY_SIZE]
    {
    }
  }

  /** The inverse direction: re-encoding what was read gives the stream without its unfinished record. */
  lemma {:induction false} WritesBackRead(stream: seq<u8>)
    ensures EncodeAll(Records(stream)) == stream[..ENTRY_SIZE * (|stream| / ENTRY_SIZE)]
    decreases |stream|
  {
    hide Decode, Encode;
    var n := |stream| / ENTRY_SIZE;
    if n > 0 {
      var front := stream[..ENTRY_SIZE * (n - 1)];
      WritesBackRead(front);
      RecordsOfPrefix(stream, n - 1);
      var block := stream[ENTRY_SIZE * (n - 1)..ENTRY_SIZE * (n - 1) + ENTRY_SIZE];
      CodecRoundTrip(Decode(block), block);
      assert stream[..ENTRY_SIZE * n] == front + block;
    }
  }

  /** An entry that log_create_entry can return. */
  ghost predicate FromCreateEntry(e: Entry) {
    exists level, tagId, messageId, data0, data1, pid, time ::
      Created(level, tagId, messageId, data0, data1, pid, time).1 == Some(e)
  }

  lemma {:induction false} AllKnown(es: seq<Entry>)
    requires forall e | e in es :: FromCreateEntry(e)
    ensures Select(es, None) == es
    ensures Tally(es, Known) == |es| && Tally(es, UnknownTag) == 0 && Tally(es, Corrupt) == 0
  {
    if |es| > 0 {
      AllKnown(es[..|es| - 1]);
      assert FromCreateEntry(es[|es| - 1]);
    }
  }

  /**
   The pipeline: entries made by log_create_entry, written as records and parsed without filters,
   are printed one and all in order, with every record counted as valid.
   */
  lemma {:induction false} PipelineRoundTrip(es: seq<Entry>, tail: seq<u8>)
    requires forall e | e in es :: FromCreateEntry(e)
    requires |tail| < ENTRY_SIZE
    ensures Select(Records(EncodeAll(es) + tail), None) == es
    ensures Advance(Stats(0, 0, 0, 0), Records(EncodeAll(es) + tail))
            == Stats(Wrap32(|es|), Wrap32(|es|), 0, 0)
  {
    ReadsBackWritten(es, tail);
    AllKnown(es);
    AdvanceTallies(Stats(0, 0, 0, 0), es);
  }

  // ---------- from the arguments of the calls ----------

  /** A call of log_create_entry, with what the two system calls answer. */
  datatype Call = Call(
    level: u8,
    tagId: u8,
    messageId: u16,
    data1: u32,
    data2: u32,
    pid: Reply<u16>,
    time: Reply<u64>)
  {
    predicate WellFormed() { level < 4 && tagId < 9 && messageId < 18 }

    predicate Accepted() { WellFormed() && pid.Succeeded() && time.Succeeded() }

    function Answer(): (SystemError, Option<Entry>) {
      Created(level, tagId, messageId, data1, data2, pid, time)
    }
  }

  /** A call is refused for its parameters first, then for the process id, then for the time. */
  lemma RefusalReason(c: Call)
    ensures c.Answer().1 == None <==> !c.Accepted()
    ensures !c.WellFormed() ==> c.Answer().0 == SystemError(InvalidParam, System, High)
    ensures c.WellFormed() && !c.pid.Succeeded() ==> c.Answer().0 == c.pid.result
    ensures c.WellFormed() && c.pid.Succeeded() && !c.time.Succeeded() ==> c.Answer().0 == c.time.result
    ensures c.Accepted() ==> c.Answer().0 == SystemError(Code.Ok, Success, NoSeverity)
  {
    hide Intact;
  }

  /** What log_create_entry makes of a call. */
  function EntryOf(c: Call): Entry
    requires c.Accepted()
  {
    c.Answer().1.value
  }

  function EntriesOf(calls: seq<Call>): (es: seq<Entry>)
    requires forall c | c in calls :: c.Accepted()
    ensures |es| == |calls|
  {
    seq(|calls|, i requires 0 <= i < |calls| => EntryOf(calls[i]))
  }

  /** The bytes of a record hold the arguments of the call, each at its place. */
  predicate Carries(b: seq<u8>, c: Call)
    requires |b| == ENTRY_SIZE
  {
    && Word32(b, 0) == c.time.value % 0x1_0000_0000
    && Word16(b, 4) == c.pid.value
    && b[6] == c.level
    && b[7] == c.tagId
    && Word16(b, 8) == c.messageId
    && Word32(b, 10) == c.data1
    && Word32(b, 14) == c.data2
    && SumsUp(b)
  }

  /** The fields of an entry are the arguments of the call. */
  predicate Reports(e: Entry, c: Call) {
    && e.timestamp == c.time.value % 0x1_0000_0000 && e.processId == c.pid.value
    && e.level == c.level && e.tagId == c.tagId && e.messageId == c.messageId
    && e.data0 == c.data1 && e.data1 == c.data2
  }

  lemma EntryCarries(c: Call)
    requires c.Accepted()
    ensures Reports(EntryOf(c), c) && Intact(EntryOf(c)) && Carries(Encode(EntryOf(c)), c)
  {
    hide Payload, Encode, Decode, SumsUp;
    var e := EntryOf(c);
    assert Intact(e) && Reports(e, c);
    hide Created, Intact;
    FieldsOfBytes(Encode(e));
    CodecRoundTrip(e, Encode(e));
  }

  lemma MadeByCall(c: Call)
    requires c.Accepted()
    ensures FromCreateEntry(EntryOf(c))
  {
    assert Created(c.level, c.tagId, c.messageId, c.data1, c.data2, c.pid, c.time).1 == Some(EntryOf(c));
  }

  /**
   The pipeline from the calls on: record i of the written stream holds the arguments of call i at
   their places in the packed layout, lowest byte first, and the parser prints all of them in order.
   */
  lemma PipelineFromCalls(calls: seq<Call>, tail: seq<u8>)
    requires forall c | c in calls :: c.Accepted()
    requires |tail| < ENTRY_SIZE
    ensures var stream := EncodeAll(EntriesOf(calls)) + tail;
            && |stream| == 20 * |calls| + |tail|
            && (forall i | 0 <= i < |calls| :: Carries(Block(stream, i), calls[i]))
            && (var printed := Select(Records(stream), None);
                |printed| == |calls| && forall i | 0 <= i < |calls| :: Reports(printed[i], calls[i]))
  {
    hide Encode, Decode, Select, Carries, Reports, EntryOf, Created;
    var es := EntriesOf(calls);
    var stream := EncodeAll(es) + tail;
    forall i | 0 <= i < |calls|
      ensures Block(stream, i) == Encode(es[i])
      ensures Carries(Encode(es[i]), calls[i]) && Reports(es[i], calls[i])
    {
      EntryCarries(calls[i]);
      EncodedBlock(es, i);
      SliceOfFront(EncodeAll(es), tail, 20 * i, 20 * i + 20);
    }
    forall e | e in es
      ensures FromCreateEntry(e)
    {
      var i :| 0 <= i < |es| && es[i] == e;
      MadeByCall(calls[i]);
    }
    PipelineRoundTrip(es, tail);
  }
}
