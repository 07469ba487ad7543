/**
 The packed 20-byte log record of lib/logging/log_common.h, its constructor, and the three
 checksum loops that the client library, the logger service and the offline parser each own.
 */
module LogEntry {
  import opened Widths
  import opened Bytes
  import opened SystemErrors

  const LEVEL_COUNT := 4
  const TAG_COUNT := 9
  const MESSAGE_COUNT := 18
  const ENTRY_SIZE := 20
  const CHECKSUM_OFFSET := 18

  const BAD_PARAMETER := SystemError(InvalidParam, System, High)
  const OK := SystemError(Code.Ok, Success, NoSeverity)

  datatype Entry = Entry(
    timestamp: u32,
    processId: u16,
    level: u8,
    tagId: u8,
    messageId: u16,
    data0: u32,
    data1: u32,
    checksum: u16)

  /** The bytes in front of the checksum field. */
  function Payload(e: Entry): (b: seq<u8>)
    ensures |b| == CHECKSUM_OFFSET
  {
    Le32(e.timestamp) + Le16(e.processId) + [e.level, e.tagId] + Le16(e.messageId)
    + Le32(e.data0) + Le32(e.data1)
  }

  function Encode(e: Entry): (b: seq<u8>)
    ensures |b| == ENTRY_SIZE
  {
    Payload(e) + Le16(e.checksum)
  }

  function Decode(b: seq<u8>): Entry
    requires |b| == ENTRY_SIZE
  {
    Entry(FromLe32(b[..4]), FromLe16(b[4..6]), b[6], b[7], FromLe16(b[8..10]),
          FromLe32(b[10..14]), FromLe32(b[14..18]), FromLe16(b[18..]))
  }

  /** The record layout loses nothing, in either direction. */
  lemma CodecRoundTrip(e: Entry, b: seq<u8>)
    requires |b| == ENTRY_SIZE
    ensures Decode(Encode(e)) == e
    ensures Encode(Decode(b)) == b
  {
    var x := Encode(e);
    assert x[..4] == Le32(e.timestamp);
    assert x[4..6] == Le16(e.processId);
    assert x[8..10] == Le16(e.messageId);
    assert x[10..14] == Le32(e.data0);
    assert x[14..18] == Le32(e.data1);
    assert x[18..] == Le16(e.checksum);
    Le32Inverse(e.timestamp, b[..4]);
    Le16Inverse(e.processId, b[4..6]);
    Le16Inverse(e.messageId, b[8..10]);
    Le32Inverse(e.data0, b[10..14]);
    Le32Inverse(e.data1, b[14..18]);
    Le16Inverse(e.checksum, b[18..]);
    assert b == b[..4] + b[4..6] + [b[6], b[7]] + b[8..10] + b[10..14] + b[14..18] + b[18..];
  }

  /** Records laid out one behind the other, as in a file or in the entry array of a buffer. */
  function EncodeAll(es: seq<Entry>): (b: seq<u8>)
    ensures |b| == ENTRY_SIZE * |es|
  {
    if |es| == 0 then [] else EncodeAll(es[..|es| - 1]) + Encode(es[|es| - 1])
  }

  /** What an intact record promises about its checksum field. */
  predicate Intact(e: Entry) {
    e.checksum == ByteSum(Payload(e))
  }

  lemma PayloadSumFits(e: Entry)
    ensures ByteSum(Payload(e)) <= 255 * CHECKSUM_OFFSET < TWO_16
  {
    ByteSumBound(Payload(e));
  }

  /** The number at `at` in two bytes, lowest first. */
  function Word16(b: seq<u8>, at: nat): int
    requires at + 2 <= |b|
  {
    (b[at] as int) + 0x100 * (b[at + 1] as int)
  }

  /** The number at `at` in four bytes, lowest first. */
  function Word32(b: seq<u8>, at: nat): int
    requires at + 4 <= |b|
  {
    (b[at] as int) + 0x100 * (b[at + 1] as int) + 0x1_0000 * (b[at + 2] as int) + 0x100_0000 * (b[at + 3] as int)
  }

  /** The first 18 bytes of a record sum to the number in the last two. */
  predicate SumsUp(b: seq<u8>)
    requires |b| == ENTRY_SIZE
  {
    ByteSum(b[..18]) == Word16(b, 18)
  }

  lemma PayloadOfBytes(b: seq<u8>)
    requires |b| == ENTRY_SIZE
    ensures Payload(Decode(b)) == b[..18]
  {
    hide Decode, Payload;
    CodecRoundTrip(Decode(b), b);
    assert Encode(Decode(b))[..18] == Payload(Decode(b));
  }

  /** Where each field of a record lies in its 20 bytes, and what makes the record intact. */
  lemma FieldsOfBytes(b: seq<u8>)
    requires |b| == ENTRY_SIZE
    ensures var e := Decode(b);
            && e.timestamp == Word32(b, 0) && e.processId == Word16(b, 4) && e.level == b[6] && e.tagId == b[7]
            && e.messageId == Word16(b, 8) && e.data0 == Word32(b, 10) && e.data1 == Word32(b, 14)
            && e.checksum == Word16(b, 18)
    ensures Intact(Decode(b)) <==> SumsUp(b)
  {
    hide FromLe16, FromLe32, ByteSum;
    LittleEndian(b[..4]);
    LittleEndian(b[4..6]);
    LittleEndian(b[8..10]);
    LittleEndian(b[10..14]);
    LittleEndian(b[14..18]);
    LittleEndian(b[18..]);
    PayloadOfBytes(b);
  }

  /** log_calculate_checksum: a 16-bit accumulator that wraps at every addition. */
  method ClientChecksum(e: Entry) returns (checksum: u16)
    ensures checksum == ByteSum(Payload(e))
    ensures checksum == e.checksum <==> Intact(e)
  {
    var data := Encode(e);
    checksum := 0;
    for i := 0 to CHECKSUM_OFFSET
      invariant checksum == ByteSum(data[..i])
    {
      ByteSumBound(data[..i + 1]);
      assert data[..i + 1][..i] == data[..i];
      checksum := Wrap16(checksum + data[i]);
    }
    assert data[..CHECKSUM_OFFSET] == Payload(e);
  }

  /** logger_service_calculate_checksum: a 32-bit accumulator, truncated on return. */
  method ServiceChecksum(e: Entry) returns (checksum: u16)
    ensures checksum == ByteSum(Payload(e))
    ensures checksum == e.checksum <==> Intact(e)
  {
    var data := Encode(e);
    var sum: u32 := 0;
    for i := 0 to ENTRY_SIZE - 2
      invariant sum == ByteSum(data[..i])
    {
      ByteSumBound(data[..i + 1]);
      assert data[..i + 1][..i] == data[..i];
      sum := Wrap32(sum + data[i]);
    }
    assert data[..CHECKSUM_OFFSET] == Payload(e);
    PayloadSumFits(e);
    checksum := Wrap16(sum);
  }

  /**
   An altered payload under an unaltered checksum field goes unnoticed exactly when its byte
   sum is what it was; in particular a single altered byte is always noticed.
   */
  lemma AlterationCaught(e: Entry, altered: Entry)
    requires Intact(e) && altered.checksum == e.checksum
    ensures Intact(altered) <==> ByteSum(Payload(altered)) == ByteSum(Payload(e))
    ensures forall i | 0 <= i < CHECKSUM_OFFSET && Payload(altered) == Payload(e)[i := Payload(altered)[i]] ::
              Intact(altered) ==> altered == e
  {
    forall i | 0 <= i < CHECKSUM_OFFSET && Payload(altered) == Payload(e)[i := Payload(altered)[i]] && Intact(altered)
      ensures altered == e
    {
      ByteSumUpdate(Payload(e), i, Payload(altered)[i]);
      assert Payload(altered) == Payload(e);
      CodecRoundTrip(e, Encode(e));
      CodecRoundTrip(altered, Encode(altered));
    }
  }

  /** What log_create_entry returns, and the entry it makes, if any. */
  function Created(level: u8, tagId: u8, messageId: u16, data0: u32, data1: u32, pid: Reply<u16>, time: Reply<u64>)
    : (result: (SystemError, Option<Entry>))
    ensures result.1.Some? <==> result.0.code.Ok?
    ensures result.1.Some? <==>
              level < LEVEL_COUNT && tagId < TAG_COUNT && messageId < MESSAGE_COUNT && pid.Succeeded() && time.Succeeded()
    ensures result.1.Some? ==> Intact(result.1.value)
  {
    if level >= LEVEL_COUNT || tagId >= TAG_COUNT || messageId >= MESSAGE_COUNT then (BAD_PARAMETER, None)
    else if !pid.Succeeded() then (pid.result, None)
    else if !time.Succeeded() then (time.result, None)
    else
      var draft := Entry(Wrap32(time.value), pid.value, level, tagId, messageId, data0, data1, 0);
      PayloadSumFits(draft);
      (OK, Some(draft.(checksum := ByteSum(Payload(draft)))))
  }

  /** log_create_entry, with the answers of sys_getpid and sys_time_get_us as inputs. */
  method CreateEntry(level: u8, tagId: u8, messageId: u16, data0: u32, data1: u32, pid: Reply<u16>, time: Reply<u64>)
    returns (error: SystemError, entry: Option<Entry>)
    ensures (error, entry) == Created(level, tagId, messageId, data0, data1, pid, time)
  {
    if level >= LEVEL_COUNT || tagId >= TAG_COUNT || messageId >= MESSAGE_COUNT { return BAD_PARAMETER, None; }
    if !pid.Succeeded() { return pid.result, None; }
    if !time.Succeeded() { return time.result, None; }
    var draft := Entry(Wrap32(time.value), pid.value, level, tagId, messageId, data0, data1, 0);
    var checksum := ClientChecksum(draft);
    PayloadSumFits(draft);
    assert Payload(draft.(checksum := checksum)) == Payload(draft);
    return OK, Some(draft.(checksum := checksum));
  }
}
