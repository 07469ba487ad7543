/**
 The checksummed overwrite-oldest ring buffer of lib/logging/log_core.c.

 `State` is the C structure; `Image` is the memory in front of its checksum field. The stored
 checksum has 16 bits and is compared with a 32-bit sum, so the buffer works as a queue only for
 as long as the bytes of all 64 slots add up to less than 65536.
 */
module LogBuffer {
  import opened Widths
  import opened Bytes
  import opened LogEntry
  import opened SystemErrors

  const CAPACITY: nat := 64

  datatype State = State(
    entries: seq<Entry>,
    writeIndex: u16,
    readIndex: u16,
    entryCount: u16,
    bufferSize: u16,
    stored: u16)

  const OUT_OF_BOUNDS := SystemError(IndexOob, Safety, Critical)
  const CORRUPT := SystemError(DataCorrupt, Safety, Critical)
  const EMPTY := SystemError(BufEmpty, System, Medium)
  const NULL_POINTER := SystemError(CriticalNull, Safety, Critical)

  function Image(s: State): (b: seq<u8>)
    ensures |b| == ENTRY_SIZE * |s.entries| + 8
  {
    EncodeAll(s.entries) + Le16(s.writeIndex) + Le16(s.readIndex) + Le16(s.entryCount) + Le16(s.bufferSize)
  }

  function Verify(s: State): SystemError {
    if s.writeIndex >= CAPACITY || s.readIndex >= CAPACITY then OUT_OF_BOUNDS
    else if s.stored != Wrap32(ByteSum(Image(s))) then CORRUPT
    else if s.entryCount > CAPACITY then CORRUPT
    else OK
  }

  /** The buffer between the copy of the entry and the update of the checksum. */
  function Insert(s: State, e: Entry): (t: State)
    requires |s.entries| == CAPACITY && s.writeIndex < CAPACITY && s.writeIndex < s.bufferSize
    ensures |t.entries| == CAPACITY
  {
    var room := s.entryCount < s.bufferSize;
    s.(entries := s.entries[s.writeIndex := e],
       writeIndex := (s.writeIndex + 1) % s.bufferSize,
       entryCount := if room then s.entryCount + 1 else s.entryCount,
       readIndex := if room then s.readIndex else (s.readIndex + 1) % s.bufferSize)
  }

  /** The buffer after an entry has been taken, before the update of the checksum. */
  function Remove(s: State): (t: State)
    requires s.bufferSize > 0 && s.entryCount > 0
  {
    s.(readIndex := (s.readIndex + 1) % s.bufferSize, entryCount := s.entryCount - 1)
  }

  function Seal(s: State): State {
    s.(stored := Wrap16(Wrap32(ByteSum(Image(s)))))
  }

  function Put(s: State, e: Entry): (r: (State, SystemError))
    requires |s.entries| == CAPACITY
    ensures |r.0.entries| == CAPACITY
  {
    if s.writeIndex >= s.bufferSize then (s, OUT_OF_BOUNDS)
    else if IsCritical(Verify(s)) then (s, Verify(s))
    else var t := Seal(Insert(s, e)); (t, Verify(t))
  }

  /** A zero buffer size would make the read index step divide by zero; no initialised buffer has one. */
  predicate CanGet(s: State) {
    Verify(s) == OK && s.entryCount > 0 ==> s.bufferSize > 0
  }

  function Get(s: State): (r: (State, SystemError, Option<Entry>))
    requires |s.entries| == CAPACITY && CanGet(s)
    ensures |r.0.entries| == CAPACITY
  {
    if IsCritical(Verify(s)) then (s, Verify(s), None)
    else if s.entryCount == 0 then (s, EMPTY, None)
    else (Seal(Remove(s)), OK, Some(s.entries[s.readIndex]))
  }

  function Zero(): Entry { Entry(0, 0, 0, 0, 0, 0, 0, 0) }

  function Init(): State {
    Seal(State(seq(CAPACITY, i => Zero()), 0, 0, 0, CAPACITY, 0))
  }

  class Buffer {
    var entries: array<Entry>
    var writeIndex: u16
    var readIndex: u16
    var entryCount: u16
    var bufferSize: u16
    var safetyChecksum: u16

    ghost predicate Valid()
      reads this
    {
      entries.Length == CAPACITY
    }

    function View(): State
      reads this, entries
    {
      State(entries[..], writeIndex, readIndex, entryCount, bufferSize, safetyChecksum)
    }

    /** log_calculate_buffer_checksum: a 32-bit sum over every byte before the checksum field. */
    method CalculateChecksum() returns (checksum: u32)
      requires Valid()
      ensures checksum == ByteSum(Image(View()))
    {
      var data := Image(View());
      checksum := 0;
      for i := 0 to |data|
        invariant checksum == ByteSum(data[..i])
      {
        ByteSumBound(data[..i + 1]);
        assert data[..i + 1][..i] == data[..i];
        checksum := Wrap32(checksum + data[i]);
      }
      assert data[..|data|] == data;
    }

    /** log_system_init_safe on fresh storage. */
    constructor ()
      ensures Valid() && fresh(entries)
      ensures View() == Init()
    {
      entries := new Entry[CAPACITY](i => Zero());
      writeIndex, readIndex, entryCount, bufferSize, safetyChecksum := 0, 0, 0, CAPACITY, 0;
      new;
      var sum := CalculateChecksum();
      safetyChecksum := Wrap16(sum);
      assert entries[..] == seq(CAPACITY, i => Zero());
    }

    /** log_system_init_safe on the existing global buffer. */
    method Reset()
      requires Valid()
      modifies this, entries
      ensures Valid() && entries == old(entries)
      ensures View() == Init()
    {
      for i := 0 to CAPACITY
        invariant Valid() && entries == old(entries)
        invariant forall j | 0 <= j < i :: entries[j] == Zero()
      {
        entries[i] := Zero();
      }
      writeIndex, readIndex, entryCount, bufferSize, safetyChecksum := 0, 0, 0, CAPACITY, 0;
      assert entries[..] == seq(CAPACITY, i => Zero());
      var sum := CalculateChecksum();
      safetyChecksum := Wrap16(sum);
    }

    method VerifyIntegrity() returns (error: SystemError)
      requires Valid()
      ensures error == Verify(View())
    {
      if writeIndex >= CAPACITY { return OUT_OF_BOUNDS; }
      if readIndex >= CAPACITY { return OUT_OF_BOUNDS; }
      var sum := CalculateChecksum();
      if safetyChecksum != sum { return CORRUPT; }
      if entryCount > CAPACITY { return CORRUPT; }
      return OK;
    }

    /** The checksum update that ends every successful operation; the sum is cut to 16 bits. */
    method UpdateChecksum()
      requires Valid()
      modifies `safetyChecksum
      ensures View() == Seal(old(View()))
    {
      var sum := CalculateChecksum();
      safetyChecksum := Wrap16(sum);
    }

    /** The copy of the entry and the index updates of log_buffer_put_safe. */
    method Append(entry: Entry)
      requires Valid() && writeIndex < CAPACITY && writeIndex < bufferSize
      modifies this, entries
      ensures Valid() && entries == old(entries)
      ensures View() == Insert(old(View()), entry)
    {
      entries[writeIndex] := entry;
      assert entries[..] == old(entries[..])[writeIndex := entry];
      writeIndex := (writeIndex + 1) % bufferSize;
      if entryCount < bufferSize {
        entryCount := entryCount + 1;
      } else {
        readIndex := (readIndex + 1) % bufferSize;
      }
    }

    /** log_buffer_put_safe */
    method PutSafe(entry: Option<Entry>) returns (error: SystemError)
      requires Valid()
      modifies this, entries
      ensures Valid() && entries == old(entries)
      ensures entry == None ==> View() == old(View()) && error == NULL_POINTER
      ensures entry.Some? ==> (View(), error) == Put(old(View()), entry.value)
    {
      if entry == None { return NULL_POINTER; }
      if writeIndex >= bufferSize { return OUT_OF_BOUNDS; }
      var check := VerifyIntegrity();
      if IsCritical(check) { return check; }
      Append(entry.value);
      UpdateChecksum();
      error := VerifyIntegrity();
    }

    /** log_buffer_get_safe; `entry` is what the call stored through its output pointer. */
    method GetSafe(hasTarget: bool) returns (error: SystemError, entry: Option<Entry>)
      requires Valid() && CanGet(View())
      modifies this
      ensures Valid() && entries == old(entries)
      ensures !hasTarget ==> View() == old(View()) && error == NULL_POINTER && entry == None
      ensures hasTarget ==> (View(), error, entry) == Get(old(View()))
    {
      if !hasTarget { return NULL_POINTER, None; }
      var check := VerifyIntegrity();
      if IsCritical(check) { return check, None; }
      if entryCount == 0 { return EMPTY, None; }
      entry := Some(entries[readIndex]);
      readIndex := (readIndex + 1) % bufferSize;
      entryCount := entryCount - 1;
      UpdateChecksum();
      error := OK;
    }
  }

  /** The global buffer together with its initialisation flag. */
  class LogSystem {
    const buffer: Buffer
    var initialized: bool

    constructor (b: Buffer)
      ensures buffer == b && !initialized
    {
      buffer, initialized := b, false;
    }

    /** log_record_binary_safe, with the answers of sys_getpid and sys_time_get_us as inputs. */
    method Record(level: u8, tagId: u8, messageId: u16, data0: u32, data1: u32, pid: Reply<u16>, time: Reply<u64>)
      returns (error: SystemError)
      requires buffer.Valid()
      modifies this, buffer, buffer.entries
      ensures buffer.Valid() && initialized
      ensures var before := if old(initialized) then old(buffer.View()) else Init();
              var (refusal, entry) := Created(level, tagId, messageId, data0, data1, pid, time);
              if entry == None then buffer.View() == before && error == refusal
              else (buffer.View(), error) == Put(before, entry.value)
    {
      if !initialized {
        buffer.Reset();
        initialized := true;
      }
      var entry;
      error, entry := CreateEntry(level, tagId, messageId, data0, data1, pid, time);
      if entry == None { return; }
      error := buffer.PutSafe(entry);
    }
  }
}
