/**
 The batch container of lib/libipc/ipc_batch.c: messages of one size, packed one behind the other
 into a flat allocation, and published as a whole.
 */
module Batch {
  import opened Widths

  const SIZE_MAX := TWO_64 - 1

  // ---------- packing ----------

  function Flatten(messages: seq<seq<u8>>): seq<u8> {
    if |messages| == 0 then [] else Flatten(messages[..|messages| - 1]) + messages[|messages| - 1]
  }

  ghost predicate AllOfSize(messages: seq<seq<u8>>, size: nat) {
    forall i | 0 <= i < |messages| :: |messages[i]| == size
  }

  /** Cuts a byte string into pieces of `size`, as a receiver that knows the message size does. */
  function Cut(bytes: seq<u8>, size: nat): seq<seq<u8>>
    requires size > 0
  {
    if |bytes| < size then [] else [bytes[..size]] + Cut(bytes[size..], size)
  }

  lemma {:induction false} FlattenLength(messages: seq<seq<u8>>, size: nat)
    requires AllOfSize(messages, size)
    ensures |Flatten(messages)| == |messages| * size
  {
    if |messages| > 0 {
      var n := |messages| - 1;
      FlattenLength(messages[..n], size);
      assert |messages| * size == n * size + size;
    }
  }

  lemma {:induction false} FlattenFront(messages: seq<seq<u8>>)
    requires |messages| > 0
    ensures Flatten(messages) == messages[0] + Flatten(messages[1..])
  {
    if |messages| > 1 {
      var n := |messages| - 1;
      FlattenFront(messages[..n]);
      assert messages[..n][1..] == messages[1..][..n - 1];
      assert messages[0] + Flatten(messages[1..][..n - 1]) + messages[n]
             == messages[0] + (Flatten(messages[1..][..n - 1]) + messages[n]);
    }
  }

  /** Cutting what was packed gives the messages back. */
  lemma {:induction false} CutFlatten(messages: seq<seq<u8>>, size: nat)
    requires size > 0 && AllOfSize(messages, size)
    ensures Cut(Flatten(messages), size) == messages
  {
    if |messages| > 0 {
      FlattenFront(messages);
      CutFlatten(messages[1..], size);
      var rest := Flatten(messages[1..]);
      assert (messages[0] + rest)[..size] == messages[0] && (messages[0] + rest)[size..] == rest;
    }
  }

  /** And packing what was cut gives the bytes back, if they are whole messages. */
  lemma {:induction false} FlattenCut(bytes: seq<u8>, size: nat, n: nat)
    requires size > 0 && |bytes| == n * size
    ensures Flatten(Cut(bytes, size)) == bytes && |Cut(bytes, size)| == n
    decreases n
  {
    if n > 0 {
      assert n * size == (n - 1) * size + size;
      FlattenCut(bytes[size..], size, n - 1);
      var pieces := Cut(bytes, size);
      assert pieces[1..] == Cut(bytes[size..], size);
      FlattenFront(pieces);
      assert bytes == bytes[..size] + bytes[size..];
    }
  }

  /** Message `i` of a packed sequence sits at offset `i * size`. */
  lemma {:induction false} MessageAt(messages: seq<seq<u8>>, size: nat, i: nat)
    requires AllOfSize(messages, size) && i < |messages|
    ensures i * size + size <= |Flatten(messages)|
    ensures Flatten(messages)[i * size..i * size + size] == messages[i]
  {
    var n := |messages| - 1;
    FlattenLength(messages, size);
    FlattenLength(messages[..n], size);
    if i < n {
      MessageAt(messages[..n], size, i);
      assert Flatten(messages)[..|Flatten(messages[..n])|] == Flatten(messages[..n]);
    } else {
      assert i * size == |Flatten(messages[..n])|;
    }
  }

  // ---------- what the container holds ----------

  datatype Op = AddOp(message: Option<seq<u8>>) | ClearOp

  predicate Accepts(held: seq<seq<u8>>, message: Option<seq<u8>>, capacity: nat) {
    message.Some? && |held| < capacity
  }

  /** The messages held after one operation. */
  function Next(held: seq<seq<u8>>, op: Op, capacity: nat): seq<seq<u8>> {
    match op
    case ClearOp => []
    case AddOp(m) => if Accepts(held, m, capacity) then held + [m.value] else held
  }

  /** The single message that is copied out of the caller's buffer. */
  function OneMessage(buffer: Option<seq<u8>>, size: nat): Option<seq<u8>>
    requires buffer.Some? ==> |buffer.value| >= size
  {
    if buffer.Some? then Some(buffer.value[..size]) else None
  }

  /** After a run: the messages held, and how many adds were refused. */
  function Run(ops: seq<Op>, capacity: nat): (seq<seq<u8>>, nat) {
    if |ops| == 0 then ([], 0)
    else
      var (held, errors) := Run(ops[..|ops| - 1], capacity);
      var op := ops[|ops| - 1];
      (Next(held, op, capacity), if op.AddOp? && !Accepts(held, op.message, capacity) then errors + 1 else errors)
  }

  /** The messages offered since the last clear, null pointers left out. */
  function Offered(ops: seq<Op>): seq<seq<u8>> {
    if |ops| == 0 || ops[|ops| - 1].ClearOp? then []
    else
      var m := ops[|ops| - 1].message;
      Offered(ops[..|ops| - 1]) + if m.Some? then [m.value] else []
  }

  /** After any run the batch holds the first messages offered since the last clear, as many as fit. */
  lemma {:induction false} HoldsFirstOffered(ops: seq<Op>, capacity: nat)
    ensures var offered := Offered(ops);
            Run(ops, capacity).0 == if |offered| <= capacity then offered else offered[..capacity]
  {
    if |ops| > 0 { HoldsFirstOffered(ops[..|ops| - 1], capacity); }
  }

  /**
   The adds that have to fail: null pointers, and messages that come when as many as fit have been
   offered since the last clear.
   */
  function Refusals(ops: seq<Op>, capacity: nat): nat {
    if |ops| == 0 then 0
    else
      var rest, op := ops[..|ops| - 1], ops[|ops| - 1];
      Refusals(rest, capacity)
      + if op.AddOp? && (op.message == None || |Offered(rest)| >= capacity) then 1 else 0
  }

  lemma {:induction false} RefusedAdds(ops: seq<Op>, capacity: nat)
    ensures Run(ops, capacity).1 == Refusals(ops, capacity)
  {
    if |ops| > 0 {
      RefusedAdds(ops[..|ops| - 1], capacity);
      HoldsFirstOffered(ops[..|ops| - 1], capacity);
    }
  }

  // ---------- the container ----------

  lemma OffsetFits(i: nat, n: nat, size: nat)
    requires i < n
    ensures i * size + size == (i + 1) * size <= n * size == size * n
  {
  }

  class MessageBatch {
    const messages: array<u8>
    const messageSize: nat
    const maxMessages: u32
    var messageCount: u32
    var errorCount: u32
    /** The messages added since the last clear. */
    ghost var added: seq<seq<u8>>

    ghost predicate Valid()
      reads this, messages
    {
      && 0 < messageSize && 0 < maxMessages
      && messages.Length == messageSize * maxMessages <= SIZE_MAX
      && messageCount == |added| <= maxMessages
      && AllOfSize(added, messageSize)
      && |Flatten(added)| <= messages.Length
      && messages[..|Flatten(added)|] == Flatten(added)
    }

    constructor (size: nat, capacity: u32)
      requires 0 < size && 0 < capacity && size * capacity <= SIZE_MAX
      ensures Valid() && fresh(messages)
      ensures added == [] && errorCount == 0 && messageSize == size && maxMessages == capacity
    {
      messages := new u8[size * capacity];
      messageSize, maxMessages, messageCount, errorCount := size, capacity, 0, 0;
      added := [];
    }

    /** The memcpy of one message into the allocation. */
    method CopyIn(offset: nat, bytes: seq<u8>)
      requires offset + |bytes| <= messages.Length
      modifies messages
      ensures messages[..offset + |bytes|] == old(messages[..offset]) + bytes
    {
      for i := 0 to |bytes|
        invariant messages[..offset] == old(messages[..offset])
        invariant forall j | 0 <= j < i :: messages[offset + j] == bytes[j]
      {
        messages[offset + i] := bytes[i];
      }
    }

    /** ipc_batch_add_message; the caller's buffer holds at least one message, of which one is copied. */
    method Add(message: Option<seq<u8>>) returns (ok: bool)
      requires Valid() && (message.Some? ==> |message.value| >= messageSize)
      modifies this, messages
      ensures Valid()
      ensures ok == Accepts(old(added), message, maxMessages)
      ensures added == Next(old(added), AddOp(OneMessage(message, messageSize)), maxMessages)
      ensures errorCount == if ok then old(errorCount) else Wrap32(old(errorCount) + 1)
      ensures !ok ==> messages[..] == old(messages[..])
    {
      if message == None {
        errorCount := Wrap32(errorCount + 1);
        return false;
      }
      if messageCount >= maxMessages {
        errorCount := Wrap32(errorCount + 1);
        return false;
      }
      FlattenLength(added, messageSize);
      OffsetFits(messageCount, maxMessages, messageSize);
      var offset := messageCount * messageSize;
      CopyIn(offset, message.value[..messageSize]);
      var copied := added + [message.value[..messageSize]];
      assert copied[..|added|] == added;
      added := copied;
      messageCount := messageCount + 1;
      return true;
    }

    /** ipc_send_batch; `published` is what is handed to the transport, whose answer is `accepts`. */
    method Send(hasPublisher: bool, accepts: bool) returns (ok: bool, published: Option<seq<u8>>)
      requires Valid()
      ensures ok <==> hasPublisher && (added == [] || accepts)
      ensures published == if hasPublisher && added != [] then Some(Flatten(added)) else None
      ensures published.Some? ==> Cut(published.value, messageSize) == added
    {
      if !hasPublisher { return false, None; }
      if messageCount == 0 { return true, None; }
      FlattenLength(added, messageSize);
      OffsetFits(messageCount - 1, maxMessages, messageSize);
      var totalSize := messageCount * messageSize;
      CutFlatten(added, messageSize);
      return accepts, Some(messages[..totalSize]);
    }

    /** ipc_batch_clear */
    method Clear()
      requires Valid()
      modifies `messageCount, `added
      ensures Valid()
      ensures added == Next(old(added), ClearOp, maxMessages)
    {
      messageCount := 0;
      added := [];
    }
  }

  lemma OffsetLe(a: nat, b: nat, n: nat)
    requires a <= b
    ensures a * n <= b * n
  {
  }

  lemma GuardExact(size: nat, n: nat)
    requires n > 0
    ensures size <= SIZE_MAX / n <==> size * n <= SIZE_MAX
  {
    var q := SIZE_MAX / n;
    assert q * n <= SIZE_MAX < q * n + n;
    if size <= q {
      OffsetLe(size, q, n);
    } else {
      OffsetLe(q + 1, size, n);
      assert (q + 1) * n == q * n + n;
    }
  }

  /**
   ipc_create_batch; the two allocations are answered by `structAllocated` and `storageAllocated`.
   The division guard admits exactly the sizes whose product fits in a size_t.
   */
  method Create(messageSize: u64, maxMessages: u32, structAllocated: bool, storageAllocated: bool)
    returns (batch: MessageBatch?)
    ensures batch != null <==>
              messageSize > 0 && maxMessages > 0 && messageSize * maxMessages < 0x1_0000_0000_0000_0000
              && structAllocated && storageAllocated
    ensures batch != null ==> fresh(batch) && batch.Valid() && fresh(batch.messages)
    ensures batch != null ==> batch.messageSize == messageSize && batch.maxMessages == maxMessages
    ensures batch != null ==> batch.added == [] && batch.errorCount == 0
  {
    if messageSize == 0 { return null; }
    if maxMessages == 0 { return null; }
    GuardExact(messageSize, maxMessages);
    if messageSize > SIZE_MAX / maxMessages { return null; }
    if !structAllocated { return null; }
    if !storageAllocated { return null; }
    batch := new MessageBatch(messageSize, maxMessages);
  }
}
