/**
 What the ring buffer does over whole runs: a queue of the newest 64 entries up to the first put
 whose byte sum needs more than 16 bits, and nothing at all from that put on.
 */
module LogBufferRuns {
  import opened Widths
  import opened Bytes
  import opened LogEntry
  import opened SystemErrors
  import opened LogBuffer
  import opened Ring

  // ---------- the byte sum of a buffer ----------

  function Weight(e: Entry): nat { ByteSum(Encode(e)) }

  function TotalWeight(es: seq<Entry>): nat {
    if |es| == 0 then 0 else TotalWeight(es[..|es| - 1]) + Weight(es[|es| - 1])
  }

  lemma {:induction false} EncodeAllSum(es: seq<Entry>)
    ensures ByteSum(EncodeAll(es)) == TotalWeight(es)
  {
    if |es| > 0 {
      EncodeAllSum(es[..|es| - 1]);
      ByteSumConcat(EncodeAll(es[..|es| - 1]), Encode(es[|es| - 1]));
    }
  }

  lemma {:induction false} TotalWeightUpdate(es: seq<Entry>, k: nat, e: Entry)
    requires k < |es|
    ensures TotalWeight(es[k := e]) == TotalWeight(es) - Weight(es[k]) + Weight(e)
  {
    var last := |es| - 1;
    if k < last {
      TotalWeightUpdate(es[..last], k, e);
      assert es[k := e][..last] == es[..last][k := e];
    } else {
      assert es[k := e][..last] == es[..last];
    }
  }

  lemma SmallLe16(x: u16)
    requires x < 256
    ensures ByteSum(Le16(x)) == x
  {
    assert Le16(x) == [x, 0];
    ByteSumPair(x, 0);
  }

  predicate InRange(s: State) {
    |s.entries| == CAPACITY && s.bufferSize == CAPACITY
    && s.writeIndex < CAPACITY && s.readIndex < CAPACITY && s.entryCount <= CAPACITY
  }

  function FieldSum(s: State): int {
    TotalWeight(s.entries) + s.writeIndex + s.readIndex + s.entryCount + s.bufferSize
  }

  /** As long as the indices fit in a byte, the sum over the memory image can be read off the fields. */
  lemma ImageSum(s: State)
    requires InRange(s)
    ensures ByteSum(Image(s)) == FieldSum(s) < TWO_32
  {
    EncodeAllSum(s.entries);
    SmallLe16(s.writeIndex);
    SmallLe16(s.readIndex);
    SmallLe16(s.entryCount);
    SmallLe16(s.bufferSize);
    var b := EncodeAll(s.entries);
    ByteSumConcat(b, Le16(s.writeIndex));
    ByteSumConcat(b + Le16(s.writeIndex), Le16(s.readIndex));
    ByteSumConcat(b + Le16(s.writeIndex) + Le16(s.readIndex), Le16(s.entryCount));
    ByteSumConcat(b + Le16(s.writeIndex) + Le16(s.readIndex) + Le16(s.entryCount), Le16(s.bufferSize));
    ByteSumBound(Image(s));
  }

  /** Where the four indices lie behind the entries, lowest byte first. */
  lemma IndicesInImage(s: State)
    ensures var b, at := Image(s), 20 * |s.entries|;
            && |b| == at + 8
            && Word16(b, at) == s.writeIndex && Word16(b, at + 2) == s.readIndex
            && Word16(b, at + 4) == s.entryCount && Word16(b, at + 6) == s.bufferSize
  {
    hide EncodeAll;
    var b := Image(s);
    var at := |EncodeAll(s.entries)|;
    assert b[at..at + 2] == Le16(s.writeIndex) && b[at + 2..at + 4] == Le16(s.readIndex);
    assert b[at + 4..at + 6] == Le16(s.entryCount) && b[at + 6..at + 8] == Le16(s.bufferSize);
    Le16Inverse(s.writeIndex, Le16(s.writeIndex));
    Le16Inverse(s.readIndex, Le16(s.readIndex));
    Le16Inverse(s.entryCount, Le16(s.entryCount));
    Le16Inverse(s.bufferSize, Le16(s.bufferSize));
  }

  /**
   What the integrity check finds, on every state: nothing exactly when both indices are in range,
   the stored checksum is the byte sum, and the count is; otherwise a critical error, which
   names the indices exactly when one of them is out of range.
   */
  lemma IntegrityIff(s: State)
    requires |s.entries| == CAPACITY
    ensures Verify(s).code.Ok? <==>
              s.writeIndex < 64 && s.readIndex < 64 && s.stored == ByteSum(Image(s)) && s.entryCount <= 64
    ensures Verify(s).code.IndexOob? <==> s.writeIndex >= 64 || s.readIndex >= 64
    ensures Verify(s).code in {Code.Ok, IndexOob, DataCorrupt}
    ensures IsCritical(Verify(s)) <==> !Verify(s).code.Ok?
  {
    ByteSumBound(Image(s));
  }

  /**
   An operation on any state that fails this check changes nothing and reports what it found, but a
   put looks first at its own index, against the size that the buffer states.
   */
  lemma FailedCheckRefuses(s: State, e: Entry)
    requires |s.entries| == CAPACITY
    ensures s.writeIndex >= s.bufferSize ==> Put(s, e) == (s, SystemError(IndexOob, Safety, Critical))
    ensures s.writeIndex < s.bufferSize && !Verify(s).code.Ok? ==> Put(s, e) == (s, Verify(s))
    ensures !Verify(s).code.Ok? ==> CanGet(s) && Get(s) == (s, Verify(s), None)
  {
    IntegrityIff(s);
  }

  // ---------- one operation ----------

  /** The states in which the buffer works. */
  predicate Sound(s: State) {
    InRange(s)
    && s.writeIndex == Slot(s.readIndex, s.entryCount, CAPACITY)
    && s.stored == FieldSum(s)
  }

  /** The states in which every operation is refused. */
  predicate Poisoned(s: State) {
    InRange(s) && s.stored != FieldSum(s)
  }

  function Contents(s: State): seq<Entry>
    requires InRange(s)
  {
    Window(s.entries, s.readIndex, s.entryCount)
  }

  /** The queue that keeps the newest 64 entries. */
  function Enqueue(q: seq<Entry>, e: Entry): seq<Entry> {
    if |q| < 64 then q + [e] else q[1..] + [e]
  }

  /** What the byte sum of the buffer will be after a put, from the fields before it. */
  function SumAfterPut(s: State, e: Entry): int
    requires InRange(s)
  {
    TotalWeight(s.entries) - Weight(s.entries[s.writeIndex]) + Weight(e)
    + (s.writeIndex + 1) % CAPACITY
    + (if s.entryCount < CAPACITY then s.readIndex + s.entryCount + 1 else (s.readIndex + 1) % CAPACITY + CAPACITY)
    + CAPACITY
  }

  lemma InsertSound(s: State, e: Entry)
    requires Sound(s)
    ensures var t := Insert(s, e);
            && InRange(t)
            && t.writeIndex == Slot(t.readIndex, t.entryCount, CAPACITY)
            && Contents(t) == Enqueue(Contents(s), e)
            && FieldSum(t) == SumAfterPut(s, e)
  {
    hide Weight;
    if s.entryCount < CAPACITY {
      PushWithRoom(s.entries, s.readIndex, s.entryCount, e);
    } else {
      PushWhenFull(s.entries, s.readIndex, e);
    }
    TotalWeightUpdate(s.entries, s.writeIndex, e);
  }

  lemma SoundVerifies(s: State)
    requires Sound(s)
    ensures Verify(s) == OK
  {
    ImageSum(s);
  }

  /** Sealing makes a buffer sound when its sum fits in 16 bits, and spoils it otherwise. */
  lemma SealOutcome(t: State)
    requires InRange(t) && t.writeIndex == Slot(t.readIndex, t.entryCount, CAPACITY)
    ensures Contents(Seal(t)) == Contents(t) && Image(Seal(t)) == Image(t)
    ensures if FieldSum(t) < TWO_16 then Sound(Seal(t)) && Verify(Seal(t)) == OK
            else Poisoned(Seal(t)) && Verify(Seal(t)) == CORRUPT
  {
    ImageSum(t);
  }

  lemma PutSound(s: State, e: Entry)
    requires Sound(s)
    ensures var (t, error) := Put(s, e);
            if SumAfterPut(s, e) < TWO_16 then error == OK && Sound(t) && Contents(t) == Enqueue(Contents(s), e)
            else error == CORRUPT && Poisoned(t)
  {
    SoundVerifies(s);
    InsertSound(s, e);
    SealOutcome(Insert(s, e));
  }

  lemma RemoveSound(s: State)
    requires Sound(s) && s.entryCount > 0
    ensures var t := Remove(s);
            && InRange(t)
            && t.writeIndex == Slot(t.readIndex, t.entryCount, CAPACITY)
            && Contents(s) == [s.entries[s.readIndex]] + Contents(t)
            && FieldSum(t) <= FieldSum(s)
  {
  }

  /** A get never raises the byte sum, so it can never spoil a sound buffer. */
  lemma GetSound(s: State)
    requires Sound(s)
    ensures CanGet(s)
    ensures var (t, error, entry) := Get(s);
            && Sound(t)
            && t.stored <= s.stored
            && if Contents(s) == [] then t == s && error == EMPTY && entry == None
               else error == OK && entry == Some(Contents(s)[0]) && Contents(t) == Contents(s)[1..]
  {
    SoundVerifies(s);
    if s.entryCount > 0 {
      RemoveSound(s);
      SealOutcome(Remove(s));
    }
  }

  lemma PoisonedRefuses(s: State, e: Entry)
    requires Poisoned(s)
    ensures CanGet(s)
    ensures Put(s, e) == (s, CORRUPT)
    ensures Get(s) == (s, CORRUPT, None)
  {
    ImageSum(s);
  }

  lemma AlteredByteCritical(s: State, altered: State, i: nat)
    requires Sound(s) && |altered.entries| == CAPACITY && altered.stored == s.stored
    requires i < |Image(s)| && Image(altered) == Image(s)[i := Image(altered)[i]] && Image(altered) != Image(s)
    ensures IsCritical(Verify(altered))
  {
    var v := Image(altered)[i];
    ImageSum(s);
    ByteSumUpdate(Image(s), i, v);
    ByteSumBound(Image(altered));
    assert Image(s)[i := Image(s)[i]] == Image(s);
    assert altered.stored != ByteSum(Image(altered));
  }

  /**
   One byte of a sound buffer altered behind its back, anywhere in front of the checksum field:
   the next operation reports a critical error and changes nothing.
   */
  lemma AlteredByteRefused(s: State, altered: State, i: nat, e: Entry)
    requires Sound(s) && |altered.entries| == CAPACITY && altered.stored == s.stored
    requires i < |Image(s)| && Image(altered) == Image(s)[i := Image(altered)[i]] && Image(altered) != Image(s)
    ensures CanGet(altered)
    ensures var (t, error) := Put(altered, e); t == altered && IsCritical(error)
    ensures var (t, error, entry) := Get(altered); t == altered && IsCritical(error) && entry == None
  {
    AlteredByteCritical(s, altered, i);
  }

  // ---------- whole runs ----------

  datatype Op = PutOp(entry: Entry) | GetOp

  datatype Outcome = Accepted | Took(entry: Entry) | Nothing | Refused

  /** The buffer's own step; operations on states it cannot reach count as refused. */
  function Step(s: State, op: Op): (r: (State, Outcome))
    requires |s.entries| == CAPACITY
    ensures |r.0.entries| == CAPACITY
  {
    match op
    case PutOp(e) =>
      var (t, error) := Put(s, e);
      (t, if error == OK then Accepted else Refused)
    case GetOp =>
      if !CanGet(s) then (s, Refused)
      else
        var (t, error, entry) := Get(s);
        (t, if error == EMPTY then Nothing else if entry == None then Refused else Took(entry.value))
  }

  function Run(s: State, ops: seq<Op>): (r: (State, seq<Outcome>))
    requires |s.entries| == CAPACITY
    ensures |r.0.entries| == CAPACITY && |r.1| == |ops|
    decreases |ops|
  {
    if |ops| == 0 then (s, [])
    else
      var (t, out) := Step(s, ops[0]);
      var (u, outs) := Run(t, ops[1..]);
      (u, [out] + outs)
  }

  function QueueStep(q: seq<Entry>, op: Op): (seq<Entry>, Outcome) {
    match op
    case PutOp(e) => (Enqueue(q, e), Accepted)
    case GetOp => if q == [] then (q, Nothing) else (q[1..], Took(q[0]))
  }

  /** The same operations on the plain queue. */
  function QueueRun(q: seq<Entry>, ops: seq<Op>): (r: (seq<Entry>, seq<Outcome>))
    ensures |r.1| == |ops|
    decreases |ops|
  {
    if |ops| == 0 then (q, [])
    else
      var (p, out) := QueueStep(q, ops[0]);
      var (u, outs) := QueueRun(p, ops[1..]);
      (u, [out] + outs)
  }

  predicate Spoils(s: State, op: Op)
    requires Sound(s)
  {
    op.PutOp? && SumAfterPut(s, op.entry) >= TWO_16
  }

  /** One step of a sound buffer is a step of the queue, unless it is a put that does not fit. */
  lemma StepSound(s: State, op: Op)
    requires Sound(s)
    ensures var (t, out) := Step(s, op);
            if Spoils(s, op) then Poisoned(t) && out == Refused
            else Sound(t) && (Contents(t), out) == QueueStep(Contents(s), op)
  {
    if op.PutOp? { PutSound(s, op.entry); } else { GetSound(s); }
  }

  /** No put of the run drives the byte sum past 16 bits. */
  predicate Fits(s: State, ops: seq<Op>)
    requires Sound(s)
    decreases |ops|
  {
    |ops| > 0 ==> !Spoils(s, ops[0]) && (StepSound(s, ops[0]); Fits(Step(s, ops[0]).0, ops[1..]))
  }

  lemma StepPoisoned(s: State, op: Op)
    requires Poisoned(s)
    ensures Step(s, op) == (s, Refused)
  {
    PoisonedRefuses(s, if op.PutOp? then op.entry else Zero());
  }

  lemma {:induction false} PoisonedForever(s: State, ops: seq<Op>)
    requires Poisoned(s)
    ensures Run(s, ops).0 == s
    ensures forall i | 0 <= i < |ops| :: Run(s, ops).1[i] == Refused
    decreases |ops|
  {
    if |ops| > 0 {
      StepPoisoned(s, ops[0]);
      PoisonedForever(s, ops[1..]);
    }
  }

  /** Two runs agree on their first `k` outcomes, and the first run refuses everything after them. */
  predicate AgreesThenRefuses(outs: seq<Outcome>, expected: seq<Outcome>, k: nat) {
    |outs| == |expected| && k <= |outs|
    && (forall i | 0 <= i < k :: outs[i] == expected[i])
    && (forall i | k <= i < |outs| :: outs[i] == Refused)
  }

  /**
   From any sound buffer, a run behaves like the queue of the newest 64 entries for its first `k`
   operations and refuses all others; `k` falls short of the whole run exactly when some put
   does not fit, and then operation `k` is that put.
   */
  lemma {:induction false} RunBehaviour(s: State, ops: seq<Op>) returns (k: nat)
    requires Sound(s)
    ensures k <= |ops|
    ensures k == |ops| <==> Fits(s, ops)
    ensures k < |ops| ==> ops[k].PutOp? && Fits(s, ops[..k]) && !Fits(s, ops[..k + 1])
    ensures AgreesThenRefuses(Run(s, ops).1, QueueRun(Contents(s), ops).1, k)
    ensures var t := Run(s, ops).0;
            if k == |ops| then Sound(t) && Contents(t) == QueueRun(Contents(s), ops).0 else Poisoned(t)
    decreases |ops|
  {
    hide Step;
    if |ops| == 0 { return 0; }
    StepSound(s, ops[0]);
    var t := Step(s, ops[0]).0;
    if Spoils(s, ops[0]) {
      PoisonedForever(t, ops[1..]);
      return 0;
    }
    var rest := RunBehaviour(t, ops[1..]);
    k := rest + 1;
    assert ops[..k][1..] == ops[1..][..rest];
    if k < |ops| { assert ops[..k + 1][1..] == ops[1..][..rest + 1]; }
  }

  lemma {:induction false} ZeroWeight(n: nat)
    ensures ByteSum(seq(n, i => 0)) == 0
  {
    if n > 0 {
      ZeroWeight(n - 1);
      assert seq(n, i => 0)[..n - 1] == seq(n - 1, i => 0);
    }
  }

  lemma ZeroEntryWeight()
    ensures Weight(Zero()) == 0
  {
    assert Encode(Zero()) == seq(ENTRY_SIZE, i => 0);
    ZeroWeight(ENTRY_SIZE);
  }

  lemma {:induction false} NoWeight(es: seq<Entry>)
    requires forall e | e in es :: Weight(e) == 0
    ensures TotalWeight(es) == 0
  {
    if |es| > 0 { NoWeight(es[..|es| - 1]); }
  }

  /** A buffer that has taken `k` puts since it was fresh, and no get. */
  predicate Filled(s: State, k: nat) {
    Sound(s) && s.readIndex == 0 && s.entryCount == k
    && (forall i | k <= i < CAPACITY :: s.entries[i] == Zero())
  }

  lemma InitSound()
    ensures Sound(Init()) && Contents(Init()) == []
    ensures Filled(Init(), 0) && FieldSum(Init()) == CAPACITY
  {
    var es := seq(CAPACITY, i => Zero());
    ZeroEntryWeight();
    NoWeight(es);
    var s := State(es, 0, 0, 0, CAPACITY, 0);
    ImageSum(s);
    SealOutcome(s);
  }

  /** The run fits when it starts on a freshly initialised buffer. */
  predicate FitsFresh(ops: seq<Op>) {
    InitSound();
    Fits(Init(), ops)
  }

  // ---------- how soon the 16 bits run out ----------

  /** A put on a sound buffer writes one slot and moves the indices. */
  lemma PutStores(s: State, e: Entry)
    requires Sound(s)
    ensures var t := Put(s, e).0;
            && t.entries == s.entries[s.writeIndex := e]
            && t.writeIndex == (s.writeIndex + 1) % CAPACITY
            && t.readIndex == (if s.entryCount < CAPACITY then s.readIndex else (s.readIndex + 1) % CAPACITY)
            && t.entryCount == if s.entryCount < CAPACITY then s.entryCount + 1 else CAPACITY
  {
    SoundVerifies(s);
  }

  lemma AfterPut(s: State, e: Entry)
    requires Sound(s) && s.entryCount < CAPACITY
    ensures var t := Put(s, e).0;
            && t.entries == s.entries[s.writeIndex := e]
            && t.readIndex == s.readIndex && t.entryCount == s.entryCount + 1
            && TotalWeight(t.entries) == TotalWeight(s.entries) - Weight(s.entries[s.writeIndex]) + Weight(e)
  {
    SoundVerifies(s);
    TotalWeightUpdate(s.entries, s.writeIndex, e);
  }

  lemma OneMorePut(s: State, e: Entry, k: nat)
    requires k < 63 && Filled(s, k)
    ensures SumAfterPut(s, e) == FieldSum(s) + Weight(e) + 2
    ensures SumAfterPut(s, e) < TWO_16 ==> Filled(Put(s, e).0, k + 1) && FieldSum(Put(s, e).0) == SumAfterPut(s, e)
  {
    hide Weight;
    ZeroEntryWeight();
    if SumAfterPut(s, e) < TWO_16 {
      PutSound(s, e);
      AfterPut(s, e);
    }
  }

  lemma {:induction false} RepeatedPuts(e: Entry, k: nat, s: State, n: nat)
    requires Filled(s, k) && 0 < n && k + n <= 63
    ensures Fits(s, seq(n, i => PutOp(e))) <==> FieldSum(s) + n * (Weight(e) + 2) < TWO_16
    decreases n
  {
    hide Weight, Put, FieldSum, SumAfterPut;
    var ops := seq(n, i => PutOp(e));
    var rest := seq(n - 1, i => PutOp(e));
    assert ops[0] == PutOp(e) && ops[1..] == rest;
    var w := Weight(e) + 2;
    assert n * w == (n - 1) * w + w;
    OneMorePut(s, e, k);
    if !Spoils(s, ops[0]) && n > 1 {
      RepeatedPuts(e, k + 1, Put(s, e).0, n - 1);
    }
  }

  /** A full buffer of equal records whose two indices stand at `r`. */
  predicate FullOf(s: State, e: Entry, r: nat) {
    Sound(s) && s.entryCount == CAPACITY && s.readIndex == s.writeIndex == r
    && forall i | 0 <= i < CAPACITY :: s.entries[i] == e
  }

  lemma {:induction false} EqualWeights(es: seq<Entry>, e: Entry)
    requires forall i | 0 <= i < |es| :: es[i] == e
    ensures TotalWeight(es) == |es| * Weight(e)
  {
    if |es| > 0 {
      hide Weight;
      EqualWeights(es[..|es| - 1], e);
      var w := Weight(e);
      assert |es| * w == (|es| - 1) * w + w;
    }
  }

  /** A put on a full buffer of equal records turns the indices by one. */
  lemma TurnFull(s: State, e: Entry, r: nat)
    requires FullOf(s, e, r)
    ensures FieldSum(s) == 64 * Weight(e) + 128 + 2 * r
    ensures SumAfterPut(s, e) == 64 * Weight(e) + 128 + 2 * ((r + 1) % CAPACITY)
    ensures SumAfterPut(s, e) < TWO_16 ==> FullOf(Put(s, e).0, e, (r + 1) % CAPACITY)
  {
    hide Weight, TotalWeight, Image;
    EqualWeights(s.entries, e);
    if SumAfterPut(s, e) < TWO_16 {
      PutSound(s, e);
      PutStores(s, e);
    }
  }

  /** How far the indices get in `n` turns from `r` without starting over. */
  function Highest(r: nat, n: nat): nat
    requires r < CAPACITY
  {
    if r + n < CAPACITY then r + n else CAPACITY - 1
  }

  lemma {:induction false} TurnsOfFull(e: Entry, r: nat, s: State, n: nat)
    requires FullOf(s, e, r)
    ensures Fits(s, seq(n, i => PutOp(e))) <==> 64 * Weight(e) + 128 + 2 * Highest(r, n) < TWO_16
    decreases n
  {
    hide Weight, Put, SumAfterPut, FieldSum;
    TurnFull(s, e, r);
    if n > 0 {
      var ops := seq(n, i => PutOp(e));
      assert ops[0] == PutOp(e) && ops[1..] == seq(n - 1, i => PutOp(e));
      if !Spoils(s, ops[0]) { TurnsOfFull(e, (r + 1) % CAPACITY, Put(s, e).0, n - 1); }
    }
  }

  /** The put that fills the buffer. */
  lemma LastFreeSlot(s: State, e: Entry)
    requires Filled(s, 63) && forall i | 0 <= i < 63 :: s.entries[i] == e
    ensures SumAfterPut(s, e) == 64 * Weight(e) + 128
    ensures SumAfterPut(s, e) < TWO_16 ==> FullOf(Put(s, e).0, e, 0)
  {
    hide Weight, TotalWeight, Image;
    EqualWeights(s.entries[s.writeIndex := e], e);
    TotalWeightUpdate(s.entries, s.writeIndex, e);
    if SumAfterPut(s, e) < TWO_16 {
      PutSound(s, e);
      PutStores(s, e);
    }
  }

  lemma PartBelowFull(k: nat, w: nat)
    requires k < 63
    ensures k * (w + 2) == k * w + 2 * k
    ensures k * (w + 2) + w + 2 <= 63 * (w + 2)
  {
    var v := w + 2;
    assert k * v <= 62 * v by { assert (62 - k) * v >= 0; }
  }

  lemma {:induction false} PartlyEqualWeights(es: seq<Entry>, e: Entry, k: nat)
    requires k <= |es|
    requires (forall i | 0 <= i < k :: es[i] == e) && forall i | k <= i < |es| :: es[i] == Zero()
    ensures TotalWeight(es) == k * Weight(e)
  {
    hide Weight;
    if |es| > k {
      ZeroEntryWeight();
      PartlyEqualWeights(es[..|es| - 1], e, k);
    } else {
      EqualWeights(es, e);
    }
  }

  lemma EqualSoFar(s: State, e: Entry, k: nat)
    requires Filled(s, k) && k < 63 && forall i | 0 <= i < k :: s.entries[i] == e
    ensures FieldSum(s) == k * (Weight(e) + 2) + 64
    ensures FieldSum(s) + Weight(e) + 2 < 64 * Weight(e) + 128 || FieldSum(s) + Weight(e) + 2 < TWO_16
  {
    hide Weight, Image, TotalWeight;
    PartlyEqualWeights(s.entries, e, k);
    PartBelowFull(k, Weight(e));
  }

  /** From `k` equal records in a fresh buffer to `n`, when they fill it. */
  lemma {:induction false} PutsThroughFull(e: Entry, k: nat, s: State, n: nat)
    requires Filled(s, k) && k <= 63 && k + n >= CAPACITY && forall i | 0 <= i < k :: s.entries[i] == e
    ensures Fits(s, seq(n, i => PutOp(e))) <==> 64 * Weight(e) + 128 + 2 * Highest(0, k + n - CAPACITY) < TWO_16
    decreases n
  {
    hide Weight, Put, FieldSum, SumAfterPut;
    var ops := seq(n, i => PutOp(e));
    assert ops[0] == PutOp(e) && ops[1..] == seq(n - 1, i => PutOp(e));
    if k == 63 {
      LastFreeSlot(s, e);
      if !Spoils(s, ops[0]) { TurnsOfFull(e, 0, Put(s, e).0, n - 1); }
    } else {
      OneMorePut(s, e, k);
      PutStores(s, e);
      EqualSoFar(s, e, k);
      if !Spoils(s, ops[0]) { PutsThroughFull(e, k + 1, Put(s, e).0, n - 1); }
    }
  }

  /**
   The fresh buffer takes `n` equal records exactly when their weight leaves room, so the promise
   that an overfull buffer merely overwrites its oldest entry depends on the payload: a record that
   log_create_entry does produce is refused on its nineteenth put. From 64 records on, what counts
   are the indices, which turn until they both show 63.
   */
  lemma RoomForEqualRecords(e: Entry, n: nat)
    ensures FitsFresh(seq(n, i => PutOp(e))) <==>
              (if n < CAPACITY then n * (Weight(e) + 2) + 64 else 64 * Weight(e) + 128 + 2 * Highest(0, n - CAPACITY))
              < TWO_16
  {
    hide Init, Weight, FieldSum;
    InitSound();
    if n >= CAPACITY { PutsThroughFull(e, 0, Init(), n); } else if n > 0 { RepeatedPuts(e, 0, Init(), n); }
  }

  // ---------- a payload that is always safe ----------

  /** All records weigh at most `w`, also those in slots that no longer count. */
  predicate Light(es: seq<Entry>, w: nat) {
    forall i | 0 <= i < |es| :: Weight(es[i]) <= w
  }

  lemma {:induction false} LightTotal(es: seq<Entry>, w: nat)
    requires Light(es, w)
    ensures TotalWeight(es) <= |es| * w
  {
    if |es| > 0 {
      hide Weight;
      LightTotal(es[..|es| - 1], w);
      assert |es| * w == (|es| - 1) * w + w;
    }
  }

  lemma LightStep(s: State, op: Op, w: nat)
    requires Sound(s) && Light(s.entries, w) && (op.PutOp? ==> Weight(op.entry) <= w)
    requires CAPACITY * w + 254 < TWO_16
    ensures !Spoils(s, op) && Light(Step(s, op).0.entries, w)
  {
    hide Weight, TotalWeight, Image;
    if op.PutOp? {
      var after := s.entries[s.writeIndex := op.entry];
      TotalWeightUpdate(s.entries, s.writeIndex, op.entry);
      LightTotal(after, w);
      PutStores(s, op.entry);
    } else {
      GetSound(s);
    }
  }

  /**
   Records of weight at most `w`, with 64 w + 254 < 65536, can be put and taken for ever: no run of
   theirs spoils the buffer.
   */
  lemma {:induction false} LightRunFits(s: State, ops: seq<Op>, w: nat)
    requires Sound(s) && Light(s.entries, w) && CAPACITY * w + 254 < TWO_16
    requires forall i | 0 <= i < |ops| && ops[i].PutOp? :: Weight(ops[i].entry) <= w
    ensures Fits(s, ops)
    decreases |ops|
  {
    if |ops| > 0 {
      hide Weight, Step, Light;
      LightStep(s, ops[0], w);
      StepSound(s, ops[0]);
      LightRunFits(Step(s, ops[0]).0, ops[1..], w);
    }
  }

  lemma FreshLight(s: State, w: nat)
    requires Filled(s, 0)
    ensures Light(s.entries, w)
  {
    hide Weight, FieldSum;
    ZeroEntryWeight();
  }

  lemma LightFromFresh(ops: seq<Op>, w: nat)
    requires CAPACITY * w + 254 < TWO_16
    requires forall i | 0 <= i < |ops| && ops[i].PutOp? :: Weight(ops[i].entry) <= w
    ensures FitsFresh(ops)
  {
    hide Weight, Init, FieldSum, Fits, Sound, Light, Filled;
    InitSound();
    FreshLight(Init(), w);
    LightRunFits(Init(), ops, w);
  }

  lemma FourBytes(b: seq<u8>)
    requires |b| == 4
    ensures ByteSum(b) == (b[0] as int) + (b[1] as int) + (b[2] as int) + (b[3] as int)
  {
    assert b == [b[0], b[1]] + [b[2], b[3]];
    ByteSumConcat([b[0], b[1]], [b[2], b[3]]);
    ByteSumPair(b[0], b[1]);
    ByteSumPair(b[2], b[3]);
  }

  lemma HeavyWeight(e: Entry)
    requires e.timestamp == e.data0 == e.data1 == 0xFFFF_FFFF && e.processId == 0xFFFF
    requires e.level == 3 && e.tagId == 8 && e.messageId == 17 && Intact(e)
    ensures Weight(e) == 3626
  {
    var f := Le32(0xFFFF_FFFF);
    assert f == [255, 255, 255, 255];
    assert Le16(0xFFFF) == [255, 255] && Le16(17) == [17, 0];
    FourBytes(f);
    var p := Payload(e);
    assert p == f + ([255, 255, 3, 8] + [17, 0]) + f + f;
    FourBytes([255, 255, 3, 8]);
    SmallLe16(17);
    ByteSumConcat([255, 255, 3, 8], [17, 0]);
    ByteSumConcat(f, [255, 255, 3, 8] + [17, 0]);
    ByteSumConcat(f + ([255, 255, 3, 8] + [17, 0]), f);
    ByteSumConcat(f + ([255, 255, 3, 8] + [17, 0]) + f, f);
    assert ByteSum(p) == 3598;
    assert Le16(3598) == [14, 14];
    ByteSumPair(14, 14);
    ByteSumConcat(p, [14, 14]);
  }

  lemma HeavyRecordsSpoilTheBuffer() returns (e: Entry)
    ensures Created(3, 8, 17, 0xFFFF_FFFF, 0xFFFF_FFFF, Reply(OK, 0xFFFF), Reply(OK, 0xFFFF_FFFF)).1 == Some(e)
    ensures FitsFresh(seq(18, i => PutOp(e)))
    ensures !FitsFresh(seq(19, i => PutOp(e)))
  {
    e := Created(3, 8, 17, 0xFFFF_FFFF, 0xFFFF_FFFF, Reply(OK, 0xFFFF), Reply(OK, 0xFFFF_FFFF)).1.value;
    var w := ByteSum(Payload(e));
    HeavyWeight(e);
    RoomForEqualRecords(e, 18);
    RoomForEqualRecords(e, 19);
  }
}
