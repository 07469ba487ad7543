/**
 The index arithmetic shared by the three circular buffers of the logging code:
 the queue that a start index and a length carve out of a fixed number of slots.
 */
module Ring {
  lemma NoTurn(x: nat, n: nat)
    requires x < n
    ensures x % n == x
  {
  }

  lemma TurnOver(x: nat, n: nat)
    requires n <= x < 2 * n
    ensures x % n == x - n
  {
  }

  /** The slot `i` places after `read`, for `i` at most one turn. */
  function Slot(read: nat, i: nat, n: nat): (s: nat)
    requires read < n && i <= n
    ensures s < n
    ensures s == (read + i) % n
  {
    if read + i < n then
      NoTurn(read + i, n);
      read + i
    else
      TurnOver(read + i, n);
      read + i - n
  }

  function Window<T>(slots: seq<T>, read: nat, count: nat): (queue: seq<T>)
    requires read < |slots| && count <= |slots|
    ensures |queue| == count
  {
    seq(count, i requires 0 <= i < count => slots[Slot(read, i, |slots|)])
  }

  /** Writing behind the last element appends it. */
  lemma PushWithRoom<T>(slots: seq<T>, read: nat, count: nat, x: T)
    requires read < |slots| && count < |slots|
    ensures Window(slots[Slot(read, count, |slots|) := x], read, count + 1) == Window(slots, read, count) + [x]
  {
  }

  /** Writing over the oldest element of a full ring drops it and appends the new one. */
  lemma PushWhenFull<T>(slots: seq<T>, read: nat, x: T)
    requires read < |slots|
    ensures Window(slots[read := x], Slot(read, 1, |slots|), |slots|) == Window(slots, read, |slots|)[1..] + [x]
  {
  }

  /** Moving the start index on removes the oldest element. */
  lemma Pop<T>(slots: seq<T>, read: nat, count: nat)
    requires read < |slots| && 0 < count <= |slots|
    ensures Window(slots, read, count) == [slots[read]] + Window(slots, Slot(read, 1, |slots|), count - 1)
  {
  }
}
