/**
  Python's `collections.deque(maxlen = capacity)` restricted to what the
  trackers use: `append`, `popleft`, `len` and `[0]`. It is kept as a ring
  buffer over a fixed array; `Contents` is its abstract value, oldest first.
*/
module BoundedDeque {
  import opened SlidingWindow

  class TimestampDeque {
    ghost var Contents: seq<real>
    const capacity: nat
    const data: array<real>
    var start: nat
    var len: nat

    /** The array index of the `i`-th element, counting from the oldest. */
    function Slot(i: nat): int
      reads this
    {
      if start + i < capacity then start + i else start + i - capacity
    }

    ghost predicate Valid()
      reads this, data
    {
      && data.Length == capacity
      && len <= capacity
      && (capacity == 0 ==> start == 0)
      && (capacity > 0 ==> start < capacity)
      && |Contents| == len
      && forall i :: 0 <= i < len ==> 0 <= Slot(i) < capacity && Contents[i] == data[Slot(i)]
    }

    /** `deque(maxlen = capacity)`: an empty buffer. */
    constructor (capacity: nat)
      ensures Valid() && fresh(data)
      ensures this.capacity == capacity && Contents == []
    {
      this.capacity := capacity;
      data := new real[capacity];
      start, len := 0, 0;
      Contents := [];
    }

    /** `len(deque)` */
    function Size(): (n: nat)
      reads this, data
      requires Valid()
      ensures n == |Contents| && n <= capacity
    {
      len
    }

    /** `deque[0]`, the oldest timestamp */
    function Front(): (x: real)
      reads this, data
      requires Valid() && |Contents| > 0
      ensures x == Contents[0]
    {
      data[start]
    }

    /**
      `deque.append(x)`: on a full buffer the oldest slot is overwritten and
      the start moves on, which drops the oldest timestamp.
    */
    method Append(x: real)
      requires Valid()
      modifies this, data
      ensures Valid()
      ensures Contents == Push(old(Contents), capacity, x)
    {
      if capacity == 0 {
        // `deque(maxlen=0)` discards every item it is given
        return;
      }
      if len < capacity {
        data[Slot(len)] := x;
        len := len + 1;
        Contents := Contents + [x];
      } else {
        data[start] := x;
        start := if start + 1 == capacity then 0 else start + 1;
        Contents := Contents[1..] + [x];
      }
    }

    /** `deque.popleft()` on a non-empty buffer. */
    method PopLeft() returns (x: real)
      requires Valid() && |Contents| > 0
      modifies this
      ensures Valid()
      ensures x == old(Contents)[0] && Contents == old(Contents)[1..]
    {
      x := data[start];
      start := if start + 1 == capacity then 0 else start + 1;
      len := len - 1;
      Contents := Contents[1..];
    }
  }
}
