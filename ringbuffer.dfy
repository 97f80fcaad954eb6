/**
  A fixed-capacity FIFO ring buffer over an array of `capacity + 1` slots.
  One slot is always left free so that "empty" (start == end) and "full"
  (advancing end would reach start) can be told apart with two indices and
  no element counter.

  The two indices are plain fields here: the model is sequential, and the
  atomic loads and stores of the Go package only matter for concurrency.
*/
module RingBuffers {

  /** 2^64: the modulus of Go's uint64 arithmetic. */
  const U64: int := 0x1_0000_0000_0000_0000

  newtype u64 = x: int | 0 <= x < 0x1_0000_0000_0000_0000

  /** The two sentinel errors of the package. */
  datatype Error = ErrIsEmpty | ErrIsFull

  /** A Go `error` result: None is `nil`. */
  datatype Option<+T> = None | Some(value: T)

  /** The index after `i` on a ring of `n` slots. */
  function Succ(i: nat, n: nat): nat
    requires i < n
  {
    if i + 1 < n then i + 1 else 0
  }

  /** The live elements of slots `s`: from `a` (inclusive) to `b`
      (exclusive), read circularly. */
  function Live<T>(s: seq<T>, a: nat, b: nat): seq<T>
    requires a < |s| && b < |s|
  {
    if a <= b then s[a..b] else s[a..] + s[..b]
  }

  /** The number of live elements is `(b - a) mod |s|`, so at most `|s| - 1`;
      it is `b - a` exactly when `b` has not wrapped below `a`. */
  lemma LiveLength<T>(s: seq<T>, a: nat, b: nat)
    requires a < |s| && b < |s|
    ensures |Live(s, a, b)| == (b - a) % |s|
    ensures |Live(s, a, b)| < |s|
    ensures a <= b ==> |Live(s, a, b)| == b - a
  {
    if a > b {
      ModShift(b - a, |s|);
    }
  }

  /** Helpers that isolate the facts about `%` that LiveLength and
      IncrementWraps rest on, so that each of those proofs stays small. */

  /** A negative offset above `-n` is its own residue plus `n`. */
  lemma ModShift(d: int, n: int)
    requires 0 < n && -n < d < 0
    ensures d % n == d + n
  {
  }

  /** Go's `(index + 1) % n` on uint64: the result is a slot index, and for
      an index already inside the ring it is the next slot. */
  lemma IncrementWraps(index: int, n: int)
    requires 0 <= index < U64 && 0 < n < U64
    ensures 0 <= ((index + 1) % U64) % n < n
    ensures index < n ==> ((index + 1) % U64) % n == Succ(index, n)
  {
    var next := (index + 1) % U64;
    ModBelow(next, n);
    if index < n {
      ModSmall(index + 1, U64);
      if index + 1 < n {
        ModSmall(next, n);
      } else {
        ModSelf(n);
      }
    }
  }

  /** A non-negative value below the modulus is its own residue. */
  lemma ModSmall(x: int, n: int)
    requires 0 <= x < n
    ensures x % n == x
  {
  }

  lemma ModSelf(n: int)
    requires 0 < n
    ensures n % n == 0
  {
  }

  lemma ModBelow(x: int, n: int)
    requires 0 < n
    ensures 0 <= x % n < n
  {
  }

  /** Empty exactly when the two indices meet. */
  lemma LiveEmpty<T>(s: seq<T>, a: nat, b: nat)
    requires a < |s| && b < |s|
    ensures Live(s, a, b) == [] <==> a == b
  {
  }

  /** Full (|s| - 1 live elements) exactly when advancing `b` reaches `a`. */
  lemma LiveFull<T>(s: seq<T>, a: nat, b: nat)
    requires a < |s| && b < |s|
    ensures |Live(s, a, b)| == |s| - 1 <==> Succ(b, |s|) == a
  {
  }

  /** Writing `x` into slot `b` and advancing `b` appends `x`, as long as the
      buffer was not full. */
  lemma LivePush<T>(s: seq<T>, a: nat, b: nat, x: T)
    requires a < |s| && b < |s|
    requires Succ(b, |s|) != a
    ensures Live(s[b := x], a, Succ(b, |s|)) == Live(s, a, b) + [x]
  {
  }

  /** A non-empty buffer holds `s[a]` first, and advancing `a` drops it. */
  lemma LivePop<T>(s: seq<T>, a: nat, b: nat)
    requires a < |s| && b < |s|
    requires a != b
    ensures Live(s, a, b) != [] && Live(s, a, b)[0] == s[a]
    ensures Live(s, Succ(a, |s|), b) == Live(s, a, b)[1..]
  {
  }

  /** The slots and end index after pushing each of `vs` in turn at `b`,
      every push succeeding. */
  function PushAll<T>(s: seq<T>, b: nat, vs: seq<T>): (r: (seq<T>, nat))
    requires b < |s|
    ensures |r.0| == |s| && r.1 < |s|
    decreases |vs|
  {
    if vs == [] then (s, b) else PushAll(s[b := vs[0]], Succ(b, |s|), vs[1..])
  }

  /** Pushing values that fit appends them, in order, to the live elements. */
  lemma {:induction false} PushAllAppends<T>(s: seq<T>, a: nat, b: nat, vs: seq<T>)
    requires a < |s| && b < |s|
    requires |Live(s, a, b)| + |vs| < |s|
    ensures Live(PushAll(s, b, vs).0, a, PushAll(s, b, vs).1) == Live(s, a, b) + vs
    decreases |vs|
  {
    if vs != [] {
      LiveFull(s, a, b);
      LivePush(s, a, b, vs[0]);
      var s', b' := s[b := vs[0]], Succ(b, |s|);
      PushAllAppends(s', a, b', vs[1..]);
      assert Live(s, a, b) + [vs[0]] + vs[1..] == Live(s, a, b) + vs;
    }
  }

  /** From an empty buffer, pushing as many values as there are usable slots
      leaves the buffer holding exactly those values, and full. */
  lemma FillToCapacity<T>(s: seq<T>, b: nat, vs: seq<T>)
    requires b < |s| && |vs| == |s| - 1
    ensures Live(PushAll(s, b, vs).0, b, PushAll(s, b, vs).1) == vs
    ensures Succ(PushAll(s, b, vs).1, |s|) == b
  {
    LiveEmpty(s, b, b);
    PushAllAppends(s, b, b, vs);
    LiveFull(PushAll(s, b, vs).0, b, PushAll(s, b, vs).1);
  }

  /** The values that popping until empty returns: the slot at `a`, then the
      rest from the next slot on. */
  function PopAll<T>(s: seq<T>, a: nat, b: nat): seq<T>
    requires a < |s| && b < |s|
    decreases if a <= b then b - a else b + |s| - a
  {
    if a == b then [] else [s[a]] + PopAll(s, Succ(a, |s|), b)
  }

  /** Popping until empty returns the live elements in FIFO order, also
      when they wrap past the last slot. */
  lemma {:induction false} PopAllIsLive<T>(s: seq<T>, a: nat, b: nat)
    requires a < |s| && b < |s|
    ensures PopAll(s, a, b) == Live(s, a, b)
    decreases if a <= b then b - a else b + |s| - a
  {
    if a == b {
      LiveEmpty(s, a, b);
    } else {
      LivePop(s, a, b);
      PopAllIsLive(s, Succ(a, |s|), b);
    }
  }

  /** Go's `a - b` on uint64 operands: wraps modulo 2^64. */
  function Sub64(a: u64, b: u64): (r: u64)
    ensures a >= b ==> r as int == a as int - b as int
    ensures a < b ==> r as int == U64 - (b as int - a as int)
  {
    ((a as int - b as int) % U64) as u64
  }

  class RingBuffer<T> {
    /** The number of slots: one more than the usable capacity. */
    const capacity: u64
    /** The slots; always `capacity` of them. */
    const buffer: array<T>
    /** Go's zero value of T: what the slots start as, and what a failed
        read returns. */
    const zero: T
    /** Index of the oldest live element; advanced by the consumer. */
    var start: u64
    /** Index of the next free slot; advanced by the producer. */
    var end: u64

    /** Both indices lie inside the slot array. */
    ghost predicate Valid()
      reads this
    {
      0 < capacity && buffer.Length == capacity as int &&
      start < capacity && end < capacity
    }

    /** The live elements in FIFO order. */
    ghost function Contents(): seq<T>
      reads this, buffer
      requires Valid()
    {
      Live(buffer[..], start as nat, end as nat)
    }

    constructor (capacity: u64, zero: T)
      requires capacity as int < U64 - 1
      ensures Valid() && fresh(buffer)
      ensures this.capacity as int == capacity as int + 1 && this.zero == zero
      ensures start == 0 && end == 0
      ensures forall i :: 0 <= i < buffer.Length ==> buffer[i] == zero
      ensures Contents() == []
      ensures Capacity() == capacity && Size() == 0 && StartIndex() == 0
      ensures IsEmpty()
    {
      this.capacity := capacity + 1;
      this.zero := zero;
      buffer := new T[capacity as int + 1](_ => zero);
      start, end := 0, 0;
    }

    /** Advance an index by one, wrapping at the slot count (uint64: the
        increment itself wraps at 2^64 before the remainder is taken). */
    function IncrementIndex(index: u64): (r: u64)
      requires 0 < capacity
      ensures r < capacity
      ensures index < capacity ==> r as nat == Succ(index as nat, capacity as nat)
    {
      IncrementWraps(index as int, capacity as int);
      (((index as int + 1) % U64) % capacity as int) as u64
    }

    /** Full: no free slot except the sacrificed one. */
    function IsFull(): (r: bool)
      reads this, buffer
      requires Valid()
      ensures r <==> |Contents()| == Capacity() as int
    {
      LiveFull(buffer[..], start as nat, end as nat);
      IncrementIndex(end) == start
    }

    /** Empty: the indices meet. */
    function IsEmpty(): (r: bool)
      reads this, buffer
      requires Valid()
      ensures r <==> Contents() == []
    {
      LiveEmpty(buffer[..], start as nat, end as nat);
      start == end
    }

    /** The usable capacity: one less than the slot count, and never
        exceeded by the number of live elements. */
    function Capacity(): (r: u64)
      reads this, buffer
      requires Valid()
      ensures r as int == buffer.Length - 1
      ensures |Contents()| <= r as int
    {
      LiveLength(buffer[..], start as nat, end as nat);
      capacity - 1
    }

    /** The raw uint64 difference `end - start`. It is the number of live
        elements only while `end` has not wrapped below `start`; otherwise it
        is that number minus the slot count, taken modulo 2^64. */
    function Size(): (r: u64)
      reads this, buffer
      requires Valid()
      ensures end >= start ==> r as int == |Contents()|
      ensures end < start ==> r as int == U64 + |Contents()| - capacity as int
    {
      LiveLength(buffer[..], start as nat, end as nat);
      Sub64(end, start)
    }

    /** The number of live elements, always. */
    function Count(): (r: u64)
      reads this, buffer
      requires Valid()
      ensures r as int == |Contents()|
      ensures r <= Capacity()
    {
      LiveLength(buffer[..], start as nat, end as nat);
      if end >= start then end - start else capacity - start + end
    }

    /** The raw head index. */
    function StartIndex(): (r: u64)
      reads this
      requires Valid()
      ensures r as int < buffer.Length
    {
      start
    }

    /** The oldest element without removing it, or the zero value and
        ErrIsEmpty. */
    function PeekFront(): (r: (T, Option<Error>))
      reads this, buffer
      requires Valid()
      ensures Contents() == [] ==> r == (zero, Some(ErrIsEmpty))
      ensures Contents() != [] ==> r == (Contents()[0], None)
    {
      LiveEmpty(buffer[..], start as nat, end as nat);
      if start == end then
        (zero, Some(ErrIsEmpty))
      else
        LivePop(buffer[..], start as nat, end as nat);
        (buffer[start], None)
    }

    /** Append `value`, or fail with ErrIsFull and change nothing. */
    method PushBack(value: T) returns (err: Option<Error>)
      requires Valid()
      modifies this`end, buffer
      ensures Valid()
      ensures err == None || err == Some(ErrIsFull)
      ensures err == Some(ErrIsFull) <==> IncrementIndex(old(end)) == start
      ensures err == Some(ErrIsFull) <==> |old(Contents())| == Capacity() as int
      ensures err.Some? ==> end == old(end) && buffer[..] == old(buffer[..])
      ensures err.None? ==> end == IncrementIndex(old(end))
      ensures err.None? ==> buffer[..] == old(buffer[..])[old(end) as int := value]
      ensures Contents() == if err.None? then old(Contents()) + [value] else old(Contents())
    {
      var currEnd := end;
      var newEnd := IncrementIndex(currEnd);
      LiveFull(buffer[..], start as nat, currEnd as nat);
      if newEnd == start {
        return Some(ErrIsFull);
      }
      ghost var before := buffer[..];
      buffer[currEnd] := value;
      end := newEnd;
      assert buffer[..] == before[currEnd as int := value];
      LivePush(before, start as nat, currEnd as nat, value);
      return None;
    }

    /** Remove and return the oldest element, or return the zero value with
        ErrIsEmpty and change nothing. */
    method PopFront() returns (value: T, err: Option<Error>)
      requires Valid()
      modifies this`start
      ensures Valid()
      ensures (value, err) == old(PeekFront())
      ensures err == Some(ErrIsEmpty) <==> old(start) == end
      ensures err.Some? ==> start == old(start)
      ensures err.None? ==> value == buffer[old(start)] && start == IncrementIndex(old(start))
      ensures Contents() == if err.None? then old(Contents())[1..] else old(Contents())
    {
      var currStart := start;
      LiveEmpty(buffer[..], currStart as nat, end as nat);
      if currStart == end {
        return zero, Some(ErrIsEmpty);
      }
      LivePop(buffer[..], currStart as nat, end as nat);
      value := buffer[currStart];
      start := IncrementIndex(currStart);
      return value, None;
    }
  }
}
