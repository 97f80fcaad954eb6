/**
  Client programs that drive the ring buffer through its operations:
  the scenarios of the package's unit tests, replayed as verified code, and
  four further scenarios (capacity 0, repeated wrap-around, filling a buffer
  of any capacity, draining any buffer).
*/
module RingBufferScenarios {
  import opened RingBuffers

  /** A fresh buffer reports its requested capacity, size 0 and head 0. */
  method NewBufferScenario() {
    var rb := new RingBuffer<int>(5, 0);
    assert rb.Capacity() == 5;
    assert rb.Size() == 0;
    assert rb.StartIndex() == 0;
  }

  /** Three pushes fill a buffer of capacity 3; the fourth is refused. */
  method EnqueueScenario() {
    var rb := new RingBuffer<int>(3, 0);
    var e1 := rb.PushBack(1);
    var e2 := rb.PushBack(2);
    var e3 := rb.PushBack(3);
    assert e1 == None && e2 == None && e3 == None;
    assert rb.Contents() == [1, 2, 3];
    assert rb.IsFull();
    assert rb.Size() == 3;
    var e4 := rb.PushBack(4);
    assert e4 == Some(ErrIsFull);
    assert rb.Contents() == [1, 2, 3];
  }

  /** For any capacity: Capacity() successful pushes into a fresh buffer
      leave exactly those values live and the buffer full, and the next push
      is refused. */
  method FillToCapacityScenario(capacity: u64, vs: seq<int>)
    requires capacity as int < U64 - 1 && |vs| == capacity as int
  {
    var rb := new RingBuffer<int>(capacity, 0);
    var k := 0;
    while k < |vs|
      invariant 0 <= k <= |vs|
      invariant rb.Valid() && rb.buffer.Length == |vs| + 1
      invariant rb.Contents() == vs[..k]
    {
      var e := rb.PushBack(vs[k]);
      assert vs[..k + 1] == vs[..k] + [vs[k]];
      k := k + 1;
    }
    assert vs[..k] == vs;
    assert rb.IsFull();
    var e := rb.PushBack(0);
    assert e == Some(ErrIsFull);
    assert rb.Contents() == vs;
  }

  /** For any buffer: popping until empty returns the live elements in the
      order they were pushed, which are the values `PopAll` reads off the
      slots. */
  method DrainScenario(rb: RingBuffer<int>)
    requires rb.Valid()
    modifies rb
  {
    ghost var live := rb.Contents();
    PopAllIsLive(rb.buffer[..], rb.start as nat, rb.end as nat);
    assert live == PopAll(rb.buffer[..], rb.start as nat, rb.end as nat);
    ghost var k := 0;
    while !rb.IsEmpty()
      invariant 0 <= k <= |live|
      invariant rb.Valid() && rb.Contents() == live[k..]
      decreases |live| - k
    {
      var v, err := rb.PopFront();
      assert err == None && v == live[k];
      k := k + 1;
    }
    assert rb.IsEmpty();
    var v, err := rb.PopFront();
    assert err == Some(ErrIsEmpty);
  }

  /** Popping an empty buffer fails; pushed values come out in order. */
  method DequeueScenario() {
    var rb := new RingBuffer<string>(3, "");
    var v, err := rb.PopFront();
    assert err == Some(ErrIsEmpty) && v == "";
    var e1 := rb.PushBack("10");
    var e2 := rb.PushBack("20");
    assert rb.Contents() == ["10", "20"];
    v, err := rb.PopFront();
    assert err == None && v == "10";
    v, err := rb.PopFront();
    assert err == None && v == "20";
    assert rb.IsEmpty();
  }

  /** Fill, drain one, refill across the end of the slot array, drain all.
      After the refill `end` has wrapped to 0 below `start` = 1, and Size
      reports 2^64 - 1 although two elements are live. */
  method EnqueueDequeueCycleScenario() {
    var rb := new RingBuffer<int>(2, 0);
    var e1 := rb.PushBack(5);
    var e2 := rb.PushBack(10);
    assert rb.IsFull();
    var v, err := rb.PopFront();
    assert err == None && v == 5;
    var e3 := rb.PushBack(15);
    assert e3 == None;
    assert rb.Contents() == [10, 15];
    assert rb.start == 1 && rb.end == 0;
    assert rb.Size() as int == U64 - 1;
    assert rb.Count() == 2;
    v, err := rb.PopFront();
    assert err == None && v == 10;
    var peeked := rb.PeekFront();
    assert peeked == (15, None);
    v, err := rb.PopFront();
    assert err == None && v == 15;
    assert rb.IsEmpty();
  }

  /** IsEmpty and IsFull follow pushes and pops. */
  method EmptyAndFullScenario() {
    var rb := new RingBuffer<int>(2, 0);
    assert rb.IsEmpty() && !rb.IsFull();
    var e1 := rb.PushBack(1);
    assert !rb.IsEmpty();
    var v, err := rb.PopFront();
    assert rb.IsEmpty();
    e1 := rb.PushBack(1);
    var e2 := rb.PushBack(2);
    assert rb.IsFull();
  }

  /** Peeking an empty buffer fails; peeking a non-empty one shows the head
      and changes nothing, so a second peek and the next pop agree. */
  method PeekFrontScenario() {
    var rb := new RingBuffer<int>(3, 0);
    var p := rb.PeekFront();
    assert p == (0, Some(ErrIsEmpty));
    var e1 := rb.PushBack(1);
    var e2 := rb.PushBack(2);
    p := rb.PeekFront();
    assert p == (1, None);
    assert rb.PeekFront() == p;
    var v, err := rb.PopFront();
    assert (v, err) == p;
  }

  /** Capacity 0: one slot, always empty, and every push is refused. */
  method ZeroCapacityScenario() {
    var rb := new RingBuffer<int>(0, 0);
    assert rb.IsEmpty() && rb.IsFull();
    var e := rb.PushBack(7);
    assert e == Some(ErrIsFull);
    var v, err := rb.PopFront();
    assert err == Some(ErrIsEmpty);
  }

  /** Ten push/pop pairs on a buffer of capacity 3 (four slots) wrap both
      indices several times; each pop returns the value just pushed. */
  method WraparoundScenario() {
    var rb := new RingBuffer<int>(3, 0);
    var k := 0;
    while k < 10
      invariant rb.Valid() && rb.Contents() == []
    {
      var e := rb.PushBack(k);
      assert e == None;
      var v, err := rb.PopFront();
      assert err == None && v == k;
      k := k + 1;
    }
  }
}
