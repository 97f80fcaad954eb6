# Ring buffer model

A Dafny model of `atomicringbuffer`, a generic fixed-capacity FIFO ring
buffer written in Go for one producer and one consumer. The buffer owns an
array of `capacity + 1` slots and two indices: `start`, the oldest live
element, and `end`, the next free slot. One slot always stays free. That lets
the buffer tell "empty" (`start == end`) from "full" (advancing `end` would
reach `start`) with no element counter.

Files:

- `ringbuffer.dfy`, module `RingBuffers`:
  - the class `RingBuffer<T>`, with Go's uint64 arithmetic written out over a `u64` newtype;
  - the two error values `ErrIsEmpty` and `ErrIsFull`;
  - the pure function `Live(s, a, b)`. It reads the slots `s` circularly from `a` up to `b`, and the ghost function `Contents()` uses it to give the live elements in FIFO order;
  - the lemmas about `Live` that the operations' contracts rest on;
  - two recursive reference definitions, `PushAll` (a run of successful pushes) and `PopAll` (popping until empty), each with an induction lemma that ties it to `Live`. They describe repeated push and pop on slot sequences, independently of the class.
- `scenarios.dfy`, module `RingBufferScenarios`: client code that drives the class through its operations. `NewBufferScenario`, `EnqueueScenario`, `DequeueScenario`, `EnqueueDequeueCycleScenario`, `EmptyAndFullScenario` and `PeekFrontScenario` replay the package's unit tests in ringbuffer_test.go. Four more client scenarios have no counterpart there:
  - `ZeroCapacityScenario`: capacity 0, where every push is refused;
  - `WraparoundScenario`: ten push/pop pairs on capacity 3;
  - `FillToCapacityScenario`: fills a fresh buffer of any capacity and checks that the next push is refused;
  - `DrainScenario`: pops any buffer empty, checks FIFO order, and ties the result to `PopAll` through `PopAllIsLive`.

The model is sequential. The indices are plain fields. `PushBack` may change
only `end` and the slots, and `PopFront` may change only `start`. This is the
producer/consumer ownership of the Go package, stated as frames.

`Size()` is named as the element count, and ringbuffer_test.go:31 asserts
`Size() == 3` after three pushes. The code returns the raw uint64 difference
`end - start`. The model follows the code; see "## Findings".

## Model

| member | source | states |
|---|---|---|
| `RingBuffers.RingBuffer.constructor` | ringbuffer.go:15-20 | needs capacity + 1 to fit in uint64; afterwards there are capacity + 1 slots, all holding the zero value, start = end = 0, the contents are empty, Capacity() is the requested capacity, Size() is 0 and StartIndex() is 0 |
| `RingBuffers.RingBuffer.IncrementIndex` | ringbuffer.go:44-46 | for any uint64 index, the result is a slot index (below the slot count); for an index inside the ring, it is the next slot, wrapping to 0 after the last one |
| `RingBuffers.IncrementWraps` | ringbuffer.go:44-46 | `(index + 1) % n`, with the increment wrapping at 2^64, lies in [0, n) and equals the circular successor for index < n |
| `RingBuffers.RingBuffer.IsFull` | ringbuffer.go:22-24 | true exactly when the number of live elements equals Capacity() |
| `RingBuffers.RingBuffer.IsEmpty` | ringbuffer.go:26-28 | true exactly when there are no live elements |
| `RingBuffers.RingBuffer.Capacity` | ringbuffer.go:30-32 | is the slot count minus one, and the number of live elements never exceeds it |
| `RingBuffers.RingBuffer.Size` | ringbuffer.go:34-36 | equals the number of live elements when end >= start; when end < start it is 2^64 + live count - slot count (the uint64 underflow), never the count |
| `RingBuffers.Sub64` | ringbuffer.go:35 | Go's uint64 `a - b`: the true difference when a >= b, and 2^64 minus the distance otherwise |
| `RingBuffers.RingBuffer.Count` | ringbuffer.go:34-36 | the corrected size: always the number of live elements, and at most Capacity() |
| `RingBuffers.RingBuffer.StartIndex` | ringbuffer.go:38-40 | returns a slot index, in [0, Capacity()] |
| `RingBuffers.RingBuffer.PushBack` | ringbuffer.go:48-60 | fails with ErrIsFull exactly when incrementing end would reach start, which is exactly when the live count is Capacity(); then nothing changes. Otherwise the value is written at the old end, only that slot changes, end advances by one slot, start stays, and the contents become old contents + [value] |
| `RingBuffers.RingBuffer.PopFront` | ringbuffer.go:62-73 | returns what PeekFront returned before the call; fails with ErrIsEmpty and the zero value exactly when start = end, and then nothing changes. Otherwise returns the slot at start, which is the head of the contents; start advances by one slot, end and the slots stay, and the contents become their tail |
| `RingBuffers.RingBuffer.PeekFront` | ringbuffer.go:75-85 | on empty contents returns the zero value with ErrIsEmpty; otherwise returns the head of the contents and no error; reads only, changes nothing |
| `RingBuffers.LiveLength` | ringbuffer.go:34-36 | the number of live elements is (end - start) mod slot count, below the slot count, and equal to end - start when end >= start |
| `RingBuffers.LiveEmpty` | ringbuffer.go:26-28 | the circular range is empty if and only if start = end |
| `RingBuffers.LiveFull` | ringbuffer.go:22-24 | the circular range holds slot count - 1 elements if and only if the successor of end is start |
| `RingBuffers.LivePush` | ringbuffer.go:56-57 | when not full, writing x at end and advancing end appends x to the live elements |
| `RingBuffers.LivePop` | ringbuffer.go:69-70 | when not empty, the slot at start is the first live element, and advancing start leaves exactly the remaining ones, also across the wrap from the last slot to slot 0 |
| `RingBuffers.PushAll` | ringbuffer.go:48-60 | a run of successful pushes keeps the slot count and leaves end a slot index |
| `RingBuffers.PushAllAppends` | ringbuffer_test.go:21-35 | pushing values that fit appends them, in order, to the live elements |
| `RingBuffers.FillToCapacity` | ringbuffer_test.go:21-35 | from empty, Capacity() pushes leave exactly those values live and the buffer full, so the next push is refused |
| `RingBuffers.PopAllIsLive` | ringbuffer.go:69-70 | `PopAll`, the values that repeated pops return (the slot at start, then start advanced), equals the live elements in FIFO order, also across the wrap past the last slot |

## Findings

| source | as written | input that shows it | evidently intended | confidence | as-written member | corrected member |
|---|---|---|---|---|---|---|
| ringbuffer.go:34-36 | `Size()` returns the uint64 difference `end - start`; since both indices are kept modulo the slot count, `end` wraps below `start` | capacity 2: push 5, push 10, pop, push 15 leaves start = 1, end = 0 and two live elements, yet Size() is 2^64 - 1 | the number of live elements, (end - start) mod (capacity + 1): the name says it is the element count, and ringbuffer_test.go:31 expects 3 after three pushes | high; not executed | `RingBuffers.RingBuffer.Size` (shown by `RingBufferScenarios.EnqueueDequeueCycleScenario`) | `RingBuffers.RingBuffer.Count` |

`RingBuffers.RingBuffer.Size` keeps the code as written. Its second
postcondition gives the wrapped value in general.

## Left out

- Atomic loads and stores of `start` and `end`, their release/acquire ordering, and the one-producer/one-consumer concurrency contract: the model is sequential and the indices are plain fields.
- The `fmt.Println(r.buffer)` in `PopFront`: debug output with no effect on the buffer's state.
- Go's zero value of `T`: Dafny has no zero value for an arbitrary type. The constructor takes it as a second argument. The model uses it to fill the slots and as the value that failed reads return.
- `NewRingBuffer` with capacity 2^64 - 1: `capacity + 1` overflows uint64 and the slot count becomes 0. The constructor's precondition excludes this one case.
- `RingBuffers.RingBuffer.constructor` assumes that allocating the slot array succeeds. Go's `make([]T, capacity+1)` at ringbuffer.go:18 panics when `capacity + 1` does not fit in `int` (from 2^63 on a 64-bit platform). It also panics when `(capacity + 1)` times the size of `T` passes the runtime's allocation limit. The model returns a working buffer for every capacity below 2^64 - 1, so it does not model these panics.
- The message strings of `ErrIsEmpty` and `ErrIsFull` ("buffer is empty", "buffer is full" in error.go): only the two error identities are modelled.
- The concurrent stress test in ringbuffer_test.go, the example producer/consumer program in example/spsc/main.go and the benchmarks in ringbuffer_bench_test.go: they use goroutines, timing, randomness and printing and add no buffer behaviour.
