# circular_buffer in Dafny

A model of `circular_buffer<elem_type, Size>` (circular_buffer.hpp). It is a
fixed-capacity ring buffer: `Size` slots, a write index `m_head`, a read index
`m_tail` and a population `m_elements_count`. `put` never fails. When the
buffer is full, `put` drops the oldest unread element before writing.
`try_get` and `get` remove elements in FIFO order.

The model has four modules, plus `Wrappers` (wrappers.dfy), which holds the
`Option` type that stands for the source's possibly-empty `shared_ptr`:

- `CircularBuffer` (circular_buffer.dfy) is the sequential core as pure
  functions over `Buffer<T>(mem, head, tail, count)`, where `Size` is `|mem|`.
  - `Valid` is the representation invariant.
  - `Contents` reads the abstract queue off the slots: element `i` is slot
    `(tail + i) % Size`.
  - Every operation's contract is stated over that queue.
  - `Slot` is the wrap-once form of `% Size` used inside the proofs;
    `SlotIsMod` and `ValidIsModular` connect it to the source's `%`.
- `Scenarios` (scenarios.dfy) covers whole runs:
  - `PutAll` is a sequence of `put`s. Its reference model is `KeepLast`, the
    newest `Size` elements in put order.
  - `DrainAll` calls `try_get` until it fails.
  - The lemmas state the FIFO, overwrite, capacity-one and copy properties
    that the sequential tests exercise.
- `Refinement` (refinement.dfy) compares the buffer with an independent
  specification: an abstract bounded queue where appending to a full queue
  first drops its front (`SpecStep`). Consider any interleaving of `put`, both
  `try_get` overloads, both `get` overloads, `empty`, `full` and `size` calls
  (`Run` / `SpecRun`). For each, the buffer returns the same answers and ends
  with the same queue.
- `BufferObject` (buffer_object.dfy) is the imperative shape of the class.
  `RingBuffer<T>` holds a fixed `array<T>`, the three indices and a ghost
  `contents` queue. Each method does the source's field updates, and its
  contract is the matching step of the pure model.

The blocking `get` overloads are modelled sequentially. No other thread can
`put` while the caller waits, so `wait_for` with predicate
`m_elements_count > 0` succeeds exactly when that predicate already holds
(`WaitFor`). After that, `get` does the same read-and-advance as `try_get`.

## Model

| member | source | states |
|---|---|---|
| CircularBuffer.ValidIsModular | circular_buffer.hpp:119-122 | the invariant every operation keeps is, in the source's terms: `Size > 0`, `head < Size`, `tail < Size`, `count <= Size`, `head == (tail + count) % Size` |
| CircularBuffer.ContentsAt | circular_buffer.hpp:56-57 | element `i` of the abstract queue is the slot `(tail + i) % Size`, so the front is `m_mem[m_tail]` |
| CircularBuffer.New | circular_buffer.hpp:11-14 | a new buffer with `Size > 0` slots is valid and its queue is empty |
| CircularBuffer.Copy | circular_buffer.hpp:15-22 | a copy is valid and has the same capacity and the same queue; it is full, empty and of the same size exactly when the source is |
| CircularBuffer.Put | circular_buffer.hpp:25-34 | keeps the invariant; not full: the item is appended and size grows by one; full: exactly the oldest element is dropped, the item is appended and the buffer stays full; in both cases the queue is the newest `Size` of old queue plus item |
| CircularBuffer.AdjustTail | circular_buffer.hpp:108-115 | keeps the invariant, slots and write index; on an empty buffer changes nothing, otherwise removes exactly the front of the queue and shrinks size by one |
| CircularBuffer.Front | circular_buffer.hpp:56 | the slot at the read index is the front of the queue |
| CircularBuffer.TryGet | circular_buffer.hpp:76-85 | nothing is returned iff the queue is empty, and then the state is unchanged; otherwise the front is returned and removed while the rest keep their order |
| CircularBuffer.TryGetInto | circular_buffer.hpp:50-59 | succeeds iff the queue is non-empty; on failure state and the caller's variable are unchanged; on success the variable gets the front, which is removed |
| CircularBuffer.WaitFor | circular_buffer.hpp:40 | the wait predicate `m_elements_count > 0`, which in a sequential setting decides the wait: true iff the queue is non-empty |
| CircularBuffer.Get | circular_buffer.hpp:62-73 | in a sequential setting: nothing iff the queue is empty (state unchanged), otherwise the front, removed |
| CircularBuffer.GetInto | circular_buffer.hpp:37-47 | in a sequential setting: the flag form of `Get`, the caller's variable unchanged on failure |
| CircularBuffer.IsEmpty | circular_buffer.hpp:87-91 | true iff the abstract queue is empty |
| CircularBuffer.IsFull | circular_buffer.hpp:93-97 | true iff the queue holds `Size` elements |
| CircularBuffer.Size | circular_buffer.hpp:99-103 | the length of the queue, at most `Size` |
| Scenarios.PutAll | circular_buffer_tests.cpp:29-51 | after a run of puts the queue is the newest `Size` elements of old queue followed by the items, in put order |
| Scenarios.DrainAll | circular_buffer_tests.cpp:53-65 | repeated `try_get` yields the whole queue in order and leaves the buffer empty |
| Scenarios.FifoWithoutOverwrite | circular_buffer_tests.cpp:115-126 | with at most `Size` puts into a new buffer, draining returns exactly the items put, in order |
| Scenarios.OverwriteKeepsNewest | circular_buffer_tests.cpp:80-98 | after `Size + k` puts into a new buffer it is full, and draining yields exactly the last `Size` items in put order and leaves it empty |
| Scenarios.FullStaysFull | circular_buffer_tests.cpp:44-51 | once full, any further puts leave the buffer full |
| Scenarios.PutThenGet | circular_buffer_tests.cpp:21-27 | on an empty buffer `get(elem_type &)` after `put` succeeds with the item put and leaves the buffer empty |
| Scenarios.CapacityOneKeepsLast | circular_buffer_tests.cpp:100-113 | with `Size == 1`, after any non-empty run of puts `get` returns only the most recent item and leaves the buffer empty |
| Scenarios.CopyDrainsAlike | circular_buffer_tests.cpp:128-139 | a copy drains in the same order as its source and is full iff the source is |
| Scenarios.RunT1 | circular_buffer_tests.cpp:29-66 | test `t1`: full from the fifth of seven puts into five slots; draining yields 3, 4, 5, 6, 7 |
| Scenarios.RunT4 | circular_buffer_tests.cpp:100-113 | test `t4`: one slot; one put makes it full, `get` yields 1 and it is no longer full; then puts 2, 3, 4 and `get` yields 4 |
| Refinement.StepRefines | circular_buffer.hpp:25-103 | every single call (`put`, both `try_get` and both `get` overloads, `empty`, `full`, `size`) answers as the abstract bounded queue does and leaves the buffer holding that queue's next state |
| Refinement.RunRefines | circular_buffer.hpp:25-103 | for any sequence of calls, the buffer's answers equal the abstract queue's and the final queues agree |
| Refinement.FreshRunRefines | circular_buffer.hpp:11-103 | a newly constructed buffer answers every sequence of calls as the empty abstract queue of capacity `Size` does, and ends holding the same queue |
| BufferObject.RingBuffer.Init | circular_buffer.hpp:11-14 | the default constructor allocates `Size` value-initialised slots; the buffer is valid and its ghost queue is empty |
| BufferObject.RingBuffer.Copy | circular_buffer.hpp:15-22 | the copy constructor allocates a fresh array holding the same slots and the same indices, so the copy holds the same queue and is independent of its source |
| BufferObject.RingBuffer.Put | circular_buffer.hpp:25-34 | the in-place `put` keeps the invariant, performs the pure model's `Put`, and the ghost queue becomes the newest `Size` of old queue plus item |
| BufferObject.RingBuffer.AdjustTail | circular_buffer.hpp:108-115 | the in-place `adjust_tail` drops the front of the ghost queue, if any |
| BufferObject.RingBuffer.TryGet | circular_buffer.hpp:76-85 | the in-place `try_get()`: nothing from an empty queue, otherwise its front, removed |
| BufferObject.RingBuffer.TryGetInto | circular_buffer.hpp:50-59 | the in-place `try_get(elem_type &)`: succeeds iff the queue is non-empty, the variable unchanged on failure |
| BufferObject.RingBuffer.Get | circular_buffer.hpp:62-73 | the in-place `get()` in a sequential setting, with the outcome of `TryGet` |
| BufferObject.RingBuffer.GetInto | circular_buffer.hpp:37-47 | the in-place `get(elem_type &)` in a sequential setting |
| BufferObject.RingBuffer.IsEmpty | circular_buffer.hpp:87-91 | true iff the ghost queue is empty, with no change of state |
| BufferObject.RingBuffer.IsFull | circular_buffer.hpp:93-97 | true iff the ghost queue holds `Size` elements |
| BufferObject.RingBuffer.Size | circular_buffer.hpp:99-103 | the length of the ghost queue, at most `Size` |
| BufferObject.CopyingScenario | circular_buffer_tests.cpp:128-139 | test `copying`: the copy of a full buffer holding 1, 3, 5 is full and its first `get` yields 1, and the source is still full afterwards |

## Left out

- `std::mutex`, `std::condition_variable` and `notify_one` are left out. Every operation is one atomic step, as it is under the lock, so the model is sequential.
- `wait_for` timeouts and the 5 ms default `time_limit_ms` are left out. Without a concurrent producer the timeout length cannot change the outcome.
- The multithreaded tests `mt` and `mt2` are left out. They concern thread interleavings and real-time sleeps.
- `std::shared_ptr` allocation in the value-returning overloads is modelled as `Option<T>`.
- `std::move` and the copy semantics of `elem_type` are left out. Elements are values.
- The `static_assert(Size > 0)` is a `requires size > 0` on construction, not a compile-time check.
- The deleted copy assignment is simply not provided.
- `size_t` width is not modelled. The indices stay below `Size` and the count stays at most `Size`, so no wrap-around is reachable.
- The value-initialisation of `m_mem{}` is modelled as a `fill` parameter, the value every slot starts with.
