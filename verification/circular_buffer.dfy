/** The sequential core of `circular_buffer<elem_type, Size>`: the slot array,
    the write index, the read index and the population, with the lock and the
    condition variable taken away. Every operation is a pure function from the
    old state to the new one; `Contents` reads the abstract FIFO queue off the
    slots, and each contract is stated over that queue. */
module CircularBuffer {
  import opened Wrappers

  /** `m_mem` (its length is the template argument `Size`), `m_head` (next slot
      to write), `m_tail` (oldest unread slot) and `m_elements_count`. */
  datatype Buffer<T> = Buffer(mem: seq<T>, head: nat, tail: nat, count: nat)

  /** The template argument `Size`. */
  function Capacity<T>(b: Buffer<T>): nat
  {
    |b.mem|
  }

  /** The part of the representation invariant the abstract queue needs:
      `Size > 0`, the read index inside the array and at most `Size` unread
      elements. */
  predicate Bounded<T>(b: Buffer<T>)
  {
    && |b.mem| > 0
    && b.tail < |b.mem|
    && b.count <= |b.mem|
  }

  /** The representation invariant every operation keeps: both indices inside
      the array, at most `Size` unread elements, and the write index exactly
      `count` slots past the read index (wrapping at the end of the array;
      `ValidIsModular` restates this as `head == (tail + count) % Size`). */
  predicate Valid<T>(b: Buffer<T>)
  {
    && Bounded(b)
    && b.head < |b.mem|
    && b.head == Slot(b.tail, b.count, |b.mem|)
  }

  /** The array position `i` slots after position `t` in an array of length
      `n`, wrapping past the end at most once; it is `(t + i) % n` for every
      offset the buffer uses (see `SlotIsMod`). */
  function Slot(t: nat, i: nat, n: nat): nat
  {
    if t + i < n then t + i else t + i - n
  }

  /** Reducing a value below `2 * n` subtracts `n` at most once. */
  lemma ModBelowTwice(x: int, n: int)
    requires 0 < n && 0 <= x < 2 * n
    ensures x % n == if x < n then x else x - n
  {
  }

  /** `Slot` is the source's `% Size` index arithmetic. */
  lemma SlotIsMod(t: nat, i: nat, n: nat)
    requires t < n && i <= n
    ensures Slot(t, i, n) == (t + i) % n
  {
    ModBelowTwice(t + i, n);
  }

  /** The invariant in the source's own terms: indices below `Size`, the
      population at most `Size`, and `head == (tail + count) % Size`. */
  lemma ValidIsModular<T>(b: Buffer<T>)
    ensures Valid(b) <==>
              && |b.mem| > 0
              && b.head < |b.mem| && b.tail < |b.mem| && b.count <= |b.mem|
              && b.head == (b.tail + b.count) % |b.mem|
  {
    if |b.mem| > 0 && b.tail < |b.mem| && b.count <= |b.mem| {
      SlotIsMod(b.tail, b.count, |b.mem|);
    }
  }

  /** The abstract queue, oldest first: the slots `tail, tail + 1, ...,
      tail + count - 1`, each taken modulo `Size`. */
  function Contents<T>(b: Buffer<T>): seq<T>
    requires Bounded(b)
  {
    seq(b.count, i requires 0 <= i < b.count => b.mem[Slot(b.tail, i, |b.mem|)])
  }

  /** Element `i` of the queue is the array slot `(tail + i) % Size`. */
  lemma ContentsAt<T>(b: Buffer<T>, i: nat)
    requires Valid(b) && i < b.count
    ensures Contents(b)[i] == b.mem[(b.tail + i) % |b.mem|]
  {
    SlotIsMod(b.tail, i, |b.mem|);
  }

  /** The queue a bounded buffer with overwrite keeps: the newest `n`
      elements of `s`, in their original order. */
  function KeepLast<T>(s: seq<T>, n: nat): seq<T>
  {
    if |s| <= n then s else s[|s| - n..]
  }

  /** `std::min` on the population. */
  function Min(a: nat, b: nat): nat
  {
    if a < b then a else b
  }

  /** The default constructor: all slots value-initialised (to `fill`), all
      indices zero. The `static_assert(Size > 0)` is the precondition. */
  function New<T>(size: nat, fill: T): (b: Buffer<T>)
    requires size > 0
    ensures Valid(b) && Capacity(b) == size
    ensures Contents(b) == []
  {
    Buffer(seq(size, _ => fill), 0, 0, 0)
  }

  /** The copy constructor: an independent buffer with the same slots and
      indices, so it reports the same size, is full exactly when the source is
      and yields the same elements in the same order. */
  function Copy<T>(b: Buffer<T>): (r: Buffer<T>)
    requires Valid(b)
    ensures Valid(r) && Capacity(r) == Capacity(b)
    ensures Contents(r) == Contents(b)
    ensures IsFull(r) == IsFull(b) && IsEmpty(r) == IsEmpty(b) && Size(r) == Size(b)
  {
    Buffer(b.mem, b.head, b.tail, b.count)
  }

  /** `put`: when full, drop the oldest element by advancing the read index;
      then write the slot at the write index, advance it, and grow the
      population up to `Size`. */
  function Put<T>(b: Buffer<T>, x: T): (r: Buffer<T>)
    requires Valid(b)
    ensures Valid(r) && Capacity(r) == Capacity(b)
    ensures !IsFull(b) ==> Contents(r) == Contents(b) + [x] && Size(r) == Size(b) + 1
    ensures IsFull(b) ==> Contents(r) == Contents(b)[1..] + [x] && IsFull(r)
    ensures Contents(r) == KeepLast(Contents(b) + [x], Capacity(b))
  {
    var n := |b.mem|;
    var r := Buffer(b.mem[b.head := x],
                    (b.head + 1) % n,
                    if b.count == n then (b.tail + 1) % n else b.tail,
                    Min(b.count + 1, n));
    PutStep(b, x, r);
    r
  }

  /** The proof behind `Put`: the state `r` reached by one `put` step is
      valid and holds the old queue (minus its oldest element when full)
      followed by `x`. */
  lemma PutStep<T>(b: Buffer<T>, x: T, r: Buffer<T>)
    requires Valid(b)
    requires r.mem == b.mem[b.head := x]
    requires r.head == (b.head + 1) % |b.mem|
    requires r.tail == if b.count == |b.mem| then (b.tail + 1) % |b.mem| else b.tail
    requires r.count == Min(b.count + 1, |b.mem|)
    ensures Valid(r)
    ensures b.count < |b.mem| ==> Contents(r) == Contents(b) + [x]
    ensures b.count == |b.mem| ==> Contents(r) == Contents(b)[1..] + [x]
  {
    var n := |b.mem|;
    SlotIsMod(b.head, 1, n);
    if b.count < n {
      AppendQueue(b, x, r);
    } else {
      SlotIsMod(b.tail, 1, n);
      OverwriteQueue(b, x, r);
    }
  }

  /** A `put` into a buffer with a free slot appends to the queue. */
  lemma AppendQueue<T>(b: Buffer<T>, x: T, r: Buffer<T>)
    requires Bounded(b) && b.count < |b.mem|
    requires b.head == Slot(b.tail, b.count, |b.mem|)
    requires r.mem == b.mem[b.head := x] && r.tail == b.tail && r.count == b.count + 1
    ensures Contents(r) == Contents(b) + [x]
  {
  }

  /** A `put` into a full buffer, whose write index has caught up with its
      read index, drops the front of the queue and appends. */
  lemma OverwriteQueue<T>(b: Buffer<T>, x: T, r: Buffer<T>)
    requires Bounded(b) && b.count == |b.mem| && b.head == b.tail
    requires r.mem == b.mem[b.head := x] && r.tail == Slot(b.tail, 1, |b.mem|)
    requires r.count == b.count
    ensures Contents(r) == Contents(b)[1..] + [x]
  {
  }

  /** `adjust_tail`: when anything is unread, advance the read index and
      shrink the population, which removes exactly the oldest element; the
      slots and the write index are untouched. */
  function AdjustTail<T>(b: Buffer<T>): (r: Buffer<T>)
    requires Valid(b)
    ensures Valid(r) && r.mem == b.mem && r.head == b.head
    ensures IsEmpty(b) ==> r == b
    ensures !IsEmpty(b) ==> Contents(r) == Contents(b)[1..] && Size(r) == Size(b) - 1
  {
    if b.count != 0 then
      var r := b.(tail := (b.tail + 1) % |b.mem|, count := b.count - 1);
      AdjustTailStep(b, r);
      r
    else
      b
  }

  /** The proof behind `AdjustTail`. */
  lemma AdjustTailStep<T>(b: Buffer<T>, r: Buffer<T>)
    requires Valid(b) && b.count > 0
    requires r == b.(tail := (b.tail + 1) % |b.mem|, count := b.count - 1)
    ensures Valid(r)
    ensures Contents(r) == Contents(b)[1..]
  {
    SlotIsMod(b.tail, 1, |b.mem|);
    PopQueue(b, r);
  }

  /** Advancing the read index past an unread slot pops the front of the
      queue. */
  lemma PopQueue<T>(b: Buffer<T>, r: Buffer<T>)
    requires Bounded(b) && b.count > 0
    requires r == b.(tail := Slot(b.tail, 1, |b.mem|), count := b.count - 1)
    ensures Contents(r) == Contents(b)[1..]
  {
  }

  /** The element `m_mem[m_tail]` both retrieval paths read: the front of the
      queue. */
  function Front<T>(b: Buffer<T>): (x: T)
    requires Valid(b) && b.count > 0
    ensures x == Contents(b)[0]
  {
    b.mem[b.tail]
  }

  /** `try_get()` returning a `shared_ptr`: on an empty buffer, nothing and no
      change; otherwise the oldest element, which is removed while the rest
      keep their order. */
  function TryGet<T>(b: Buffer<T>): (r: (Buffer<T>, Option<T>))
    requires Valid(b)
    ensures Valid(r.0) && Capacity(r.0) == Capacity(b)
    ensures r.1.None? <==> Contents(b) == []
    ensures Contents(b) == [] ==> r.0 == b
    ensures Contents(b) != [] ==>
              r.1 == Some(Contents(b)[0]) && Contents(r.0) == Contents(b)[1..]
  {
    if b.count == 0 then
      (b, None)
    else
      var item := Front(b);
      (AdjustTail(b), Some(item))
  }

  /** `try_get(elem_type &)`: the same step, reporting success as a flag; the
      caller's variable `elem` is overwritten only on success. */
  function TryGetInto<T>(b: Buffer<T>, elem: T): (r: (Buffer<T>, bool, T))
    requires Valid(b)
    ensures Valid(r.0) && Capacity(r.0) == Capacity(b)
    ensures r.1 <==> Contents(b) != []
    ensures !r.1 ==> r.0 == b && r.2 == elem
    ensures r.1 ==> r.2 == Contents(b)[0] && Contents(r.0) == Contents(b)[1..]
  {
    if b.count == 0 then
      (b, false, elem)
    else
      (AdjustTail(b), true, Front(b))
  }

  /** The predicate the blocking `get` waits for, `m_elements_count > 0`.
      With no other thread to `put` while the caller waits, its value at the
      timeout is its value at the call: the wait succeeds exactly when the
      queue is non-empty. */
  function WaitFor<T>(b: Buffer<T>): (r: bool)
    requires Valid(b)
    ensures r <==> Contents(b) != []
  {
    b.count > 0
  }

  /** `get()` returning a `shared_ptr`, in a sequential setting: if the wait fails,
      nothing and no change; otherwise the same read-and-advance as
      `try_get`. */
  function Get<T>(b: Buffer<T>): (r: (Buffer<T>, Option<T>))
    requires Valid(b)
    ensures Valid(r.0) && Capacity(r.0) == Capacity(b)
    ensures r.1.None? <==> Contents(b) == []
    ensures Contents(b) == [] ==> r.0 == b
    ensures Contents(b) != [] ==>
              r.1 == Some(Contents(b)[0]) && Contents(r.0) == Contents(b)[1..]
  {
    if !WaitFor(b) then
      (b, None)
    else
      var item := Front(b);
      (AdjustTail(b), Some(item))
  }

  /** `get(elem_type &)`, in a sequential setting. */
  function GetInto<T>(b: Buffer<T>, elem: T): (r: (Buffer<T>, bool, T))
    requires Valid(b)
    ensures Valid(r.0) && Capacity(r.0) == Capacity(b)
    ensures r.1 <==> Contents(b) != []
    ensures !r.1 ==> r.0 == b && r.2 == elem
    ensures r.1 ==> r.2 == Contents(b)[0] && Contents(r.0) == Contents(b)[1..]
  {
    if !WaitFor(b) then
      (b, false, elem)
    else
      (AdjustTail(b), true, Front(b))
  }

  /** `empty()`: nothing is left to read. */
  function IsEmpty<T>(b: Buffer<T>): (r: bool)
    requires Valid(b)
    ensures r <==> Contents(b) == []
  {
    b.count == 0
  }

  /** `full()`: the queue holds `Size` elements, so the next `put` drops one. */
  function IsFull<T>(b: Buffer<T>): (r: bool)
    requires Valid(b)
    ensures r <==> |Contents(b)| == Capacity(b)
  {
    b.count == |b.mem|
  }

  /** `size()`: the length of the queue, never above `Size`. */
  function Size<T>(b: Buffer<T>): (r: nat)
    requires Valid(b)
    ensures r == |Contents(b)| && r <= Capacity(b)
  {
    b.count
  }

}
