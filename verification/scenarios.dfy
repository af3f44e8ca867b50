/** Properties of whole runs of the buffer: a sequence of `put`s, and draining
    it with `try_get` until it reports nothing left. */
module Scenarios {
  import opened Wrappers
  import opened CircularBuffer

  /** Keeping the newest `n` twice is keeping them once: trimming an old
      prefix early does not change what survives later appends. */
  lemma KeepLastAbsorb<T>(s: seq<T>, t: seq<T>, n: nat)
    ensures KeepLast(KeepLast(s, n) + t, n) == KeepLast(s + t, n)
  {
  }

  /** `put` each element of `xs` in turn. The queue afterwards is the newest
      `Size` elements of the old queue followed by `xs`: nothing is reordered,
      and only the oldest elements are ever dropped. */
  function PutAll<T>(b: Buffer<T>, xs: seq<T>): (r: Buffer<T>)
    requires Valid(b)
    ensures Valid(r) && Capacity(r) == Capacity(b)
    ensures Contents(r) == KeepLast(Contents(b) + xs, Capacity(b))
    decreases |xs|
  {
    if xs == [] then
      assert Contents(b) + xs == Contents(b);
      b
    else
      var r := PutAll(Put(b, xs[0]), xs[1..]);
      KeepLastAbsorb(Contents(b) + [xs[0]], xs[1..], Capacity(b));
      assert Contents(b) + [xs[0]] + xs[1..] == Contents(b) + xs;
      r
  }

  /** `try_get` until it fails: the items come out in queue order, all of
      them, and the buffer ends empty with its capacity unchanged. */
  function DrainAll<T>(b: Buffer<T>): (r: (seq<T>, Buffer<T>))
    requires Valid(b)
    ensures Valid(r.1) && IsEmpty(r.1) && Capacity(r.1) == Capacity(b)
    ensures r.0 == Contents(b)
    decreases Size(b)
  {
    var step := TryGet(b);
    match step.1
    case None => ([], b)
    case Some(x) =>
      var rest := DrainAll(step.0);
      ([x] + rest.0, rest.1)
  }

  /** FIFO: while at most `Size` elements have been put into a fresh buffer,
      draining it returns exactly what was put, in put order. */
  lemma FifoWithoutOverwrite<T>(n: nat, fill: T, xs: seq<T>)
    requires 0 < n && |xs| <= n
    ensures Size(PutAll(New(n, fill), xs)) == |xs|
    ensures DrainAll(PutAll(New(n, fill), xs)).0 == xs
  {
  }

  /** Overwrite: after `Size + k` puts into a fresh buffer the buffer is full
      and draining it yields exactly the last `Size` items put, in put order,
      leaving it empty. */
  lemma OverwriteKeepsNewest<T>(n: nat, fill: T, xs: seq<T>)
    requires 0 < n <= |xs|
    ensures IsFull(PutAll(New(n, fill), xs)) && Size(PutAll(New(n, fill), xs)) == n
    ensures DrainAll(PutAll(New(n, fill), xs)).0 == xs[|xs| - n..]
    ensures IsEmpty(DrainAll(PutAll(New(n, fill), xs)).1)
  {
    var e := New(n, fill);
    assert Contents(e) + xs == xs;
    var b := PutAll(e, xs);
    assert Contents(b) == xs[|xs| - n..];
  }

  /** Once full, a buffer stays full whatever is put next. */
  lemma FullStaysFull<T>(b: Buffer<T>, xs: seq<T>)
    requires Valid(b) && IsFull(b)
    ensures IsFull(PutAll(b, xs))
  {
  }

  /** `put` and `get(elem_type &)` are inverse on an empty buffer: the get
      succeeds with the item put, and the buffer is empty again. */
  lemma PutThenGet<T>(b: Buffer<T>, x: T, e: T)
    requires Valid(b) && IsEmpty(b)
    ensures GetInto(Put(b, x), e).1 && GetInto(Put(b, x), e).2 == x
    ensures IsEmpty(GetInto(Put(b, x), e).0)
  {
  }

  /** With `Size == 1` every `put` replaces the unread value, so after any
      non-empty run of puts the next `get` returns the most recent item and
      leaves the buffer empty. */
  lemma CapacityOneKeepsLast<T>(b: Buffer<T>, xs: seq<T>)
    requires Valid(b) && Capacity(b) == 1 && |xs| > 0
    ensures Get(PutAll(b, xs)).1 == Some(xs[|xs| - 1])
    ensures IsEmpty(Get(PutAll(b, xs)).0)
  {
  }

  /** A copy drains in the same order as its source and is full exactly when
      the source is. (That the copy is independent of its source is a matter
      of separate storage, stated by `BufferObject.RingBuffer.Copy`.) */
  lemma CopyDrainsAlike<T>(b: Buffer<T>)
    requires Valid(b)
    ensures DrainAll(Copy(b)).0 == DrainAll(b).0 == Contents(b)
    ensures IsFull(Copy(b)) <==> IsFull(b)
  {
  }

  /** The run in test `t1`: five slots, puts 1 to 7, full from the fifth put
      on; draining yields 3, 4, 5, 6, 7 and leaves the buffer empty. */
  lemma RunT1()
    ensures !IsFull(PutAll(New(5, 0), [1, 2, 3, 4]))
    ensures IsFull(PutAll(New(5, 0), [1, 2, 3, 4, 5]))
    ensures IsFull(PutAll(New(5, 0), [1, 2, 3, 4, 5, 6, 7]))
    ensures DrainAll(PutAll(New(5, 0), [1, 2, 3, 4, 5, 6, 7])).0 == [3, 4, 5, 6, 7]
  {
    OverwriteKeepsNewest(5, 0, [1, 2, 3, 4, 5, 6, 7]);
    FifoWithoutOverwrite(5, 0, [1, 2, 3, 4]);
    OverwriteKeepsNewest(5, 0, [1, 2, 3, 4, 5]);
  }

  /** The run in test `t4`: one slot; one put makes it full, `get` yields 1
      and it is no longer full; after putting 2, 3, 4 the next `get` returns
      4. */
  lemma RunT4()
    ensures IsFull(Put(New(1, 0), 1))
    ensures GetInto(Put(New(1, 0), 1), 0).2 == 1
    ensures !IsFull(GetInto(Put(New(1, 0), 1), 0).0)
    ensures GetInto(PutAll(GetInto(Put(New(1, 0), 1), 0).0, [2, 3, 4]), 0).2 == 4
  {
    CapacityOneKeepsLast(GetInto(Put(New(1, 0), 1), 0).0, [2, 3, 4]);
  }

}
