/** The imperative shape of `circular_buffer`: a fixed array of `Size` slots
    and the three indices, with a ghost copy of the queue they hold. Each
    method performs the same field updates as the source, and its contract
    is the matching step of the pure model in `CircularBuffer`. */
module BufferObject {
  import opened Wrappers
  import CB = CircularBuffer

  class RingBuffer<T> {
    const mem: array<T>
    var head: nat
    var tail: nat
    var count: nat
    ghost var contents: seq<T>

    /** The fields seen as a state of the pure model. */
    function State(): CB.Buffer<T>
      reads this, mem
    {
      CB.Buffer(mem[..], head, tail, count)
    }

    /** The representation invariant, and the ghost queue is the one the
        slots hold. */
    ghost predicate Valid()
      reads this, mem
    {
      CB.Valid(State()) && contents == CB.Contents(State())
    }

    /** `circular_buffer()`: `Size` value-initialised slots, empty. */
    constructor Init(size: nat, fill: T)
      requires size > 0
      ensures Valid() && fresh(mem) && mem.Length == size
      ensures contents == []
    {
      mem := new T[size](_ => fill);
      head, tail, count := 0, 0, 0;
      contents := [];
    }

    /** `circular_buffer(circular_buffer const &)`: a fresh array holding the
        same slots, the same indices, hence the same queue. */
    constructor Copy(other: RingBuffer<T>)
      requires other.Valid()
      ensures Valid() && fresh(mem)
      ensures State() == other.State() && contents == other.contents
    {
      var n := other.mem.Length;
      var first := other.mem[0];
      var a := new T[n](_ => first);
      var i := 0;
      while i < n
        invariant 0 <= i <= n
        invariant a[..i] == other.mem[..i]
      {
        a[i] := other.mem[i];
        i := i + 1;
      }
      assert a[..] == other.mem[..];
      mem := a;
      head, tail, count := other.head, other.tail, other.count;
      contents := other.contents;
    }

    /** `put`: append, dropping the oldest element first when full. */
    method Put(x: T)
      requires Valid()
      modifies this, mem
      ensures Valid()
      ensures State() == CB.Put(old(State()), x)
      ensures contents == CB.KeepLast(old(contents) + [x], mem.Length)
    {
      ghost var before := State();
      if count == mem.Length {
        tail := (tail + 1) % mem.Length;
      }
      mem[head] := x;
      head := (head + 1) % mem.Length;
      count := CB.Min(count + 1, mem.Length);
      assert State() == CB.Put(before, x);
      contents := CB.KeepLast(contents + [x], mem.Length);
    }

    /** `adjust_tail`: drop the front of the queue, if any. */
    method AdjustTail()
      requires Valid()
      modifies this
      ensures Valid()
      ensures State() == CB.AdjustTail(old(State()))
      ensures contents == if old(contents) == [] then [] else old(contents)[1..]
    {
      ghost var before := State();
      if count != 0 {
        tail := (tail + 1) % mem.Length;
        count := count - 1;
        assert State() == CB.AdjustTail(before);
        contents := contents[1..];
      }
    }

    /** `try_get()`: the front element, removed, or nothing when empty. */
    method TryGet() returns (item: Option<T>)
      requires Valid()
      modifies this
      ensures Valid()
      ensures (State(), item) == CB.TryGet(old(State()))
      ensures old(contents) == [] ==> item == None && contents == []
      ensures old(contents) != [] ==>
                item == Some(old(contents)[0]) && contents == old(contents)[1..]
    {
      if count == 0 {
        return None;
      }
      item := Some(mem[tail]);
      AdjustTail();
    }

    /** `try_get(elem_type &)`: as `TryGet`, reporting success as a flag;
        `elem` keeps its old value on failure. */
    method TryGetInto(elem: T) returns (ok: bool, out: T)
      requires Valid()
      modifies this
      ensures Valid()
      ensures (State(), ok, out) == CB.TryGetInto(old(State()), elem)
      ensures ok <==> old(contents) != []
      ensures !ok ==> out == elem && contents == old(contents)
      ensures ok ==> out == old(contents)[0] && contents == old(contents)[1..]
    {
      if count == 0 {
        return false, elem;
      }
      out := mem[tail];
      AdjustTail();
      ok := true;
    }

    /** `get()` in a sequential setting: no other thread can `put` while it
        waits, so the wait (`CB.WaitFor`) succeeds exactly when something is
        already there. */
    method Get() returns (item: Option<T>)
      requires Valid()
      modifies this
      ensures Valid()
      ensures (State(), item) == CB.Get(old(State()))
      ensures old(contents) == [] ==> item == None && contents == []
      ensures old(contents) != [] ==>
                item == Some(old(contents)[0]) && contents == old(contents)[1..]
    {
      if count == 0 {
        return None;
      }
      item := Some(mem[tail]);
      AdjustTail();
    }

    /** `get(elem_type &)` in a sequential setting. */
    method GetInto(elem: T) returns (ok: bool, out: T)
      requires Valid()
      modifies this
      ensures Valid()
      ensures (State(), ok, out) == CB.GetInto(old(State()), elem)
      ensures ok <==> old(contents) != []
      ensures !ok ==> out == elem && contents == old(contents)
      ensures ok ==> out == old(contents)[0] && contents == old(contents)[1..]
    {
      if count == 0 {
        return false, elem;
      }
      out := mem[tail];
      AdjustTail();
      ok := true;
    }

    /** `empty()`. */
    method IsEmpty() returns (r: bool)
      requires Valid()
      ensures r <==> contents == []
    {
      r := count == 0;
    }

    /** `full()`. */
    method IsFull() returns (r: bool)
      requires Valid()
      ensures r <==> |contents| == mem.Length
    {
      r := count == mem.Length;
    }

    /** `size()`. */
    method Size() returns (r: nat)
      requires Valid()
      ensures r == |contents| && r <= mem.Length
    {
      r := count;
    }
  }

  /** Test `copying`: a full three-slot buffer is copied; the copy is full,
      its first `get` yields the oldest element, and reading from the copy
      leaves the source's queue as it was. */
  method CopyingScenario() returns (ok: bool, v: int, copyWasFull: bool, sourceFull: bool)
    ensures ok && v == 1 && copyWasFull && sourceFull
  {
    var cb1 := new RingBuffer<int>.Init(3, 0);
    cb1.Put(1);
    assert cb1.contents == [1];
    cb1.Put(3);
    assert cb1.contents == [1, 3];
    cb1.Put(5);
    assert cb1.contents == [1, 3, 5];
    var cb2 := new RingBuffer<int>.Copy(cb1);
    copyWasFull := cb2.IsFull();
    ok, v := cb2.GetInto(0);
    assert cb1.contents == [1, 3, 5];
    sourceFull := cb1.IsFull();
  }

}
