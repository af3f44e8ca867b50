/** The buffer against an abstract bounded queue with overwrite: a sequence
    of at most `n` elements, oldest first, where appending to a full queue
    first drops its front. For every interleaving of operations, the buffer
    makes the same observations as that queue. */
module Refinement {
  import opened Wrappers
  import opened CircularBuffer

  /** One call on the public interface; the `Into` forms carry the current
      value of the caller's output variable. */
  datatype Op<T> =
    | PutOp(item: T)
    | TryGetOp
    | GetOp
    | TryGetIntoOp(elem: T)
    | GetIntoOp(elem: T)
    | EmptyOp
    | FullOp
    | SizeOp

  /** What a call returns to its caller. */
  datatype Obs<T> =
    | Done
    | Item(item: Option<T>)
    | Got(ok: bool, out: T)
    | Flag(flag: bool)
    | Count(count: nat)

  /** The abstract queue's answer to `op`, and its queue afterwards. */
  function SpecStep<T>(q: seq<T>, n: nat, op: Op<T>): (seq<T>, Obs<T>)
  {
    match op
    case PutOp(x) => (if 0 < |q| == n then q[1..] + [x] else q + [x], Done)
    case TryGetOp => if q == [] then (q, Item(None)) else (q[1..], Item(Some(q[0])))
    case GetOp => if q == [] then (q, Item(None)) else (q[1..], Item(Some(q[0])))
    case TryGetIntoOp(e) => if q == [] then (q, Got(false, e)) else (q[1..], Got(true, q[0]))
    case GetIntoOp(e) => if q == [] then (q, Got(false, e)) else (q[1..], Got(true, q[0]))
    case EmptyOp => (q, Flag(q == []))
    case FullOp => (q, Flag(|q| == n))
    case SizeOp => (q, Count(|q|))
  }

  /** The abstract queue's answers to a run of calls. */
  function SpecRun<T>(q: seq<T>, n: nat, ops: seq<Op<T>>): (seq<T>, seq<Obs<T>>)
    decreases |ops|
  {
    if ops == [] then
      (q, [])
    else
      var s := SpecStep(q, n, ops[0]);
      var rest := SpecRun(s.0, n, ops[1..]);
      (rest.0, [s.1] + rest.1)
  }

  /** The buffer's answer to `op`, and its state afterwards. */
  function Step<T>(b: Buffer<T>, op: Op<T>): (r: (Buffer<T>, Obs<T>))
    requires Valid(b)
    ensures Valid(r.0) && Capacity(r.0) == Capacity(b)
  {
    match op
    case PutOp(x) => (Put(b, x), Done)
    case TryGetOp => var g := TryGet(b); (g.0, Item(g.1))
    case GetOp => var g := Get(b); (g.0, Item(g.1))
    case TryGetIntoOp(e) => var g := TryGetInto(b, e); (g.0, Got(g.1, g.2))
    case GetIntoOp(e) => var g := GetInto(b, e); (g.0, Got(g.1, g.2))
    case EmptyOp => (b, Flag(IsEmpty(b)))
    case FullOp => (b, Flag(IsFull(b)))
    case SizeOp => (b, Count(Size(b)))
  }

  /** The buffer's answers to a run of calls. */
  function Run<T>(b: Buffer<T>, ops: seq<Op<T>>): (r: (Buffer<T>, seq<Obs<T>>))
    requires Valid(b)
    ensures Valid(r.0) && Capacity(r.0) == Capacity(b)
    decreases |ops|
  {
    if ops == [] then
      (b, [])
    else
      var s := Step(b, ops[0]);
      var rest := Run(s.0, ops[1..]);
      (rest.0, [s.1] + rest.1)
  }

  /** One call: the buffer answers as the abstract queue does, and its queue
      afterwards is the abstract queue's. */
  lemma StepRefines<T>(b: Buffer<T>, op: Op<T>)
    requires Valid(b)
    ensures Step(b, op).1 == SpecStep(Contents(b), Capacity(b), op).1
    ensures Contents(Step(b, op).0) == SpecStep(Contents(b), Capacity(b), op).0
  {
  }

  /** Any run of calls: the buffer gives the same answers as the abstract
      queue, and ends holding the same queue. */
  lemma {:induction false} RunRefines<T>(b: Buffer<T>, ops: seq<Op<T>>)
    requires Valid(b)
    ensures Run(b, ops).1 == SpecRun(Contents(b), Capacity(b), ops).1
    ensures Contents(Run(b, ops).0) == SpecRun(Contents(b), Capacity(b), ops).0
    decreases |ops|
  {
    if ops != [] {
      var s := Step(b, ops[0]);
      StepRefines(b, ops[0]);
      RunRefines(s.0, ops[1..]);
    }
  }

  /** A fresh buffer of `n` slots answers every run of calls as the empty
      abstract queue of capacity `n` does, and ends holding the same queue. */
  lemma FreshRunRefines<T>(n: nat, fill: T, ops: seq<Op<T>>)
    requires n > 0
    ensures Run(New(n, fill), ops).1 == SpecRun([], n, ops).1
    ensures Contents(Run(New(n, fill), ops).0) == SpecRun([], n, ops).0
  {
    RunRefines(New(n, fill), ops);
  }

}
