/** The hand-off between the receiver and the dispatcher: an unbounded FIFO
    queue. `Offer` never blocks or fails; `Take` on an empty queue blocks,
    which is modelled as yielding nothing. */
module EventQueue {
  import opened Wrappers

  /** Appends an item at the tail; the items already queued keep their places. */
  function Offer<T>(q: seq<T>, item: T): (r: seq<T>)
    ensures |r| == |q| + 1
    ensures r[..|q|] == q && r[|q|] == item
  {
    q + [item]
  }

  /** Removes the item at the head, or yields nothing when the queue is empty
      (the caller of the blocking `take` waits). */
  function Take<T>(q: seq<T>): (r: Option<(T, seq<T>)>)
    ensures r.None? <==> |q| == 0
    ensures r.Some? ==> [r.value.0] + r.value.1 == q
  {
    if |q| == 0 then None else Some((q[0], q[1..]))
  }

  /** One action on the queue by one of its two users. */
  datatype Op<T> = Push(item: T) | Pop

  /** The queue's contents and everything the consumer has taken so far. */
  datatype Channel<T> = Channel(pending: seq<T>, taken: seq<T>)

  /** Applies one action. A `Pop` on an empty queue leaves everything as it is:
      the consumer is still blocked. */
  function Apply<T>(c: Channel<T>, op: Op<T>): Channel<T>
  {
    match op
    case Push(item) => c.(pending := Offer(c.pending, item))
    case Pop =>
      match Take(c.pending)
      case None => c
      case Some((item, rest)) => Channel(rest, c.taken + [item])
  }

  /** Applies the actions of an interleaving of producer and consumer in order. */
  function Play<T>(c: Channel<T>, ops: seq<Op<T>>): Channel<T>
    decreases |ops|
  {
    if |ops| == 0 then c else Play(Apply(c, ops[0]), ops[1..])
  }

  /** The item an action pushes, if any. */
  function PushedBy<T>(op: Op<T>): seq<T>
  {
    if op.Push? then [op.item] else []
  }

  /** The items the producer pushes, in push order. */
  function Pushed<T>(ops: seq<Op<T>>): seq<T>
  {
    if |ops| == 0 then [] else PushedBy(ops[0]) + Pushed(ops[1..])
  }

  /** One action moves an item from the head of the queue to the end of what
      was taken, or appends the pushed item to the queue. */
  lemma ApplyKeepsOrder<T>(c: Channel<T>, op: Op<T>)
    ensures Apply(c, op).taken + Apply(c, op).pending == c.taken + c.pending + PushedBy(op)
  {
    if op.Push? {
      assert c.taken + (c.pending + [op.item]) == c.taken + c.pending + [op.item];
    } else if |c.pending| > 0 {
      assert c.pending == [c.pending[0]] + c.pending[1..];
      assert (c.taken + [c.pending[0]]) + c.pending[1..] == c.taken + c.pending;
    } else {
      assert c.taken + c.pending + [] == c.taken + c.pending;
    }
  }

  /** Whatever the interleaving, what the consumer has taken followed by what
      is still queued is exactly what was pushed, in push order: items are
      never lost, duplicated or reordered. */
  lemma {:induction false} PlayIsFifo<T>(c: Channel<T>, ops: seq<Op<T>>)
    ensures Play(c, ops).taken + Play(c, ops).pending == c.taken + c.pending + Pushed(ops)
    decreases |ops|
  {
    if |ops| > 0 {
      var c' := Apply(c, ops[0]);
      PlayIsFifo(c', ops[1..]);
      ApplyKeepsOrder(c, ops[0]);
      calc {
        Play(c, ops).taken + Play(c, ops).pending;
        c'.taken + c'.pending + Pushed(ops[1..]);
        (c.taken + c.pending + PushedBy(ops[0])) + Pushed(ops[1..]);
        { assert Pushed(ops) == PushedBy(ops[0]) + Pushed(ops[1..]); }
        c.taken + c.pending + Pushed(ops);
      }
    }
  }

  /** `n` consecutive `take` calls. */
  function Pops<T>(n: nat): (r: seq<Op<T>>)
    ensures |r| == n
    ensures forall i | 0 <= i < n :: r[i] == Pop
  {
    if n == 0 then [] else [Pop] + Pops(n - 1)
  }

  /** Taking as many times as there are queued items delivers all of them, in
      queue order, and leaves the queue empty. */
  lemma {:induction false} DrainDeliversAll<T>(c: Channel<T>)
    ensures Play(c, Pops(|c.pending|)) == Channel([], c.taken + c.pending)
    decreases |c.pending|
  {
    if |c.pending| > 0 {
      var ops := Pops<T>(|c.pending|);
      var c' := Channel(c.pending[1..], c.taken + [c.pending[0]]);
      assert Apply(c, Pop) == c';
      assert ops[1..] == Pops(|c'.pending|);
      assert Play(c, ops) == Play(c', ops[1..]);
      DrainDeliversAll(c');
      assert c'.taken + c'.pending == c.taken + c.pending by {
        assert c.pending == [c.pending[0]] + c.pending[1..];
      }
    }
  }

}
