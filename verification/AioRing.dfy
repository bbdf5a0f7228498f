/** The ring of completion events of the libaio emulation (src/aio.c). */
module AioRing {

  class Ring<T(0)> {
    const events: array<T>
    var head: nat
    var tail: nat

    ghost predicate Valid()
      reads this
    {
      head < events.Length && tail < events.Length
    }

    /** The events between head and tail; the ring looks empty when they are equal. */
    ghost function Contents(): seq<T>
      requires Valid()
      reads this, events
    {
      Between(events[..], head, tail)
    }

    /** wpdk_io_setup */
    constructor (maxevents: nat)
      requires maxevents >= 1
      ensures Valid() && fresh(events) && events.Length == maxevents && Contents() == []
    {
      events := new T[maxevents];
      head, tail := 0, 0;
    }

    /** wpdk_aio_task_done */
    method Post(e: T)
      requires Valid()
      modifies this, events
      ensures Valid() && Contents() == Posted(old(Contents()), e, events.Length)
    {
      BetweenPost(events[..], head, tail, e);
      hide Successor, Between;
      ghost var was := events[..];
      events[tail] := e;
      assert events[..] == was[tail := e];
      tail := Successor(tail, events.Length);
    }

    /** wpdk_io_getevents */
    method GetEvents(nr: int) returns (out: seq<T>)
      requires Valid()
      modifies this
      ensures Valid() && out == Taken(old(Contents()), nr) && Contents() == old(Contents())[|out|..]
    {
      out := [];
      ghost var q, ring := Contents(), events[..];
      for i := 0 to (if nr > 0 then nr else 0)
        invariant Valid() && |out| == i && out + Between(ring, head, tail) == q
      {
        BetweenTake(ring, head, tail);
        hide Successor, Between;
        if head == tail {
          return;
        }
        out := out + [events[head]];
        head := Successor(head, events.Length);
      }
    }
  }

  ghost function Between<T>(ring: seq<T>, head: nat, tail: nat): seq<T>
    requires head < |ring| && tail < |ring|
  {
    if head <= tail then ring[head..tail] else ring[head..] + ring[..tail]
  }

  lemma BetweenPost<T>(ring: seq<T>, head: nat, tail: nat, e: T)
    requires head < |ring| && tail < |ring|
    ensures Between(ring[tail := e], head, Successor(tail, |ring|)) == Posted(Between(ring, head, tail), e, |ring|)
  {
    hide Successor;
  }

  lemma BetweenTake<T>(ring: seq<T>, head: nat, tail: nat)
    requires head < |ring| && tail < |ring|
    ensures head == tail <==> Between(ring, head, tail) == []
    ensures head != tail ==> Between(ring, head, tail) == [ring[head]] + Between(ring, Successor(head, |ring|), tail)
  {
    hide Successor;
  }

  function Successor(i: nat, size: nat): (j: nat)
    requires i < size
    ensures j == if i + 1 == size then 0 else i + 1
  {
    (i + 1) % size
  }

  /** Posting into a ring that holds all but one of its cells makes it look empty. */
  ghost function Posted<T>(q: seq<T>, e: T, size: nat): seq<T> {
    if |q| + 1 < size then q + [e] else []
  }

  ghost function Taken<T>(q: seq<T>, nr: int): (out: seq<T>)
    ensures |out| <= |q|
  {
    if nr <= 0 then [] else if nr < |q| then q[..nr] else q
  }

  // ----- runs, against an unbounded queue -----

  datatype Op<T> = Done(e: T) | Reap(nr: int)

  datatype Trace<T> = Trace(delivered: seq<T>, pending: seq<T>)

  ghost function RingRun<T>(ops: seq<Op<T>>, size: nat): Trace<T> {
    if ops == [] then Trace([], [])
    else
      var t := RingRun(ops[..|ops| - 1], size);
      match ops[|ops| - 1]
      case Done(e) => t.(pending := Posted(t.pending, e, size))
      case Reap(nr) =>
        var out := Taken(t.pending, nr);
        Trace(t.delivered + out, t.pending[|out|..])
  }

  ghost function QueueRun<T>(ops: seq<Op<T>>): Trace<T> {
    if ops == [] then Trace([], [])
    else
      var t := QueueRun(ops[..|ops| - 1]);
      match ops[|ops| - 1]
      case Done(e) => t.(pending := t.pending + [e])
      case Reap(nr) =>
        var out := Taken(t.pending, nr);
        Trace(t.delivered + out, t.pending[|out|..])
  }

  ghost function Completions<T>(ops: seq<Op<T>>): seq<T> {
    if ops == [] then []
    else
      var c := Completions(ops[..|ops| - 1]);
      if ops[|ops| - 1].Done? then c + [ops[|ops| - 1].e] else c
  }

  /** The unreaped completions stay below the size of the context throughout. */
  ghost predicate StaysBelow<T>(ops: seq<Op<T>>, size: nat) {
    forall n :: 0 <= n <= |ops| ==> |QueueRun(ops[..n]).pending| < size
  }

  /** A queue delivers the completions in order and keeps the rest. */
  lemma {:induction false} QueueConserves<T>(ops: seq<Op<T>>)
    ensures var t := QueueRun(ops); t.delivered + t.pending == Completions(ops)
  {
    if ops == [] {
    } else {
      QueueConserves(ops[..|ops| - 1]);
    }
  }

  /** A ring never holds more than it was given, nor all its cells. */
  lemma {:induction false} RingBounded<T>(ops: seq<Op<T>>, size: nat)
    requires size >= 1
    ensures var t := RingRun(ops, size); |t.pending| < size && |t.delivered| + |t.pending| <= |Completions(ops)|
  {
    if ops == [] {
    } else {
      RingBounded(ops[..|ops| - 1], size);
    }
  }

  lemma {:induction false} RingIsQueue<T>(ops: seq<Op<T>>, size: nat)
    requires StaysBelow(ops, size)
    ensures RingRun(ops, size) == QueueRun(ops)
  {
    if ops == [] {
    } else {
      var ops' := ops[..|ops| - 1];
      forall n | 0 <= n <= |ops'| ensures |QueueRun(ops'[..n]).pending| < size {
        assert ops'[..n] == ops[..n];
      }
      RingIsQueue(ops', size);
      assert ops[..|ops|] == ops;
    }
  }

  /** Once events have been lost, they stay lost. */
  lemma {:induction false} RingLoses<T>(ops: seq<Op<T>>, n: nat, size: nat)
    requires size >= 1 && n <= |ops| && |QueueRun(ops[..n]).pending| >= size
    ensures var t := RingRun(ops, size); |t.delivered| + |t.pending| < |Completions(ops)|
    decreases |ops|
  {
    var ops' := ops[..|ops| - 1];
    if n == |ops| {
      assert ops[..n] == ops;
      RingBounded(ops', size);
      QueueConserves(ops');
      if RingRun(ops', size) == QueueRun(ops') {
      } else if StaysBelow(ops', size) {
        RingIsQueue(ops', size);
        assert false;
      } else {
        var m :| 0 <= m <= |ops'| && |QueueRun(ops'[..m]).pending| >= size;
        RingLoses(ops', m, size);
      }
    } else {
      assert ops[..n] == ops'[..n];
      RingLoses(ops', n, size);
    }
  }

  /** The ring refines an unbounded queue exactly when the unreaped completions stay below the
      size of the context. Otherwise events are gone for good. */
  lemma RingRefinesQueue<T>(ops: seq<Op<T>>, size: nat)
    requires size >= 1
    ensures RingRun(ops, size) == QueueRun(ops) <==> StaysBelow(ops, size)
    ensures var t := RingRun(ops, size); StaysBelow(ops, size) <==> t.delivered + t.pending == Completions(ops)
  {
    QueueConserves(ops);
    if StaysBelow(ops, size) {
      RingIsQueue(ops, size);
    } else {
      var n :| 0 <= n <= |ops| && |QueueRun(ops[..n]).pending| >= size;
      RingLoses(ops, n, size);
    }
  }
}
