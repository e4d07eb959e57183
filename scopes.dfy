/** The output scopes of `run`: `_with_out` enters one `async with` scope per
    declared output, the last output innermost, runs the consumption loop in
    the innermost scope and closes each queue as its scope is left. */
module Scopes {

  /** What happens at the scope boundaries: a queue's scope is entered, the
      consumption loop runs, a queue's scope is left (closing that queue). */
  datatype ScopeEvent = Entered(output: string) | Consumed | Exited(output: string)

  /** The events of `_with_out(outQueue, *outQueues)`, in order, on every
      exit path: leaving a scope by an exception closes the queue just as
      leaving it normally does. */
  function Nesting(outQueue: string, outQueues: seq<string>): (log: seq<ScopeEvent>)
    ensures |log| == 2 * (|outQueues| + 1) + 1
    ensures log[0] == Entered(outQueue) && log[|log| - 1] == Exited(outQueue)
    ensures Consumed in log
    decreases |outQueues|
  {
    [Entered(outQueue)]
    + (if outQueues == [] then [Consumed] else Nesting(outQueues[0], outQueues[1..]))
    + [Exited(outQueue)]
  }

  /** Appending one scope's events, entry, body and exit, one after the other
      to a log extends it by that scope's nesting. */
  lemma NestingAppends(log: seq<ScopeEvent>, outQueue: string, outQueues: seq<string>, inner: seq<ScopeEvent>)
    requires inner == if outQueues == [] then [Consumed] else Nesting(outQueues[0], outQueues[1..])
    ensures log + [Entered(outQueue)] + inner + [Exited(outQueue)] == log + Nesting(outQueue, outQueues)
  {
    assert Nesting(outQueue, outQueues) == [Entered(outQueue)] + inner + [Exited(outQueue)];
  }

  /** For outputs o[0..n-1]: the scopes are entered in declared order, the
      loop runs once, inside all of them, and the scopes are left, and the
      queues closed, in exactly the reverse of declared order. */
  lemma {:induction false} NestingOrder(outQueue: string, outQueues: seq<string>)
    ensures var outs := [outQueue] + outQueues;
      var n := |outs|;
      var log := Nesting(outQueue, outQueues);
      && |log| == 2 * n + 1
      && (forall k :: 0 <= k < n ==> log[k] == Entered(outs[k]))
      && log[n] == Consumed
      && (forall k :: n < k <= 2 * n ==> log[k] == Exited(outs[2 * n - k]))
    decreases |outQueues|
  {
    if outQueues != [] {
      NestingOrder(outQueues[0], outQueues[1..]);
      var outs := [outQueue] + outQueues;
      var inner := [outQueues[0]] + outQueues[1..];
      assert inner == outs[1..];
    }
  }

  /** The events a `run` over outputs `outs` appends to a log: the order of
      `NestingOrder`, read off the appended part. */
  lemma NestingAfter(before: seq<ScopeEvent>, outs: seq<string>)
    requires outs != []
    ensures var n := |outs|;
      var log := (before + Nesting(outs[0], outs[1..]))[|before|..];
      && |log| == 2 * n + 1
      && (forall k :: 0 <= k < n ==> log[k] == Entered(outs[k]))
      && log[n] == Consumed
      && (forall k :: n < k <= 2 * n ==> log[k] == Exited(outs[2 * n - k]))
  {
    assert [outs[0]] + outs[1..] == outs;
    assert (before + Nesting(outs[0], outs[1..]))[|before|..] == Nesting(outs[0], outs[1..]);
    NestingOrder(outs[0], outs[1..]);
  }
}
