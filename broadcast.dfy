/** The two output broadcasters of a node: `QueueManager` for a node with
    exactly one declared output, `QueuesManager` for any other number. */
module Broadcast {
  import opened Values
  import opened Channels

  datatype Broadcaster<A> =
    | QueueManager(output: QueueId)
    | QueuesManager(outputs: seq<QueueId>)
  {
    /** The queues this broadcaster may put on. */
    function Targets(): set<QueueId>
    {
      match this
      case QueueManager(queue) => {queue}
      case QueuesManager(queues) => set q | q in queues
    }

    /** The puts that broadcasting result `r` performs, in order, or the
        exception raised before any of them. The multi-output variant pairs
        queues with the elements of `r` as `zip` does: it stops at the shorter
        of the two and raises no error when their lengths differ. */
    function Sends(r: Value<A>): (res: Result<seq<Send<A>>>)
      ensures res.Ok? ==> forall k :: 0 <= k < |res.value| ==> res.value[k].to in Targets()
      ensures QueueManager? ==> res.Ok?
      ensures QueuesManager? ==> (res.Err? <==> r.Atom?)
    {
      match this
      case QueueManager(queue) => Ok([Send(queue, r)])
      case QueuesManager(queues) =>
        if r.Atom? then Err(NotIterable)
        else
          var n := Min(|queues|, |r.elements|);
          Ok(seq(n, k requires 0 <= k < n => Send(queues[k], r.elements[k])))
    }

    /** `put(r)`: performs the puts of `Sends(r)` one by one, or raises
        before any put; no queue is closed and no other queue changes. */
    method Put(queues: Queues<A>, r: Value<A>) returns (outcome: Outcome)
      requires Targets() <= queues.channels.Keys
      modifies queues
      ensures Sends(r).Err? ==>
        outcome == Failed(Sends(r).error) && queues.channels == old(queues.channels) && queues.log == old(queues.log)
      ensures Sends(r).Ok? ==>
        && outcome == Done
        && queues.channels == Deliver(old(queues.channels), Sends(r).value)
        && queues.log == old(queues.log) + PutEvents(Sends(r).value)
    {
      match this
      case QueueManager(queue) =>
        queues.Put(queue, r);
        assert PutEvents([Send(queue, r)]) == [PutEv(queue, r)];
        outcome := Done;
      case QueuesManager(outs) =>
        if r.Atom? {
          return Failed(NotIterable);
        }
        var sends := Sends(r).value;
        var n := Min(|outs|, |r.elements|);
        ghost var start := queues.channels;
        ghost var log0 := queues.log;
        DeliverNothing(start);
        assert sends[..0] == [];
        for k := 0 to n
          invariant queues.channels == Deliver(start, sends[..k])
          invariant queues.channels.Keys == start.Keys
          invariant queues.log == log0 + PutEvents(sends[..k])
        {
          var send := Send(outs[k], r.elements[k]);
          assert sends[..k + 1] == sends[..k] + [send];
          assert outs[k] in Targets();
          DeliverAppend(start, sends[..k], [send]);
          PutEventsAppend(sends[..k], [send]);
          assert PutEvents([send]) == [PutEv(outs[k], r.elements[k])];
          queues.Put(outs[k], r.elements[k]);
        }
        assert sends[..n] == sends;
        outcome := Done;
    }
  }

  /** The broadcaster a node builds for its declared output names: the
      single-output variant for exactly one name, the multi-output one
      otherwise, holding the queue of each name in declared order. */
  function Choose<A>(names: seq<string>, outputs: map<string, QueueId>): (b: Broadcaster<A>)
    requires forall n :: n in names ==> n in outputs
    ensures b.Targets() == set n | n in names :: outputs[n]
    ensures |names| == 1 <==> b.QueueManager?
    ensures b.QueueManager? ==> b.output == outputs[names[0]]
    ensures b.QueuesManager? ==>
      |b.outputs| == |names| && forall i :: 0 <= i < |names| ==> b.outputs[i] == outputs[names[i]]
  {
    if |names| == 1 then QueueManager(outputs[names[0]])
    else
      var queues := seq(|names|, i requires 0 <= i < |names| => outputs[names[i]]);
      assert (set q | q in queues) == set n | n in names :: outputs[n] by {
        forall q | q in queues ensures q in set n | n in names :: outputs[n] {
          var i :| 0 <= i < |queues| && queues[i] == q;
          assert names[i] in names;
        }
        forall n | n in names ensures outputs[n] in queues {
          var i :| 0 <= i < |names| && names[i] == n;
          assert queues[i] == outputs[n];
        }
      }
      QueuesManager(queues)
  }

  /** The single-output broadcaster puts the result itself, unchanged, on its
      queue and on no other. */
  lemma QueueManagerForwards<A>(queue: QueueId, r: Value<A>, q: QueueId)
    ensures Received(QueueManager(queue).Sends(r).value, q) == if q == queue then [r] else []
  {
    assert QueueManager(queue).Sends(r).value == [] + [Send(queue, r)];
  }

  /** With distinct queues, the multi-output broadcaster puts element i of an
      iterable result on the i-th queue when the result has such an element,
      and nothing there otherwise: surplus elements and surplus queues are
      skipped silently. */
  lemma {:induction false} QueuesManagerPairs<A>(queues: seq<QueueId>, elements: seq<Value<A>>, i: nat)
    requires Distinct(queues)
    requires i < |queues|
    ensures Received(QueuesManager(queues).Sends(Iterable(elements)).value, queues[i]) ==
            if i < |elements| then [elements[i]] else []
  {
    var s := QueuesManager(queues).Sends(Iterable(elements)).value;
    var n := |s|;
    assert n == Min(|queues|, |elements|);
    if i < n {
      assert s == s[..i] + [s[i]] + s[i + 1..];
      ReceivedNothing(s[..i], queues[i]);
      ReceivedNothing(s[i + 1..], queues[i]);
      ReceivedAppend(s[..i] + [s[i]], s[i + 1..], queues[i]);
      ReceivedAppend(s[..i], [s[i]], queues[i]);
      assert [s[i]] == [] + [s[i]];
    } else {
      ReceivedNothing(s, queues[i]);
    }
  }

  /** The elements that `zip(queues, elements)` pairs with queue `q`, in
      position order; a queue that occurs at several positions gets the
      element of each of them. */
  function Paired<A>(queues: seq<QueueId>, elements: seq<Value<A>>, q: QueueId): (got: seq<Value<A>>)
    ensures |got| <= Min(|queues|, |elements|)
    decreases |queues|
  {
    if queues == [] || elements == [] then []
    else (if queues[0] == q then [elements[0]] else []) + Paired(queues[1..], elements[1..], q)
  }

  /** The multi-output broadcaster's puts, in the order made: put k is
      element k on queue k, for every position both sides have. */
  lemma QueuesManagerInOrder<A>(queues: seq<QueueId>, elements: seq<Value<A>>)
    ensures QueuesManager(queues).Sends(Iterable(elements)).Ok?
    ensures var events := PutEvents(QueuesManager(queues).Sends(Iterable(elements)).value);
      && |events| == Min(|queues|, |elements|)
      && forall k :: 0 <= k < |events| ==> events[k] == PutEv(queues[k], elements[k])
  {
  }

  /** Whether or not queues repeat, every queue receives exactly the
      elements `zip` pairs with it, in position order. */
  lemma {:induction false} QueuesManagerDelivers<A>(queues: seq<QueueId>, elements: seq<Value<A>>, q: QueueId)
    ensures Received(QueuesManager(queues).Sends(Iterable(elements)).value, q) == Paired(queues, elements, q)
    decreases |queues|
  {
    var s := QueuesManager(queues).Sends(Iterable(elements)).value;
    if queues != [] && elements != [] {
      var first := Send(queues[0], elements[0]);
      var t := QueuesManager(queues[1..]).Sends(Iterable(elements[1..])).value;
      assert s == [first] + t;
      QueuesManagerDelivers(queues[1..], elements[1..], q);
      ReceivedAppend([first], t, q);
      assert [first][..0] == [];
    }
  }

  /** Two output positions bound to one queue: a result `(a, b)` leaves `a`
      and then `b` on that queue. */
  lemma AliasedQueueGetsBoth<A>(q: QueueId, a: Value<A>, b: Value<A>)
    ensures Received(QueuesManager([q, q]).Sends(Iterable([a, b])).value, q) == [a, b]
  {
    QueuesManagerDelivers([q, q], [a, b], q);
    assert [q, q][1..] == [q] && [a, b][1..] == [b];
    assert [q][1..] == [] && [b][1..] == [];
  }
}
