/** The queues that link nodes. Their class is not part of this model; a node
    only puts values on a queue and closes it when leaving its `async with`
    scope. A queue is named by a handle, and the state of every queue of the
    process lives in one `Queues` object, so that two names bound to the same
    queue object are two names for the same handle. */
module Channels {
  import opened Values

  /** The identity of a queue object. */
  type QueueId = nat

  /** A queue's state: every value put on it, oldest first, and whether it
      has been closed (readers then see end-of-stream once it is drained). */
  datatype Channel<A> = Channel(items: seq<Value<A>>, closed: bool)

  /** One `put` of one value onto one queue. */
  datatype Send<A> = Send(to: QueueId, value: Value<A>)

  /** What happened to the queues, in the order it happened: a value put on
      a queue, or a queue closed. */
  datatype Event<A> = PutEv(to: QueueId, value: Value<A>) | CloseEv(queue: QueueId)

  /** The events of the puts in `sends`, in order. */
  function PutEvents<A>(sends: seq<Send<A>>): (events: seq<Event<A>>)
    ensures |events| == |sends|
    ensures forall k :: 0 <= k < |sends| ==> events[k].PutEv? && events[k].to == sends[k].to
  {
    seq(|sends|, k requires 0 <= k < |sends| => PutEv(sends[k].to, sends[k].value))
  }

  /** The events of two runs of puts are those of the first, then those of the second. */
  lemma PutEventsAppend<A>(s: seq<Send<A>>, t: seq<Send<A>>)
    ensures PutEvents(s + t) == PutEvents(s) + PutEvents(t)
  {
    var left := PutEvents(s + t);
    var right := PutEvents(s) + PutEvents(t);
    forall k | 0 <= k < |left|
      ensures left[k] == right[k]
    {
      if k >= |s| {
        assert (s + t)[k] == t[k - |s|];
      }
    }
  }

  /** A run of puts after another, in queue state and in the log, is the
      two runs together. */
  lemma PutsCompose<A>(m: map<QueueId, Channel<A>>, log: seq<Event<A>>, s: seq<Send<A>>, t: seq<Send<A>>)
    ensures Deliver(Deliver(m, s), t) == Deliver(m, s + t)
    ensures log + PutEvents(s) + PutEvents(t) == log + PutEvents(s + t)
  {
    DeliverAppend(m, s, t);
    PutEventsAppend(s, t);
  }

  /** The values that the puts in `sends` place on queue `q`, in order. */
  function Received<A>(sends: seq<Send<A>>, q: QueueId): seq<Value<A>>
  {
    if sends == [] then []
    else
      var last := sends[|sends| - 1];
      Received(sends[..|sends| - 1], q) + (if last.to == q then [last.value] else [])
  }

  /** What two runs of puts place on a queue is what the first places
      followed by what the second places. */
  lemma {:induction false} ReceivedAppend<A>(s: seq<Send<A>>, t: seq<Send<A>>, q: QueueId)
    ensures Received(s + t, q) == Received(s, q) + Received(t, q)
    decreases |t|
  {
    if t == [] {
      assert s + t == s;
    } else {
      ReceivedAppend(s, t[..|t| - 1], q);
      assert (s + t)[..|s + t| - 1] == s + t[..|t| - 1];
    }
  }

  /** A queue that no put addresses receives nothing. */
  lemma {:induction false} ReceivedNothing<A>(s: seq<Send<A>>, q: QueueId)
    requires forall k :: 0 <= k < |s| ==> s[k].to != q
    ensures Received(s, q) == []
    decreases |s|
  {
    if s != [] {
      ReceivedNothing(s[..|s| - 1], q);
    }
  }

  /** The queue states after the puts in `sends`, in order: each queue gets
      the values addressed to it appended and keeps its closed flag. */
  function Deliver<A>(m: map<QueueId, Channel<A>>, sends: seq<Send<A>>): map<QueueId, Channel<A>>
  {
    map q | q in m :: Channel(m[q].items + Received(sends, q), m[q].closed)
  }

  /** Delivering no puts changes no queue. */
  lemma DeliverNothing<A>(m: map<QueueId, Channel<A>>)
    ensures Deliver(m, []) == m
  {
    forall q | q in m
      ensures Deliver(m, [])[q] == m[q]
    {
      assert Received<A>([], q) == [];
    }
  }

  /** Delivering two runs of puts one after the other is delivering both. */
  lemma DeliverAppend<A>(m: map<QueueId, Channel<A>>, s: seq<Send<A>>, t: seq<Send<A>>)
    ensures Deliver(Deliver(m, s), t) == Deliver(m, s + t)
  {
    var left := Deliver(Deliver(m, s), t);
    var right := Deliver(m, s + t);
    forall q | q in m
      ensures left[q] == right[q]
    {
      ReceivedAppend(s, t, q);
    }
    assert left.Keys == right.Keys;
  }

  /** The queue states after closing the queues in `ids`: contents stay,
      and a queue is closed when it was already or when it is in `ids`. */
  function Closing<A>(m: map<QueueId, Channel<A>>, ids: set<QueueId>): map<QueueId, Channel<A>>
  {
    map q | q in m :: Channel(m[q].items, m[q].closed || q in ids)
  }

  /** Closing no queue changes no queue. */
  lemma ClosingNothing<A>(m: map<QueueId, Channel<A>>)
    ensures Closing(m, {}) == m
  {
    assert Closing(m, {}).Keys == m.Keys;
  }

  /** Closing one more queue after a set of them is closing the larger set. */
  lemma ClosingOneMore<A>(m: map<QueueId, Channel<A>>, ids: set<QueueId>, q: QueueId)
    requires q in m
    ensures Closing(m, ids)[q := Channel(Closing(m, ids)[q].items, true)] == Closing(m, ids + {q})
  {
    var left := Closing(m, ids)[q := Channel(Closing(m, ids)[q].items, true)];
    assert left.Keys == Closing(m, ids + {q}).Keys;
  }

  /** The state of every queue of the process, and the puts and closes
      made on them so far, in order. */
  class Queues<A> {
    var channels: map<QueueId, Channel<A>>
    ghost var log: seq<Event<A>>

    constructor (channels: map<QueueId, Channel<A>>)
      ensures this.channels == channels && log == []
    {
      this.channels := channels;
      log := [];
    }

    /** `await queue.put(v)`: the value goes to the end of queue `q`. */
    method Put(q: QueueId, v: Value<A>)
      requires q in channels
      modifies this
      ensures channels == Deliver(old(channels), [Send(q, v)])
      ensures log == old(log) + [PutEv(q, v)]
    {
      log := log + [PutEv(q, v)];
      ghost var before := channels;
      channels := channels[q := Channel(channels[q].items + [v], channels[q].closed)];
      forall p | p in before
        ensures channels[p] == Deliver(before, [Send(q, v)])[p]
      {
        assert [Send(q, v)][..0] == [];
        assert Received([Send(q, v)], p) == Received([], p) + (if p == q then [v] else []);
      }
    }

    /** Leaving `async with queue:` closes queue `q` and keeps its contents. */
    method Close(q: QueueId)
      requires q in channels
      modifies this
      ensures channels == old(channels)[q := Channel(old(channels)[q].items, true)]
      ensures log == old(log) + [CloseEv(q)]
    {
      log := log + [CloseEv(q)];
      channels := channels[q := Channel(channels[q].items, true)];
    }
  }
}
