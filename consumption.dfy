/** The consumption loop `_in`: for every join frame, in order, call the
    transformation with the frame as keyword arguments and broadcast what it
    returns. The first exception ends the loop and propagates. */
module Consumption {
  import opened Values
  import opened Channels
  import opened Broadcast
  import opened Binding

  /** What a run of the loop did: the puts it performed, in order, and how it ended. */
  datatype Trace<A> = Trace(sends: seq<Send<A>>, outcome: Outcome)

  /** One round of the loop: the puts for one frame, or the exception raised
      by the transformation or by the broadcaster. */
  function Step<A>(b: Broadcaster<A>, f: map<string, Value<A>> -> Result<Value<A>>,
                   keys: seq<string>, frame: seq<Value<A>>): (r: Result<seq<Send<A>>>)
    ensures f(ArgsOf(keys, frame)).Err? ==> r == Err(f(ArgsOf(keys, frame)).error)
    ensures r.Err? <==> f(ArgsOf(keys, frame)).Err? || (b.QueuesManager? && f(ArgsOf(keys, frame)).value.Atom?)
    ensures r.Ok? ==> forall k :: 0 <= k < |r.value| ==> r.value[k].to in b.Targets()
  {
    match f(ArgsOf(keys, frame))
    case Err(e) => Err(e)
    case Ok(r) => b.Sends(r)
  }

  /** The loop over `frames`; rounds after the first exception are not run. */
  function Consume<A>(b: Broadcaster<A>, f: map<string, Value<A>> -> Result<Value<A>>,
                      keys: seq<string>, frames: seq<seq<Value<A>>>): (t: Trace<A>)
    ensures forall k :: 0 <= k < |t.sends| ==> t.sends[k].to in b.Targets()
    ensures t.outcome.Failed? ==> exists k :: 0 <= k < |frames| && Step(b, f, keys, frames[k]) == Err(t.outcome.error)
    ensures (exists k :: 0 <= k < |frames| && Step(b, f, keys, frames[k]).Err?) ==> t.outcome.Failed?
    decreases |frames|
  {
    if frames == [] then Trace([], Done)
    else
      var init := frames[..|frames| - 1];
      assert forall k :: 0 <= k < |init| ==> init[k] == frames[k];
      var t := Consume(b, f, keys, init);
      if t.outcome.Failed? then t
      else match Step(b, f, keys, frames[|frames| - 1])
        case Err(e) => Trace(t.sends, Failed(e))
        case Ok(s) =>
          assert forall k :: |t.sends| <= k < |t.sends + s| ==> (t.sends + s)[k] == s[k - |t.sends|];
          Trace(t.sends + s, Done)
  }

  /** Once a prefix of the frames has failed, the later frames change nothing. */
  lemma {:induction false} FailureIsFinal<A>(b: Broadcaster<A>, f: map<string, Value<A>> -> Result<Value<A>>,
                                             keys: seq<string>, frames: seq<seq<Value<A>>>, k: nat)
    requires k <= |frames|
    requires Consume(b, f, keys, frames[..k]).outcome.Failed?
    ensures Consume(b, f, keys, frames) == Consume(b, f, keys, frames[..k])
    decreases |frames|
  {
    if k < |frames| {
      var init := frames[..|frames| - 1];
      assert init[..k] == frames[..k];
      FailureIsFinal(b, f, keys, init, k);
    } else {
      assert frames[..k] == frames;
    }
  }

  /** A round that succeeds after completed rounds appends its puts. */
  lemma ConsumeAdvances<A>(b: Broadcaster<A>, f: map<string, Value<A>> -> Result<Value<A>>,
                           keys: seq<string>, frames: seq<seq<Value<A>>>, i: nat, sent: seq<Send<A>>)
    requires i < |frames|
    requires Consume(b, f, keys, frames[..i]) == Trace(sent, Done)
    requires Step(b, f, keys, frames[i]).Ok?
    ensures Consume(b, f, keys, frames[..i + 1]) == Trace(sent + Step(b, f, keys, frames[i]).value, Done)
  {
    assert frames[..i + 1][..i] == frames[..i];
  }

  /** A round that raises after completed rounds ends the whole loop with
      that exception and no further puts. */
  lemma ConsumeStops<A>(b: Broadcaster<A>, f: map<string, Value<A>> -> Result<Value<A>>,
                        keys: seq<string>, frames: seq<seq<Value<A>>>, i: nat, sent: seq<Send<A>>)
    requires i < |frames|
    requires Consume(b, f, keys, frames[..i]) == Trace(sent, Done)
    requires Step(b, f, keys, frames[i]).Err?
    ensures Consume(b, f, keys, frames) == Trace(sent, Failed(Step(b, f, keys, frames[i]).error))
  {
    assert frames[..i + 1][..i] == frames[..i];
    FailureIsFinal(b, f, keys, frames, i + 1);
  }

  /** When every round succeeds, the loop completes. */
  lemma {:induction false} AllStepsSucceed<A>(b: Broadcaster<A>, f: map<string, Value<A>> -> Result<Value<A>>,
                                              keys: seq<string>, frames: seq<seq<Value<A>>>)
    requires forall j :: 0 <= j < |frames| ==> Step(b, f, keys, frames[j]).Ok?
    ensures Consume(b, f, keys, frames).outcome == Done
    decreases |frames|
  {
    if frames != [] {
      var init := frames[..|frames| - 1];
      assert forall j :: 0 <= j < |init| ==> init[j] == frames[j];
      AllStepsSucceed(b, f, keys, init);
    }
  }

  /** If rounds 0..k-1 succeed and round k raises, the loop ends with that
      exception, and the puts of rounds 0..k-1, and only those, have been done. */
  lemma FirstFailureStops<A>(b: Broadcaster<A>, f: map<string, Value<A>> -> Result<Value<A>>,
                             keys: seq<string>, frames: seq<seq<Value<A>>>, k: nat)
    requires k < |frames|
    requires forall j :: 0 <= j < k ==> Step(b, f, keys, frames[j]).Ok?
    requires Step(b, f, keys, frames[k]).Err?
    ensures Consume(b, f, keys, frames[..k]).outcome == Done
    ensures Consume(b, f, keys, frames) ==
            Trace(Consume(b, f, keys, frames[..k]).sends, Failed(Step(b, f, keys, frames[k]).error))
  {
    var pre := frames[..k];
    assert forall j :: 0 <= j < |pre| ==> pre[j] == frames[j];
    AllStepsSucceed(b, f, keys, pre);
    assert frames[..k + 1][..k] == pre;
    FailureIsFinal(b, f, keys, frames, k + 1);
  }

  /** What queue `q` receives in each round over `frames`; a round that
      raises contributes nothing. */
  ghost function PerRound<A>(b: Broadcaster<A>, f: map<string, Value<A>> -> Result<Value<A>>,
                             keys: seq<string>, frames: seq<seq<Value<A>>>, q: QueueId): (rounds: seq<seq<Value<A>>>)
    ensures |rounds| == |frames|
  {
    seq(|frames|, j requires 0 <= j < |frames| =>
      var s := Step(b, f, keys, frames[j]);
      if s.Ok? then Received(s.value, q) else [])
  }

  /** The rounds before the last one are the rounds over the frames before
      the last one. */
  lemma PerRoundInit<A>(b: Broadcaster<A>, f: map<string, Value<A>> -> Result<Value<A>>,
                        keys: seq<string>, frames: seq<seq<Value<A>>>, q: QueueId)
    requires frames != []
    ensures PerRound(b, f, keys, frames, q)[..|frames| - 1] == PerRound(b, f, keys, frames[..|frames| - 1], q)
  {
  }

  /** When every round succeeds, the loop completes and each queue receives
      what every round puts on it, round after round. */
  lemma {:induction false} ConsumeCollects<A>(b: Broadcaster<A>, f: map<string, Value<A>> -> Result<Value<A>>,
                                              keys: seq<string>, frames: seq<seq<Value<A>>>, q: QueueId)
    requires forall j :: 0 <= j < |frames| ==> Step(b, f, keys, frames[j]).Ok?
    ensures Consume(b, f, keys, frames).outcome == Done
    ensures Received(Consume(b, f, keys, frames).sends, q) == Flatten(PerRound(b, f, keys, frames, q))
    decreases |frames|
  {
    if frames != [] {
      var n := |frames| - 1;
      var init := frames[..n];
      assert forall j :: 0 <= j < |init| ==> init[j] == frames[j];
      ConsumeCollects(b, f, keys, init, q);
      var t := Consume(b, f, keys, init);
      var step := Step(b, f, keys, frames[n]).value;
      assert frames[..n] == init;
      ConsumeAdvances(b, f, keys, frames, n, t.sends);
      assert frames[..n + 1] == frames;
      var rounds := PerRound(b, f, keys, frames, q);
      PerRoundInit(b, f, keys, frames, q);
      calc {
        Received(Consume(b, f, keys, frames).sends, q);
        Received(t.sends + step, q);
        { ReceivedAppend(t.sends, step, q); }
        Received(t.sends, q) + Received(step, q);
        Flatten(rounds[..n]) + rounds[n];
        Flatten(rounds);
      }
    }
  }

  /** Single output: when the transformation succeeds on every frame, the
      queue receives one value per frame, the result itself, in frame order. */
  lemma {:induction false} SingleOutputForwards<A>(queue: QueueId, f: map<string, Value<A>> -> Result<Value<A>>,
                                                   keys: seq<string>, frames: seq<seq<Value<A>>>)
    requires forall j :: 0 <= j < |frames| ==> f(ArgsOf(keys, frames[j])).Ok?
    ensures Consume(QueueManager(queue), f, keys, frames).outcome == Done
    ensures var got := Received(Consume(QueueManager(queue), f, keys, frames).sends, queue);
      && |got| == |frames|
      && forall j :: 0 <= j < |frames| ==> got[j] == f(ArgsOf(keys, frames[j])).value
  {
    var b := QueueManager(queue);
    var rounds := PerRound(b, f, keys, frames, queue);
    forall j | 0 <= j < |frames|
      ensures Step(b, f, keys, frames[j]).Ok?
      ensures rounds[j] == [f(ArgsOf(keys, frames[j])).value]
    {
      var r := f(ArgsOf(keys, frames[j])).value;
      assert Step(b, f, keys, frames[j]) == Ok([Send(queue, r)]);
      QueueManagerForwards(queue, r, queue);
    }
    ConsumeCollects(b, f, keys, frames, queue);
    FlattenSingletons(rounds);
  }

  /** Several outputs with distinct queues: when the transformation returns on
      every frame an iterable with an element at position i, the i-th queue
      receives one value per frame, that element, in frame order. */
  lemma MultiOutputSplits<A>(queues: seq<QueueId>, f: map<string, Value<A>> -> Result<Value<A>>,
                             keys: seq<string>, frames: seq<seq<Value<A>>>, i: nat)
    requires Distinct(queues)
    requires i < |queues|
    requires forall j :: 0 <= j < |frames| ==>
      f(ArgsOf(keys, frames[j])).Ok? && f(ArgsOf(keys, frames[j])).value.Iterable? &&
      i < |f(ArgsOf(keys, frames[j])).value.elements|
    ensures Consume(QueuesManager(queues), f, keys, frames).outcome == Done
    ensures var got := Received(Consume(QueuesManager(queues), f, keys, frames).sends, queues[i]);
      && |got| == |frames|
      && forall j :: 0 <= j < |frames| ==> got[j] == f(ArgsOf(keys, frames[j])).value.elements[i]
  {
    var b := QueuesManager(queues);
    var rounds := PerRound(b, f, keys, frames, queues[i]);
    forall j | 0 <= j < |frames|
      ensures Step(b, f, keys, frames[j]).Ok?
      ensures rounds[j] == [f(ArgsOf(keys, frames[j])).value.elements[i]]
    {
      var r := f(ArgsOf(keys, frames[j])).value;
      assert Step(b, f, keys, frames[j]) == b.Sends(r);
      QueuesManagerPairs(queues, r.elements, i);
    }
    ConsumeCollects(b, f, keys, frames, queues[i]);
    FlattenSingletons(rounds);
  }
}
