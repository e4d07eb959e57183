/** The node class that `node_sub` builds around a transformation: it binds its
    declared queues at construction and, when run, consumes its inputs inside
    one scope per output, closing every output on the way out. */
module Node {
  import opened Values
  import opened Channels
  import opened ZipJoin
  import opened Broadcast
  import opened Binding
  import opened Consumption
  import opened Scopes

  class SubroutineNode<A> {
    /** The declarative tag given to `node_sub`. */
    const tag: string
    /** The declared input and output names given to `node_sub`, in order. */
    const inputNames: seq<string>
    const outputNames: seq<string>
    /** The wrapped transformation: keyword arguments to a result or an exception. */
    const f: map<string, Value<A>> -> Result<Value<A>>
    /** `self._inputs` and `self._outputs`: declared name to queue handle. */
    const inputs: map<string, QueueId>
    const outputs: map<string, QueueId>
    /** `self._queue_manager`. */
    const queueManager: Broadcaster<A>
    /** The scope events of this node so far, written by `WithOut` itself to
        record how its scopes nest. An `Exited` event here is not evidence that
        a queue was closed: only the log of the queue store, extended by the
        actual `Close` calls, records that. */
    ghost var scopeLog: seq<ScopeEvent>

    /** The state the constructor establishes. */
    ghost predicate Valid()
    {
      && inputs.Keys == (set n | n in inputNames)
      && outputs.Keys == (set n | n in outputNames)
      && queueManager == Choose(outputNames, outputs)
    }

    constructor (tag: string, inputNames: seq<string>, outputNames: seq<string>,
                 f: map<string, Value<A>> -> Result<Value<A>>, kwargs: map<string, QueueId>)
      requires Configure(inputNames, outputNames, kwargs).Ok?
      ensures Valid() && scopeLog == []
      ensures this.tag == tag && this.inputNames == inputNames && this.outputNames == outputNames && this.f == f
      ensures inputs == Configure(inputNames, outputNames, kwargs).value.inputs
      ensures outputs == Configure(inputNames, outputNames, kwargs).value.outputs
    {
      var bound := Configure(inputNames, outputNames, kwargs).value;
      this.tag := tag;
      this.inputNames := inputNames;
      this.outputNames := outputNames;
      this.f := f;
      inputs := bound.inputs;
      outputs := bound.outputs;
      queueManager := Choose(outputNames, bound.outputs);
      scopeLog := [];
    }

    /** `SubrutineNode(**kwargs)`: a node is produced exactly when every
        declared name is among the keyword arguments; otherwise construction
        raises `AttributeError` for the first missing name and no node exists. */
    static method Create(tag: string, inputNames: seq<string>, outputNames: seq<string>,
                         f: map<string, Value<A>> -> Result<Value<A>>, kwargs: map<string, QueueId>)
      returns (r: Result<SubroutineNode<A>>)
      ensures r.Ok? <==> forall n :: n in inputNames + outputNames ==> n in kwargs
      ensures r.Err? ==> exists i :: FirstMissing(inputNames + outputNames, kwargs, i)
                                     && r.error == AttributeError((inputNames + outputNames)[i])
      ensures r.Ok? ==>
        && fresh(r.value) && r.value.Valid() && r.value.scopeLog == []
        && r.value.tag == tag && r.value.inputNames == inputNames
        && r.value.outputNames == outputNames && r.value.f == f
        && (forall n :: n in r.value.inputs ==> n in kwargs && r.value.inputs[n] == kwargs[n])
        && (forall n :: n in r.value.outputs ==> n in kwargs && r.value.outputs[n] == kwargs[n])
    {
      var bound := Configure(inputNames, outputNames, kwargs);
      if bound.Err? {
        return Err(bound.error);
      }
      var node := new SubroutineNode(tag, inputNames, outputNames, f, kwargs);
      return Ok(node);
    }

    /** `__repr__`: the tag followed by an empty argument list. */
    function Display(): (s: string)
      ensures |s| == |tag| + 2 && s[..|tag|] == tag && s[|tag|..] == "()"
    {
      tag + "()"
    }

    /** Every queue the node holds exists in the queue store. */
    ghost predicate BoundIn(queues: Queues<A>)
      reads queues
    {
      && inputs.Values <= queues.channels.Keys
      && outputs.Values <= queues.channels.Keys
    }

    /** The contents of the input queues, in the key order of `self._inputs`. */
    function InputStreams(queues: Queues<A>): (streams: seq<seq<Value<A>>>)
      requires Valid() && BoundIn(queues)
      reads queues
      ensures |streams| == |Dedup(inputNames)|
      ensures forall i :: 0 <= i < |streams| ==>
        && Dedup(inputNames)[i] in inputs && inputs[Dedup(inputNames)[i]] in queues.channels
        && streams[i] == queues.channels[inputs[Dedup(inputNames)[i]]].items
    {
      var keys := Dedup(inputNames);
      assert forall k :: k in keys ==> k in inputs && inputs[k] in inputs.Values;
      seq(|keys|, i requires 0 <= i < |keys| && keys[i] in inputs && inputs[keys[i]] in queues.channels reads queues => queues.channels[inputs[keys[i]]].items)
    }

    /** The keyword arguments of every join frame name exactly the
        declared inputs. */
    lemma FrameArgumentNames(queues: Queues<A>, j: nat)
      requires Valid() && BoundIn(queues)
      requires j < |Zip(InputStreams(queues))|
      ensures ArgsOf(Dedup(inputNames), Zip(InputStreams(queues))[j]).Keys == inputs.Keys
    {
      ArgsOfPairs(Dedup(inputNames), Zip(InputStreams(queues))[j]);
      DedupNames(inputNames);
    }

    /** In the keyword arguments of join frame j, declared input n is bound
        to the j-th value of the queue bound to n. */
    lemma FrameArguments(queues: Queues<A>, j: nat, n: string)
      requires Valid() && BoundIn(queues) && n in inputNames
      requires j < |Zip(InputStreams(queues))|
      ensures n in inputs && inputs[n] in queues.channels && j < |queues.channels[inputs[n]].items|
      ensures var args := ArgsOf(Dedup(inputNames), Zip(InputStreams(queues))[j]);
        n in args && args[n] == queues.channels[inputs[n]].items[j]
    {
      var keys := Dedup(inputNames);
      var streams := InputStreams(queues);
      assert n in keys;
      var i :| 0 <= i < |keys| && keys[i] == n;
      ZipLockstep(streams);
      ArgsOfPairs(keys, Zip(streams)[j]);
      assert Shortest(streams) <= |streams[i]|;
    }

    /** The consumption loop `_in` over the given input contents. */
    ghost function Planned(streams: seq<seq<Value<A>>>): Trace<A>
    {
      Consume(queueManager, f, Dedup(inputNames), Zip(streams))
    }

    /** The broadcaster puts on the output queues and on nothing else. */
    lemma TargetsAreOutputs()
      requires Valid()
      ensures queueManager.Targets() == outputs.Values
    {
      forall q | q in outputs.Values ensures q in queueManager.Targets() {
        var n :| n in outputs && outputs[n] == q;
        assert n in outputNames;
      }
    }

    /** A node with one declared output: when the transformation succeeds on
        every join frame, that output's queue receives one value per frame,
        the transformation's result itself, in frame order. */
    lemma DeclaredOutputForwards(streams: seq<seq<Value<A>>>)
      requires Valid() && |outputNames| == 1
      requires forall j :: 0 <= j < |Zip(streams)| ==> f(ArgsOf(Dedup(inputNames), Zip(streams)[j])).Ok?
      ensures Planned(streams).outcome == Done
      ensures var got := Received(Planned(streams).sends, outputs[outputNames[0]]);
        && |got| == |Zip(streams)|
        && forall j :: 0 <= j < |got| ==> got[j] == f(ArgsOf(Dedup(inputNames), Zip(streams)[j])).value
    {
      SingleOutputForwards(outputs[outputNames[0]], f, Dedup(inputNames), Zip(streams));
    }

    /** A node with several declared outputs bound to distinct queues: when
        the transformation returns, on every join frame, an iterable with an
        element at position i, the queue of the i-th declared output receives
        one value per frame, that element, in frame order. */
    lemma DeclaredOutputSplits(streams: seq<seq<Value<A>>>, i: nat)
      requires Valid() && |outputNames| != 1 && i < |outputNames|
      requires forall a, b :: 0 <= a < b < |outputNames| ==> outputs[outputNames[a]] != outputs[outputNames[b]]
      requires forall j :: 0 <= j < |Zip(streams)| ==>
        && f(ArgsOf(Dedup(inputNames), Zip(streams)[j])).Ok?
        && f(ArgsOf(Dedup(inputNames), Zip(streams)[j])).value.Iterable?
        && i < |f(ArgsOf(Dedup(inputNames), Zip(streams)[j])).value.elements|
      ensures Planned(streams).outcome == Done
      ensures var got := Received(Planned(streams).sends, outputs[outputNames[i]]);
        && |got| == |Zip(streams)|
        && forall j :: 0 <= j < |got| ==> got[j] == f(ArgsOf(Dedup(inputNames), Zip(streams)[j])).value.elements[i]
    {
      var queues := queueManager.outputs;
      assert queueManager == QueuesManager(queues);
      assert Distinct(queues);
      MultiOutputSplits(queues, f, Dedup(inputNames), Zip(streams), i);
    }

    /** One round of `_in`: the frame becomes keyword arguments, the
        transformation is called on them and its result is broadcast. The
        queues receive exactly the puts of `Step`, or nothing when the round
        raises, and the exception is returned. */
    method Round(queues: Queues<A>, keys: seq<string>, frame: seq<Value<A>>) returns (outcome: Outcome)
      requires Valid() && BoundIn(queues)
      modifies queues
      ensures Step(queueManager, f, keys, frame).Err? ==>
        && outcome == Failed(Step(queueManager, f, keys, frame).error)
        && queues.channels == old(queues.channels) && queues.log == old(queues.log)
      ensures Step(queueManager, f, keys, frame).Ok? ==>
        && outcome == Done
        && queues.channels == Deliver(old(queues.channels), Step(queueManager, f, keys, frame).value)
        && queues.log == old(queues.log) + PutEvents(Step(queueManager, f, keys, frame).value)
    {
      TargetsAreOutputs();
      var data := f(ArgsOf(keys, frame));
      if data.Err? {
        return Failed(data.error);
      }
      outcome := queueManager.Put(queues, data.value);
    }

    /** `_in`: the queues receive exactly the puts of the loop over the join
        of the inputs, in order, nothing is closed here, and the loop's
        exception, if any, is returned. */
    method In(queues: Queues<A>, ghost streams: seq<seq<Value<A>>>) returns (outcome: Outcome)
      requires Valid() && BoundIn(queues) && streams == InputStreams(queues)
      modifies queues
      ensures outcome == Planned(streams).outcome
      ensures queues.channels == Deliver(old(queues.channels), Planned(streams).sends)
      ensures queues.log == old(queues.log) + PutEvents(Planned(streams).sends)
    {
      var keys := Dedup(inputNames);
      var frames := Zip(InputStreams(queues));
      ghost var start := queues.channels;
      ghost var log0 := queues.log;
      ghost var sent: seq<Send<A>> := [];
      DeliverNothing(start);
      var i := 0;
      while i < |frames|
        invariant 0 <= i <= |frames|
        invariant BoundIn(queues)
        invariant Consume(queueManager, f, keys, frames[..i]) == Trace(sent, Done)
        invariant queues.channels == Deliver(start, sent)
        invariant queues.log == log0 + PutEvents(sent)
      {
        ghost var step := Step(queueManager, f, keys, frames[i]);
        outcome := Round(queues, keys, frames[i]);
        if outcome.Failed? {
          ConsumeStops(queueManager, f, keys, frames, i, sent);
          return;
        }
        ConsumeAdvances(queueManager, f, keys, frames, i, sent);
        PutsCompose(start, log0, sent, step.value);
        sent := sent + step.value;
        i := i + 1;
      }
      assert frames[..i] == frames;
      outcome := Done;
    }

    /** The output queues named by one call of `_with_out`. */
    ghost function Scoped(names: seq<string>): set<QueueId>
    {
      set n | n in names && n in outputs :: outputs[n]
    }

    /** The closes made when leaving the scopes of `names`: the innermost,
        last-named scope is left first. */
    ghost function ScopeCloses(names: seq<string>): (closes: seq<Event<A>>)
      requires forall n :: n in names ==> n in outputs
      ensures |closes| == |names|
      decreases |names|
    {
      if names == [] then [] else ScopeCloses(names[1..]) + [CloseEv(outputs[names[0]])]
    }

    /** The queues of the scopes of o0..o(n-1) are closed in the order
        o(n-1), ..., o0: exactly the reverse of declared order. */
    lemma {:induction false} ScopeClosesOrder(names: seq<string>)
      requires forall n :: n in names ==> n in outputs
      ensures forall k :: 0 <= k < |names| ==>
        ScopeCloses(names)[k] == CloseEv(outputs[names[|names| - 1 - k]])
      decreases |names|
    {
      if names != [] {
        var rest := names[1..];
        ScopeClosesOrder(rest);
        forall k | 0 <= k < |names|
          ensures ScopeCloses(names)[k] == CloseEv(outputs[names[|names| - 1 - k]])
        {
          if k < |rest| {
            assert rest[|rest| - 1 - k] == names[|names| - 1 - k];
          }
        }
      }
    }

    /** A log that grows by puts and then by the closes of the scopes of
        `names` holds, after its old part, those puts and then one close per
        output, in reverse declared order. */
    lemma PutsThenCloses(before: seq<Event<A>>, puts: seq<Event<A>>, names: seq<string>)
      requires forall n :: n in names ==> n in outputs
      ensures var events := (before + puts + ScopeCloses(names))[|before|..];
        && |events| == |puts| + |names|
        && events[..|puts|] == puts
        && forall k :: |puts| <= k < |events| ==> events[k] == CloseEv(outputs[names[|events| - 1 - k]])
    {
      ScopeClosesOrder(names);
      var closes := ScopeCloses(names);
      var events := (before + puts + closes)[|before|..];
      assert events == puts + closes;
      assert forall k :: |puts| <= k < |events| ==> events[k] == closes[k - |puts|];
    }

    /** Leaving the scope of one more, outer output closes its queue after
        the queues of the inner scopes. */
    lemma ScopeClosesCons(log: seq<Event<A>>, outQueue: string, outQueues: seq<string>)
      requires outQueue in outputs && forall n :: n in outQueues ==> n in outputs
      ensures log + ScopeCloses(outQueues) + [CloseEv(outputs[outQueue])] == log + ScopeCloses([outQueue] + outQueues)
    {
      assert ([outQueue] + outQueues)[1..] == outQueues;
    }

    /** The scope of one more output adds its queue to those closed. */
    lemma ScopedCons(outQueue: string, outQueues: seq<string>)
      requires outQueue in outputs
      ensures Scoped([outQueue] + outQueues) == Scoped(outQueues) + {outputs[outQueue]}
    {
      var names := [outQueue] + outQueues;
      forall q | q in Scoped(names) ensures q in Scoped(outQueues) + {outputs[outQueue]} {
        var n :| n in names && n in outputs && outputs[n] == q;
        if n != outQueue {
          assert n in outQueues;
        }
      }
      forall q | q in Scoped(outQueues) ensures q in Scoped(names) {
        var n :| n in outQueues && n in outputs && outputs[n] == q;
        assert n in names;
      }
      assert outQueue in names;
    }

    /** `_with_out(out_queue, *out_queues)`: enter the scope of `outQueue`,
        recurse into the remaining outputs or, in the innermost scope, run the
        consumption loop, then leave the scope, closing the queue whether the
        body ended normally or by an exception. All puts therefore happen
        before any of these queues is closed. */
    method WithOut(queues: Queues<A>, outQueue: string, outQueues: seq<string>,
                   ghost streams: seq<seq<Value<A>>>) returns (outcome: Outcome)
      requires Valid() && BoundIn(queues) && streams == InputStreams(queues)
      requires outQueue in outputs && forall n :: n in outQueues ==> n in outputs
      modifies this, queues
      ensures scopeLog == old(scopeLog) + Nesting(outQueue, outQueues)
      ensures outcome == Planned(streams).outcome
      ensures queues.channels ==
        Closing(Deliver(old(queues.channels), Planned(streams).sends), Scoped([outQueue] + outQueues))
      ensures queues.log ==
        old(queues.log) + PutEvents(Planned(streams).sends) + ScopeCloses([outQueue] + outQueues)
      decreases |outQueues|
    {
      ghost var log0 := scopeLog;
      scopeLog := scopeLog + [Entered(outQueue)];
      var queue := outputs[outQueue];
      ghost var delivered := Deliver(queues.channels, Planned(streams).sends);
      ghost var closedInside := Scoped(outQueues);
      ghost var puts := queues.log + PutEvents(Planned(streams).sends);
      ghost var inner: seq<ScopeEvent>;
      if outQueues != [] {
        assert [outQueues[0]] + outQueues[1..] == outQueues;
        outcome := WithOut(queues, outQueues[0], outQueues[1..], streams);
        inner := Nesting(outQueues[0], outQueues[1..]);
        assert scopeLog == log0 + [Entered(outQueue)] + inner;
        assert queues.channels == Closing(delivered, closedInside);
        assert queues.log == puts + ScopeCloses(outQueues);
      } else {
        inner := [Consumed];
        scopeLog := scopeLog + inner;
        outcome := In(queues, streams);
        assert scopeLog == log0 + [Entered(outQueue)] + inner;
        assert closedInside == {};
        ClosingNothing(delivered);
        assert queues.log == puts + ScopeCloses(outQueues);
      }
      ClosingOneMore(delivered, closedInside, queue);
      queues.Close(queue);
      ScopedCons(outQueue, outQueues);
      ScopeClosesCons(puts, outQueue, outQueues);
      NestingAppends(log0, outQueue, outQueues, inner);
      scopeLog := scopeLog + [Exited(outQueue)];
    }

    /** `run`: with no declared output, `_with_out` lacks its required
        argument and fails before anything happens. Otherwise the output
        queues receive the puts of the consumption loop, the scopes are
        entered in declared order and left in reverse order around the loop,
        and every output queue ends closed, whether the loop completed or the
        transformation raised; the loop's exception, if any, is returned. */
    method Run(queues: Queues<A>) returns (outcome: Outcome)
      requires Valid() && BoundIn(queues)
      modifies this, queues
      ensures outputNames == [] ==>
        && outcome == Failed(MissingOutQueue) && scopeLog == old(scopeLog)
        && queues.channels == old(queues.channels) && queues.log == old(queues.log)
      ensures outputNames != [] ==>
        && outcome == Planned(old(InputStreams(queues))).outcome
        && scopeLog == old(scopeLog) + Nesting(outputNames[0], outputNames[1..])
        && queues.channels == Closing(Deliver(old(queues.channels), Planned(old(InputStreams(queues))).sends), outputs.Values)
        && queues.log == old(queues.log) + PutEvents(Planned(old(InputStreams(queues))).sends) + ScopeCloses(outputNames)
      ensures outputNames != [] ==>
        var puts := PutEvents(Planned(old(InputStreams(queues))).sends);
        var n := |outputNames|;
        var events := queues.log[|old(queues.log)|..];
        && |events| == |puts| + n
        && events[..|puts|] == puts
        && (forall k :: |puts| <= k < |events| ==> events[k] == CloseEv(outputs[outputNames[|events| - 1 - k]]))
      ensures outputNames != [] ==> forall q :: q in old(queues.channels) ==>
        && q in queues.channels
        && queues.channels[q].items == old(queues.channels[q].items) + Received(Planned(old(InputStreams(queues))).sends, q)
        && (queues.channels[q].closed <==> old(queues.channels[q].closed) || q in outputs.Values)
      ensures outputNames != [] ==>
        var n := |outputNames|;
        var log := scopeLog[|old(scopeLog)|..];
        && |log| == 2 * n + 1
        && (forall k :: 0 <= k < n ==> log[k] == Entered(outputNames[k]))
        && log[n] == Consumed
        && (forall k :: n < k <= 2 * n ==> log[k] == Exited(outputNames[2 * n - k]))
    {
      if outputNames == [] {
        return Failed(MissingOutQueue);
      }
      outcome := WithOut(queues, outputNames[0], outputNames[1..], InputStreams(queues));
      assert [outputNames[0]] + outputNames[1..] == outputNames;
      NestingAfter(old(scopeLog), outputNames);
      ghost var puts := PutEvents(Planned(old(InputStreams(queues))).sends);
      assert queues.log == old(queues.log) + puts + ScopeCloses(outputNames);
      PutsThenCloses(old(queues.log), puts, outputNames);
      assert Scoped(outputNames) == outputs.Values by {
        forall q | q in outputs.Values ensures q in Scoped(outputNames) {
          var n :| n in outputs && outputs[n] == q;
          assert n in outputNames;
        }
      }
    }
  }
}
