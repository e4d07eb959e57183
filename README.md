# Subroutine pipeline node

This project models the pipeline node of `assemply/node.py`. The decorator
`node_sub(yaml_tag, inputs, outputs)` wraps a transformation `f` into the
class `SubrutineNode`:

- Construction binds every declared input and output name to a queue taken
  from the keyword arguments.
- `run` enters one `async with` scope per output queue.
- In the innermost scope it joins the input queues in lockstep (`azip`). It
  calls `f` with each join frame as keyword arguments.
- It hands each result to an output broadcaster:
  - `QueueManager` when there is exactly one output;
  - `QueuesManager`, which pairs queues with the result's elements as `zip`
    does, otherwise.
- Every output queue is closed as its scope is left, whether the loop ended
  normally or by an exception.

Modules, following the structure of the program:

- `Values`: the values that travel on queues, exceptions, and results.
- `ZipJoin`: the lockstep join of the input streams (`azip`).
- `Binding`: name-to-queue binding at construction, and the keyword arguments
  of one frame.
- `Channels`: the queue store and its `put` and close operations. The store
  also keeps a log of these operations in the order they happen, so the
  model can state that every put of a run comes before the closes.
- `Broadcast`: `QueueManager`, `QueuesManager`, and the choice between them.
- `Consumption`: the consumption loop `_in`, as a trace of puts and an
  outcome.
- `Scopes`: the nesting of output scopes made by `_with_out`.
- `Node`: the class `SubroutineNode` with `__init__`, `__repr__`, `_in`,
  `_with_out` and `run`.

### Arity of multi-output results

The multi-output broadcaster does not check arity. It pairs the output
queues with the result's elements by `zip` (`assemply/node.py:60`), which
stops at the shorter side and raises nothing. The model does the same.

## Model

| member | source | states |
|---|---|---|
| ZipJoin.Zip | assemply/node.py:101 | every join frame has one component per input stream |
| ZipJoin.Shortest | assemply/node.py:101 | the length of the shortest input stream: no stream is shorter, and some stream has exactly that length |
| ZipJoin.ZipLockstep | assemply/node.py:101 | for one or more inputs, the join yields exactly as many frames as the shortest stream has items, and component i of frame j is item j of stream i |
| Binding.Dedup | assemply/node.py:83 | the keys of `self._inputs` are the declared names without repeats, each declared name among them, and they equal the declared list when it has no repeats |
| Binding.DedupFirstOccurrence | assemply/node.py:83 | the keys of `self._inputs` come in the order in which the names first occur in the declared list |
| Binding.DedupNames | assemply/node.py:83 | the keys of `self._inputs` are, as a set, exactly the declared input names |
| Binding.Select | assemply/node.py:83-86 | the selection succeeds exactly when every name is a keyword argument; it then maps each declared name to its argument and nothing else; otherwise the error is `AttributeError` for the first missing name |
| Binding.Configure | assemply/node.py:82-86 | binding succeeds exactly when every input and output name is supplied, and binds each to its argument; otherwise it reports the first missing name, inputs looked up before outputs |
| Binding.ArgsOf | assemply/node.py:102 | `dict(zip(keys, frame))` has a key exactly for each name that `zip` pairs with a component, and each key maps to a component paired with that name |
| Binding.ArgsOfPairs | assemply/node.py:102 | `dict(zip(keys, frame))` over distinct keys maps each input name to its component of the frame and holds no other key |
| Channels.Queues.Put | assemply/node.py:52 | a put appends the value to its queue, leaves every other queue unchanged, and adds one put event to the log of queue operations |
| Channels.Queues.Close | assemply/node.py:94 | leaving a queue's scope closes that queue and keeps its contents; no other queue changes; one close event is added to the log of queue operations |
| Channels.DeliverAppend | assemply/node.py:59-61 | two runs of puts one after the other have the effect of both runs together, in order |
| Channels.PutsCompose | assemply/node.py:59-61 | two runs of puts one after the other have the effect, and leave the log entries, of both runs together, in order |
| Channels.PutEventsAppend | assemply/node.py:59-61 | the log entries of two runs of puts are those of the first run followed by those of the second |
| Channels.ClosingOneMore | assemply/node.py:93-96 | closing one more queue after a set of queues is closing the larger set |
| Broadcast.Choose | assemply/node.py:88 | the broadcaster is the single-output one exactly when one output is declared, and then puts on the queue of the first declared name; otherwise it holds one queue per declared name, queue i being the queue bound to name i; it puts on no other queue |
| Broadcast.Broadcaster.Sends | assemply/node.py:47-61 | the single-output broadcaster always succeeds; the multi-output one fails exactly when the result is not iterable; every put goes to one of its queues; which element goes to which queue, and in what order, is stated by `QueuesManagerInOrder` and `QueuesManagerDelivers` |
| Broadcast.Broadcaster.Put | assemply/node.py:51-61 | `put(r)` performs the puts of `Sends(r)` in order, or raises before any put and leaves every queue as it was |
| Broadcast.QueueManagerForwards | assemply/node.py:51-52 | with one output, the result itself goes on that queue, unchanged, and nothing goes on any other queue |
| Broadcast.QueuesManagerPairs | assemply/node.py:59-61 | with several distinct outputs, queue i receives element i of the result when there is one, and nothing otherwise; a length mismatch raises no error |
| Broadcast.QueuesManagerInOrder | assemply/node.py:59-61 | the multi-output broadcaster accepts any iterable result and makes one put per position both sides have, in position order: put k is element k on queue k |
| Broadcast.QueuesManagerDelivers | assemply/node.py:59-61 | whether or not queues repeat, each queue receives exactly the elements that `zip` pairs with it, in position order |
| Broadcast.AliasedQueueGetsBoth | assemply/node.py:59-61 | when two output positions are bound to one queue, a result `(a, b)` leaves `a` and then `b` on that queue |
| Consumption.FailureIsFinal | assemply/node.py:100-104 | once a round has raised, later frames add no puts and do not change the outcome |
| Consumption.Step | assemply/node.py:102-104 | one round raises exactly when `f` raises (with `f`'s exception) or the multi-output broadcaster gets a non-iterable result; its puts go only to the broadcaster's queues |
| Consumption.Consume | assemply/node.py:101-104 | every put of the loop goes to one of the broadcaster's queues; the loop fails if and only if some round raises, and then with the exception that a round raised |
| Consumption.ConsumeAdvances | assemply/node.py:103-104 | a successful round after completed rounds appends exactly its puts |
| Consumption.ConsumeStops | assemply/node.py:103-104 | a round that raises ends the loop with that exception, and no put is made after it |
| Consumption.AllStepsSucceed | assemply/node.py:101-104 | when `f` and the broadcaster succeed on every frame, the loop completes |
| Consumption.FirstFailureStops | assemply/node.py:101-104 | if round k is the first that raises, the puts of rounds 0..k-1 have all been made, none after them, and the loop ends with that exception |
| Consumption.ConsumeCollects | assemply/node.py:101-104 | when every round succeeds, the loop completes and each queue receives what each round puts on it, round after round |
| Consumption.SingleOutputForwards | assemply/node.py:101-104 | with one output and `f` succeeding on every frame, the queue receives one value per frame: `f`'s result for that frame, unchanged, in frame order |
| Consumption.MultiOutputSplits | assemply/node.py:101-104 | with distinct outputs and every result iterable with an element i, output i receives one value per frame: element i of that frame's result, in frame order |
| Scopes.NestingOrder | assemply/node.py:93-98 | for outputs o0..o(n-1), the scopes are entered in declared order, the loop runs once inside all of them, and the scopes are left (closing the queues) in reverse declared order |
| Scopes.Nesting | assemply/node.py:93-98 | `_with_out` enters and leaves one scope per output, enters the first output's scope first and leaves it last, and runs the loop inside |
| Scopes.NestingAppends | assemply/node.py:93-98 | the events of one `_with_out` call are its entry, then its body's events, then its exit |
| Scopes.NestingAfter | assemply/node.py:93-98 | the events that one call appends to a log are entries in declared order, one loop run, and exits in reverse declared order |
| Node.SubroutineNode.constructor | assemply/node.py:81-88 | the node binds its declared inputs and outputs to the supplied queues and builds the broadcaster that `Choose` gives |
| Node.SubroutineNode.Create | assemply/node.py:81-88 | a node exists exactly when every declared name is supplied; otherwise construction raises `AttributeError` for the first missing name |
| Node.SubroutineNode.Display | assemply/node.py:90-91 | the representation is exactly the tag followed by the two characters `()`, two characters longer than the tag |
| Node.SubroutineNode.InputStreams | assemply/node.py:101 | one input stream per key of `self._inputs`, in key order; stream i is the contents of the queue bound to key i |
| Node.SubroutineNode.FrameArgumentNames | assemply/node.py:101-102 | the keyword arguments of every join frame name exactly the declared inputs |
| Node.SubroutineNode.FrameArguments | assemply/node.py:101-103 | in frame j, `f` receives each declared input name bound to the j-th value of the queue bound to that name |
| Node.SubroutineNode.TargetsAreOutputs | assemply/node.py:88 | the node's broadcaster puts on exactly its bound output queues |
| Node.SubroutineNode.DeclaredOutputForwards | assemply/node.py:101-104 | with one declared output and `f` succeeding on every frame, the loop completes and the output queue receives `f`'s result for each frame, in frame order |
| Node.SubroutineNode.DeclaredOutputSplits | assemply/node.py:57-61 | with several distinct outputs and every result iterable with an element i, the loop completes and the queue of declared output i receives element i of each frame's result, in frame order |
| Node.SubroutineNode.ScopedCons | assemply/node.py:93-96 | entering one more output scope adds that output's queue to the queues closed |
| Node.SubroutineNode.ScopeClosesCons | assemply/node.py:93-96 | leaving one more, outer scope appends its close after the closes of the inner scopes |
| Node.SubroutineNode.ScopeClosesOrder | assemply/node.py:93-98 | the scopes of outputs o0..o(n-1) close their queues in reverse declared order |
| Node.SubroutineNode.PutsThenCloses | assemply/node.py:93-98 | a log extended by the loop's puts and then the scope closes holds, after its old part, all the puts first and then one close per output in reverse declared order |
| Node.SubroutineNode.Round | assemply/node.py:102-104 | one round makes exactly the puts of `Step` in order, or raises `Step`'s exception before any put and changes no queue |
| Node.SubroutineNode.In | assemply/node.py:100-104 | the queues receive exactly the puts of the loop over the joined inputs, in order, and the log gains exactly those puts; nothing is closed; the loop's exception, if any, is returned |
| Node.SubroutineNode.WithOut | assemply/node.py:93-98 | the log of queue operations gains all the loop's puts first, then one close per scoped output, innermost first; this holds on the normal path and the exception path alike; the scope events nest as `Nesting` says |
| Node.SubroutineNode.Run | assemply/node.py:106-107 | with no output, it fails with a missing-argument error and changes nothing; otherwise every queue receives the loop's puts and every output ends closed; after its old entries the log holds all the puts and then the closes in reverse declared order, whatever the outcome; the scopes nest in declared order around the one loop run |

## Left out

- YAML registration (`node_class`, `processor_constructor`, `add_constructor`) is left out. It is registration glue, not node behaviour.
- `azip` is in `assemply/atools.py`, which is not part of this model. The join is modelled as a lockstep join that stops at the shortest input. With no inputs there are no frames, as with Python's `zip`.
- Node.SubroutineNode.In: the inputs are read as a snapshot taken when the loop starts. Draining the input queues item by item, and waiting for items that arrive later, are not modelled.
- Asynchronous scheduling, interleaving with other nodes, and back-pressure on full queues are left out. Each node is modelled as running alone.
- A put on an already closed queue is left out, because that behaviour lives in the queue class. So is the exact body of the queue's `__aexit__`. Leaving a scope is modelled as closing the queue; no exception is suppressed.
- The transformation `f` is an opaque total function from keyword arguments to a result or an exception. Calls with argument names that `f` does not accept appear only as such an exception.
- A Python result is modelled as either an atom (not iterable) or an iterable with a finite list of elements. Strings, generators and other lazy iterables are not told apart.
- `inputs=None` and `outputs=None` are left out, since iterating over `None` fails before any node exists. Input and output names are given as lists.
- Binding.Select: the `AttributeError` message is reduced to the missing name. The message's text, which names `f`, is not modelled.
- Node.SubroutineNode.Run: with no outputs, `_with_out` is called without its required argument. This is modelled as the error `MissingOutQueue`. The Python exception class and message are not modelled.
