# ReactiveMicroservices: the hand-written buffer and combine-latest operators

This project models, in Dafny, the two hand-written event-stream operators of
ReactiveMicroservices and proves what they do.

- **`BufferExample<T>`** (`buffer_example.dfy`, module `BufferExample`) is a windowed buffer built from
  two `ConcurrentQueue<T>`s. One queue is active and receives `Put`s.
  - `SwitchBuffer` (run by the timer or by a `Put` that finds the active queue full) flips the active flag,
    drains the queue that was active into a list and raises `BufferEvent` with that list.
  - `Put` captures the active queue before it checks the capacity. After a capacity flush it therefore
    enqueues into the queue just drained, which is now the inactive one.
- **`Producer<T>` and `Consumer`** (`combine_example.dfy`, module `CombineExample`) implement combine-latest.
  - The consumer subscribes one handler to each of two producers and keeps the latest event of each side.
  - When an event arrives and the other side's slot is already set, it raises `OnCombinedEvents` with the pair.
- `wrappers.dfy` holds the `Option` type. It stands for nullable references and for `TryDequeue`'s `(bool, out T)` pair.

How the model is built:

- **Buffer.** `BufferExample` is a class. Its fields are:
  - the two queues, each a `ConcurrentQueue` object with a `contents` sequence;
  - the flag;
  - the capacity and the interval;
  - whether the timer is running;
  - `emitted`, the log of every batch passed to `BufferEvent`;
  - a ghost `history` of every element ever put.

  The class invariant `Valid` says three things:
  - **Conservation:** the multiset of everything put equals what is in the two queues plus everything emitted.
  - **Put order:** each queue and each emitted batch is a subsequence of the history (`Subseq`), so the
    elements of a batch appear in the order they were put. Order across batches is not kept: after a capacity
    flush, the triggering element is emitted after elements put later.
  - **Bounds** (for capacity >= 1): the active queue holds at most `capacity` elements, the inactive one at
    most one, and no batch exceeds `capacity`.

  A timer tick is the explicit method `Tick`.
- **Consumer.** `Consumer` is a class with the two slots, the log of combined events and a ghost `received`
  trace. Its invariant ties the slots and the log to pure functions of the trace: `Latest1`, `Latest2` and
  `Combined`. Lemmas about these functions then hold for every interleaving of the two producers:
  - gating;
  - the number of emissions;
  - freshness of every emitted pair.
- **Producer.** In the source the `ExampleEventArgs1`/`ExampleEventArgs2` constructors draw their id from
  `Guid.NewGuid`. The model moves that id source into the producer: a counter hands each factory call its own
  id. The producer keeps the values it produced and the handlers subscribed to `OnValueProduced`.

The model keeps these behaviours of the code, which a reader might not expect:

- `Stop` only stops the timer. It does not flush the elements still buffered, so a burst with no tick leaves
  them in the queues.
- Because `Put` captures the queue reference before flushing, the element that triggers a capacity flush
  lands in the queue just drained. It is therefore emitted one batch later, not at the head of the next batch.
  `BurstWithoutTick` spells this out for 250 puts into a buffer of capacity 100: two batches are emitted,
  1..100 and 102..201, and 50 elements stay buffered (101 and 203..250 in the first queue, 202 in the
  second).
- `Put` after `Stop` is accepted, and the capacity is not validated. Both follow the code.

## Model

| member | source | states |
|---|---|---|
| BufferExample.ConcurrentQueue.constructor | ReactiveMicroservices/BufferExample.cs:29-30 | a new queue is empty |
| BufferExample.ConcurrentQueue.Count | ReactiveMicroservices/BufferExample.cs:73 | the count is zero exactly when the queue is empty |
| BufferExample.ConcurrentQueue.Enqueue | ReactiveMicroservices/BufferExample.cs:77 | the element joins the back of the queue, nothing else changes |
| BufferExample.ConcurrentQueue.TryDequeue | ReactiveMicroservices/BufferExample.cs:59 | fails exactly when the queue is empty, leaving it empty; otherwise returns the front element and removes only it |
| BufferExample.BufferExample.constructor | ReactiveMicroservices/BufferExample.cs:26-36 | two distinct, fresh, empty queues; the first one is active; capacity and interval are stored; the timer runs; nothing has been put or emitted; the invariant holds |
| BufferExample.BufferExample.ActiveQueue | ReactiveMicroservices/BufferExample.cs:71 | the active queue is one of the two queues, and (the queues being distinct) it is the first one exactly when the flag says so; the same choice as line 54 |
| BufferExample.BufferExample.SwitchBuffer | ReactiveMicroservices/BufferExample.cs:48-66 | keeps conservation, put order and the bounds; flips the active flag; emits exactly the queue that was active on entry, in FIFO order, as one batch, even when it is empty; leaves that queue empty and the other one untouched |
| BufferExample.BufferExample.Drain | ReactiveMicroservices/BufferExample.cs:58-62 | dequeuing until TryDequeue fails yields the queue's whole contents in order and leaves it empty |
| BufferExample.BufferExample.Tick | ReactiveMicroservices/BufferExample.cs:38-41 | a timer tick while the timer runs has exactly the effect of SwitchBuffer |
| BufferExample.BufferExample.Stop | ReactiveMicroservices/BufferExample.cs:43-46 | the timer is stopped; nothing is flushed; the invariant, the flag and the emitted batches are kept (the queues are outside its frame) |
| BufferExample.BufferExample.Put | ReactiveMicroservices/BufferExample.cs:69-78 | keeps conservation, put order and the bounds; records the element. Below capacity: the element joins the active queue and nothing is emitted. At or over capacity: the old active queue is emitted as one batch (of exactly `capacity` elements when capacity >= 1), the flag flips and the element sits alone in the queue just drained, now inactive |
| BufferExample.BufferExample.FlushThenAdmit | ReactiveMicroservices/BufferExample.cs:71-77 | the capacity branch of Put: the captured queue is emitted as one batch (of exactly `capacity` elements when capacity >= 1), the flag flips, the element is recorded and sits alone in the captured queue, and the other queue, now active, keeps its contents; the invariant is kept |
| BufferExample.BufferExample.Admit | ReactiveMicroservices/BufferExample.cs:76-77 | the enqueue into the captured queue, whether still active below capacity or just drained, keeps conservation, put order and the bounds |
| BufferExample.FlushKeeps | ReactiveMicroservices/BufferExample.cs:54-64 | a flush moves the active contents into the batch log: no element is lost or duplicated, the emitted batch and the queue that becomes active stay in put order, and the bounds carry over |
| BufferExample.AdmitKeeps | ReactiveMicroservices/BufferExample.cs:76-77 | enqueueing into the active queue below capacity keeps conservation, put order and the bounds |
| BufferExample.AdmitAfterFlushKeeps | ReactiveMicroservices/BufferExample.cs:71-77 | enqueueing into the just-drained inactive queue keeps conservation, put order and the bounds |
| BufferExample.PutBelowCapacity | ReactiveMicroservices/BufferExample.cs:73-77 | a Put below capacity appends the element to the active queue and to the history and changes nothing else: the flag, the emitted batches, the inactive queue and the running timer are kept (so a `Tick` may follow) |
| BufferExample.PutRange | ReactiveMicroservices/BufferExample.cs:69-78 | back-to-back Puts of lo..hi-1 that stay within capacity append exactly that range, in order, to the active queue and to the history; nothing is emitted, and the flag, the inactive queue and the running timer are kept |
| BufferExample.BurstWithoutTick | ReactiveMicroservices/BufferExample.cs:69-78 | 250 Puts of 1..250 at capacity 100 with no tick emit exactly the batches 1..100 and 102..201 and leave 101, 203..250 in the first queue and 202 in the second: 50 elements buffered |
| CombineExample.Fresh | ReactiveMicroservices/CombineExample.cs:14-17 | n factory calls yield n values, the k-th built from its own fresh id |
| CombineExample.FreshDistinct | ReactiveMicroservices/CombineExample.cs:14-17 | with an injective factory, no two produced values are equal |
| CombineExample.FreshSplit | ReactiveMicroservices/CombineExample.cs:55-59 | m calls followed by n more calls yield the m + n values of one run |
| CombineExample.Producer.constructor | ReactiveMicroservices/CombineExample.cs:36-41 | timeout and factory are stored; no handlers; nothing produced |
| CombineExample.Producer.CallProduce | ReactiveMicroservices/CombineExample.cs:45-48 | emits exactly one value, built from the next fresh id |
| CombineExample.Producer.Run | ReactiveMicroservices/CombineExample.cs:50-60 | emits exactly max(iterations, 0) values, each from its own fresh id, in loop order |
| CombineExample.Step | ReactiveMicroservices/CombineExample.cs:82-94 | receiving one more event sets that side's latest value, sets its first position if unset, and adds that event's emission |
| CombineExample.EventsPartition | ReactiveMicroservices/CombineExample.cs:82-94 | every event received is handled by exactly one of the two handlers: the side-1 and side-2 events together number the whole trace |
| CombineExample.LatestIsLastEvent | ReactiveMicroservices/CombineExample.cs:82-94 | slot 1 holds the last of the side-1 events received (empty when there is none), and slot 2 the last of the side-2 events |
| CombineExample.Latest1None | ReactiveMicroservices/CombineExample.cs:84 | slot 1 is empty exactly when every event received came from side 2 |
| CombineExample.Latest1IsLast | ReactiveMicroservices/CombineExample.cs:84 | a set slot 1 holds a side-1 event after which only side-2 events were received |
| CombineExample.Latest2None | ReactiveMicroservices/CombineExample.cs:91 | slot 2 is empty exactly when every event received came from side 1 |
| CombineExample.Latest2IsLast | ReactiveMicroservices/CombineExample.cs:91 | a set slot 2 holds a side-2 event after which only side-1 events were received |
| CombineExample.First1IsFirst | ReactiveMicroservices/CombineExample.cs:84 | the first position of side 1 holds a side-1 event with only side-2 events before it |
| CombineExample.First2IsFirst | ReactiveMicroservices/CombineExample.cs:91 | the first position of side 2 holds a side-2 event with only side-1 events before it |
| CombineExample.SetIffFired | ReactiveMicroservices/CombineExample.cs:82-94 | a slot is set exactly when its side has fired |
| CombineExample.CombinedCount | ReactiveMicroservices/CombineExample.cs:82-94 | nothing is emitted until both sides have fired; from the first event of the side that fired second, every event emits exactly one pair |
| CombineExample.EmissionCount | ReactiveMicroservices/CombineExample.cs:85-86 | one event emits exactly when both sides have fired once it is received; the armed position never moves once set |
| CombineExample.Gating | ReactiveMicroservices/CombineExample.cs:85-86 | no combined event is emitted while either slot is empty |
| CombineExample.CombinedFresh | ReactiveMicroservices/CombineExample.cs:82-94 | the k-th combined event pairs the latest side-1 and side-2 events as of the event that triggered it, which is event ArmedAt + k |
| CombineExample.LatestPairKept | ReactiveMicroservices/CombineExample.cs:82-94 | a later event changes neither an earlier emission nor the prefix that triggered it |
| CombineExample.LatestPairLast | ReactiveMicroservices/CombineExample.cs:85-86 | the pair an event emits is the latest value of each side once that event is stored |
| CombineExample.OnceArmed | ReactiveMicroservices/CombineExample.cs:82-94 | once both slots are set they stay set, and every further event emits exactly one pair of the latest values |
| CombineExample.Consumer.constructor | ReactiveMicroservices/CombineExample.cs:74-78 | OnEvent1Received is added to the first producer's handlers and OnEvent2Received to the second's; both slots empty; nothing emitted |
| CombineExample.Consumer.OnEvent1Received | ReactiveMicroservices/CombineExample.cs:82-87 | stores the side-1 event, leaves slot 2 alone, and emits the pair (new e1, e2) exactly when slot 2 is set; keeps the invariant tying state to the trace |
| CombineExample.Consumer.OnEvent2Received | ReactiveMicroservices/CombineExample.cs:89-94 | stores the side-2 event, leaves slot 1 alone, and emits the pair (e1, new e2) exactly when slot 1 is set; keeps the invariant tying state to the trace |
| CombineExample.Produce1 | ReactiveMicroservices/CombineExample.cs:45-48 | CallProduce on the first producer delivers its fresh event to the consumer's side-1 handler |
| CombineExample.Produce2 | ReactiveMicroservices/CombineExample.cs:45-48 | CallProduce on the second producer delivers its fresh event to the consumer's side-2 handler |
| CombineExample.Fire | ReactiveMicroservices/CombineExample.cs:45-48 | one emission from the chosen producer reaches the consumer as an event of that side, and is appended to that producer's log only |
| CombineExample.Wire | ReactiveMicroservices/Program.cs:19-21 | two fresh producers with timeouts 15 and 40, whose factories build the event with the id they are given, with nothing produced yet; a fresh consumer subscribed as the only handler of each, with nothing received; all in the invariant state |
| CombineExample.Drive | ReactiveMicroservices/Program.cs:25 | firing the producers in any order extends what the consumer has received by exactly that order, event i coming from side 1 exactly when the schedule says so; each producer's log grows by exactly the events of its side, in the order received; the producers keep their invariant and their single subscriber |
| CombineExample.Interleave | ReactiveMicroservices/Program.cs:17-26 | for every interleaving of the two producers, event i comes from the side the schedule names; the k-th side-1 event received is the first producer's k-th event and the k-th side-2 event the second producer's k-th; the consumer's output is the combination of the trace, and its length is the trace length minus the armed position |

## Left out

- Threads, `lock` and the thread-safety of `ConcurrentQueue`, and `Parallel.Invoke` in Program.cs: every
  operation is atomic. The two producers' concurrency is a `schedule` of which side fires next.
- Time: the `System.Timers.Timer` becomes the explicit `Tick`. The interval and the producers' timeout are
  stored but not used. `Thread.Sleep` in `Run` is dropped.
- `Thread.Sleep(_timeout)` (CombineExample.cs:57) throws `ArgumentOutOfRangeException` for a timeout below -1
  and never returns for -1. `Producer.Run` accepts any timeout, because time is not modelled.
- Null event arguments: the model's events are non-null values. In C#, `OnEvent1Received(null)` with `_e2` set
  clears slot 1 and emits a pair whose first event is null; after that, side-2 events emit nothing until a
  non-null side-1 event arrives (CombineExample.cs:84-86, 92). `Gating` and `OnceArmed` hold for non-null events only.
- `Guid.NewGuid` becomes a counter. The `Func<T>` factory is a function from that id to a value.
- The producer's `_rnd` field is never read in the source and is not modelled.
- `Console.WriteLine` and `GetType` in `Run` are output and are not modelled.
- Raising an event with no subscriber throws `NullReferenceException` in C#. This applies to `BufferEvent`,
  `OnValueProduced` and `OnCombinedEvents`. The model treats raising an event as appending to a log
  (`emitted`, `produced`), which always succeeds.
- `OnValueProduced` is not dispatched to an arbitrary handler list. `CallProduce` and `Run` record the
  produced values. Delivery to the one subscribed consumer handler of the example's wiring is done by
  `Produce1` and `Produce2`, which require exactly that wiring.
- Event arguments are values: `EventArgs` reference identity is not modelled.
- The rest of Program.cs is not part of this model: the Rx operators, the stopwatch and memory readings, and
  the counters.
- BufferExample.BufferExample.constructor: `new System.Timers.Timer(interval)` (BufferExample.cs:33) throws
  `ArgumentException` when the interval is not positive or exceeds `Int32.MaxValue`. The model does not
  model this exception: its constructor accepts any interval, because time is not modelled and the interval
  is only stored.
- `_q1` and `_q2` are modelled as constant fields, because the source assigns them only in the constructor.
- BufferExample.BufferExample.Put: the batch-size bound (every batch at most `capacity`, and a capacity flush
  emits exactly `capacity` elements) is stated only for capacity >= 1. The constructor accepts any capacity.
  With capacity <= 0 every `Put` flushes first.
