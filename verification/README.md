# AmpReactor core, modelled in Dafny

AmpReactor is a PHP library of reactive operators on top of Amp's `Iterator`.
It is built on one pull engine, and every cursor cloned from a producer
shares that engine. This project models four parts of it as pure functions
over explicit state:

- **The replay buffer** (`Queue`), in `replay_queue.dfy`, module
  `ReplayQueue`. The linked list is an arena: numbered nodes, plus numbered
  cells that stand for the PHP `Pointer` objects. A *family* is the heap and
  every copy of the queue that shares one tail cell. Each copy holds its own
  head cell, its `_empty` flag and its `_started` flag. The family invariant
  `Inv` says two things. A null head cell is shared by every copy that has
  not shifted yet. Every other head reaches the shared tail node through
  `next`.
- **The pull engine**, in `engine.dfy`, module `PullEngine`. It covers
  `Internal\Producer`: `emit`, `complete`, `fail`, `advance` and
  `getCurrent`. `interactive.dfy`, module `Interactive`, adds what
  `InteractiveProducer` puts on top: constructor validation, the lifetime
  hook, `_detach`, `create` and `from_producerish`. Futures are flags. A
  `Deferred` is an id drawn from a counter. An item's backpressure is
  resolved once its id is in the `released` set. Cursor `k` reads copy `k`
  of the buffer.
- **The legacy engine**, in `legacy.dfy`, module `Legacy`. It covers
  `BaseProducer` and `Producer`: a buffer seeded with a null sentinel, in
  front of a foreign `\Amp\Producer`.
- **The relay**, in `relay.dfy`, module `Relay`. Both producers wrap an
  upstream iterator in `iterator_to_emitting_generator`; this module models
  its backpressure choice.
- **The operators** whose code does what its doc comment says:
  - `map`, `take`, `first`, `zip`, `range`, `just` and `empty`, in
    `list_operators.dfy`;
  - `group_by`, in `group_by.dfy`;
  - `window`, in `window.dfy`;
  - `debounce`, in `debounce.dfy`.

  An upstream is the finite list of items that its `advance`/`getCurrent`
  pairs deliver. `window` and `debounce` work on timelines of events with
  integer timestamps.

Shared result types are in `results.dfy`. A PHP exception is a `Result.Err`
that carries a `Fault`. Every throw in the modelled code happens before any
mutation, so an `Err` leaves the state unchanged.

## Model

| member | source | states |
|---|---|---|
| `ReplayQueue.ListChain` | src/Queue.php:12-22 | The constructor's nodes, followed from node `i`, spell `list[i..]` and end at the last node. |
| `ReplayQueue.New` | src/Queue.php:8-25 | A queue built from a list satisfies the family invariant and holds exactly that list. `is_empty` holds iff the list is empty. |
| `ReplayQueue.IsEmpty` | src/Queue.php:43-46 | `is_empty` reads only this copy's head cell and `_empty` flag. It is true iff the copy has nothing left to shift. |
| `ReplayQueue.Peek` | src/Queue.php:65-77 | `peek` fails iff the copy is empty; otherwise it returns the front item. It always agrees with what `shift` would return or throw, including in the `_empty` case, and it changes no state. |
| `ReplayQueue.Shift` | src/Queue.php:78-104 | `shift` throws iff the copy is empty. Otherwise it returns the front item and leaves the rest. The first shift forks the head cell; later shifts reuse it. No other cell changes, and the copy's invariant is kept. |
| `ReplayQueue.Clone` | src/Queue.php:38-42 | `__clone` leaves the heap and the handle unchanged when the head is null. Otherwise it appends one cell holding the head's node and gives the clone that cell as its head, with nothing else in the handle changed. The clone and the original both see the original's contents. |
| `ReplayQueue.ChainGrows` | src/Queue.php:56-63 | Linking a new node after the tail node extends every chain that ends at the tail by the new item. |
| `ReplayQueue.AddSeenByAll` | src/Queue.php:50-64 | An `add` through any copy appends the item to every copy of the family, including drained ones, and keeps the invariant. |
| `ReplayQueue.AddVia` | src/Queue.php:50-64 | The family-level `add`: every copy's contents gain the item at the end. |
| `ReplayQueue.ShiftKeepsOthers` | src/Queue.php:86-90 | A shift on one copy keeps the invariant and leaves every other copy's contents unchanged. |
| `ReplayQueue.ShiftCopy` | src/Queue.php:78-104 | The family-level `shift`: it is an error iff the copy is empty. Otherwise it returns the front item, leaves the copy with the rest, and changes no other copy. |
| `ReplayQueue.CloneKeepsOthers` | src/Queue.php:38-42 | Cloning a copy keeps the invariant and leaves every existing copy's contents unchanged. |
| `ReplayQueue.CloneCopy` | src/Queue.php:38-42 | The family-level `clone`: the new copy holds exactly the cloned copy's contents, and no existing copy changes. |
| `ReplayQueue.Apply` | src/Queue.php:50-104 | One `add` or `shift` on copy `k`. Shifted output followed by what is left equals the old contents plus what was added. Other copies gain only the added item. |
| `ReplayQueue.Replay` | src/Queue.php:50-104 | FIFO under any interleaving of `add` and `shift`: shifted items followed by what is left equal the old contents plus every added item, in order. Every other copy gains only the added items. |
| `ReplayQueue.Drain` | src/Queue.php:78-104 | Shifting until empty returns the copy's contents in order. Composed with `New`, this returns the constructor's list. |
| `PullEngine.FreshIsEmpty` | src/Internal/Producer.php:43-48 | A new engine has an empty buffer, an open latch, no waiter, a zero count and one cursor that is not running. |
| `PullEngine.Emit` | src/Internal/Producer.php:116-165 | `emit` throws iff the latch is set. Otherwise every cursor's buffer gains exactly one item. It holds the value and a fresh backpressure id: the next one drawn from the `Deferred` counter, which no buffered item holds, and unreleased. The waiter is woken and cleared, and nothing else changes. |
| `PullEngine.EmitPromise` | src/Internal/Producer.php:125-145 | `emit` of a promise throws iff the latch is set. Otherwise it only draws the next `Deferred` id from the counter and returns it, unreleased. |
| `PullEngine.Settle` | src/Internal/Producer.php:127-142 | When the promise settles: if the latch was set meanwhile, the returned promise fails and nothing changes. A rejection fails the engine and the promise and wakes the waiter. A value is emitted to every buffer under the next `Deferred` id, and the promise follows that id's backpressure. Each branch frames the engine: a rejection changes only the latch and the waiter cell, and a value changes only the buffer, the waiter cell and the id counter. |
| `PullEngine.Complete` | src/Internal/Producer.php:173-207 | `complete` throws iff the latch is already set. Otherwise it sets the latch to `Success(false)`, wakes and clears the waiter, and changes nothing else. |
| `PullEngine.Fail` | src/Internal/Producer.php:210-218 | `fail` sets the latch to `Failure(e)` with no guard, wakes and clears the waiter, and changes nothing else. |
| `PullEngine.Drop` | src/Internal/Producer.php:58-69 | The start of `advance`: only a running cursor with a non-empty buffer drops its front item. The item's backpressure is released iff no cursor released it before. Other cursors are unaffected, and the cursor becomes running. |
| `PullEngine.Advance` | src/Internal/Producer.php:57-89 | After the drop, `advance` answers `true` iff an item is buffered. Otherwise it returns the latch's answer when the latch is set, or suspends. Suspending reuses an existing waiter or draws a new one. Latch, count and hot flag are unchanged. |
| `PullEngine.Resume` | src/Internal/Producer.php:83-89 | A woken `advance`: a set latch wins, even over buffered items. Otherwise a buffered item gives `true`, an empty buffer waits again, and a cleared waiter cell throws. |
| `PullEngine.Current` | src/Internal/Producer.php:95-104 | `getCurrent` succeeds iff something is buffered, returning the front value without consuming it. With nothing buffered it reports "completed" when the latch is set and "not ready" otherwise. |
| `PullEngine.CloneCursor` | src/Internal/Producer.php:50-52 | A clone sees the same items as its original and copies its running flag. Latch, waiter, count and hot flag stay shared, and no existing cursor changes. |
| `PullEngine.EmitAll` | src/Internal/Producer.php:147-165 | Emitting a list in order appends its values to every cursor's buffer. It throws iff the list is non-empty and the latch is set. |
| `PullEngine.EmitWakes` | src/Internal/Producer.php:159-163 | After an `emit` on an open engine, a suspended `advance` on any cursor resumes with `true`. |
| `PullEngine.CloseWakes` | src/Internal/Producer.php:201-217 | After `complete` a suspended `advance` resumes with `false`; after `fail(e)` it throws `e`. |
| `PullEngine.AdvanceThenCurrent` | src/Internal/Producer.php:71-104 | When `advance` answers `true`, `getCurrent` returns the new front value. When it answers `false`, `getCurrent` throws "completed". |
| `PullEngine.ReleaseOnce` | src/Internal/Producer.php:58-64 | `advance` never un-releases backpressure, and it releases an id only if no cursor released it before. |
| `PullEngine.Consume` | src/Internal/Producer.php:57-104 | Draining a cursor of a completed engine with `advance`/`getCurrent` yields exactly its buffered values, minus the current one if it was running, and then the latch's answer. |
| `PullEngine.ColdReplay` | src/Internal/Producer.php:50-104 | A cursor cloned after `xs` was emitted and the engine completed replays all of `xs`, then answers `false`. |
| `Relay.TraceFaithful` | src/InteractiveProducer.php:70-82 | The relay forwards every upstream item in order and pulls once more than it forwards. It waits on backpressure once for each item forwarded while the hot flag did not read `true`. |
| `Relay.ColdCounts` | src/InteractiveProducer.php:76-79 | A flag that never reads `true` makes the relay wait after every item; one that always reads `true` makes it never wait. |
| `Interactive.Runners` | src/InteractiveProducer.php:35-43 | Building coroutines fails with a type error iff some source is neither an `Iterator` nor a `Generator`. Otherwise there is one coroutine per source, and exactly the `Iterator`s go through the relay. |
| `Interactive.Construct` | src/InteractiveProducer.php:23-43 | The constructor throws for a factory result that is not an array, and throws iff some element has the wrong type. Otherwise it yields one coroutine per element, in order: the relay for an `Iterator`, a coroutine of its own for a `Generator`. |
| `Interactive.Create` | src/InteractiveProducer.php:84-88 | `create` never throws and wraps exactly one iterator, run through the relay. |
| `Interactive.FromProducerish` | src/InteractiveProducer.php:90-94 | `from_producerish` succeeds iff the callable returns an `Iterator` or a `Generator`, and wraps exactly that one source. |
| `Interactive.Lifetime` | src/InteractiveProducer.php:44-56 | When the coroutines' lifetime settles: nothing changes if the latch is set. Otherwise an error fails the engine and success completes it; either way the waiter is woken. |
| `Interactive.LifetimeOnce` | src/InteractiveProducer.php:44-56 | Along the lifetime path the latch changes at most once. A second settlement changes nothing, and `complete` afterwards throws. |
| `Interactive.Detach` | src/InteractiveProducer.php:62-69 | `_detach` decrements the count only for a running cursor. It clears the hot flag exactly when that decrement reaches zero, and changes nothing else. |
| `Interactive.Step` | src/InteractiveProducer.php:23-69 | Any single event keeps the engine valid, never raises the hot flag, and lowers the count by at most one. |
| `Interactive.Run` | src/InteractiveProducer.php:23-69 | Over any run of events the hot flag is never raised and the count never grows. |
| `Interactive.ColdForever` | src/InteractiveProducer.php:25 | From construction, whatever the events, the hot flag stays `false` and the count stays at or below zero. |
| `Interactive.RelayWaitsEveryTime` | src/InteractiveProducer.php:73-79 | So an `InteractiveProducer`'s relay waits on the backpressure of every item it forwards, and still forwards them all. |
| `Legacy.StartsWithSentinel` | src/Producer.php:21-26 | A new `Producer` has a buffer holding one null sentinel, count 0, a cleared hot flag and an empty `iterators` list. |
| `Legacy.Coroutines` | src/Producer.php:30-38 | The constructor's loop gives one coroutine per element the factory returns, in order. Exactly the `Iterator`s go through the relay, and exactly the `Generator`s run as coroutines of their own. Any other element is the type error of `new Coroutine`, which accepts only a `Generator`. |
| `Legacy.CreateStartsFresh` | src/Producer.php:75-79 | `create` starts a fresh producer. Its factory returns only the iterator, so the constructor's loop gives exactly one relayed coroutine and no type error. |
| `Legacy.Advance` | src/BaseProducer.php:41-50 | `advance` raises the hot flag and marks the cursor running. It shifts one item iff the buffer is non-empty, with no running check. Then `_produce` answers `true` iff an item is still buffered and asks upstream otherwise. Other cursors and the count are unchanged. |
| `Legacy.Current` | src/Producer.php:88-93 | With an item buffered, `getCurrent` returns it and changes nothing. With none, it adds the upstream's current value through this cursor, every cursor sees it, and that value is returned. |
| `Legacy.CurrentStable` | src/Producer.php:88-93 | Repeated `getCurrent` without an `advance` returns the same value, and the second call changes nothing. |
| `Legacy.SentinelFirst` | src/Producer.php:25 | Before the first `advance` a fresh producer reports the null sentinel. The first `advance` discards it and asks upstream. |
| `Legacy.Detach` | src/Producer.php:47-54 | The base `_detach` decrements only for a running cursor and clears the hot flag when the count reaches zero. After that, every entry of `iterators` is detached iff the hot flag is cleared. |
| `Legacy.CloneCursor` | src/BaseProducer.php:25-27 | A clone gets an independent buffer head with the same contents and copies the running flag. The count and hot flag stay shared, and no other cursor changes. |
| `Legacy.Step` | src/BaseProducer.php:29-50 | No single event changes `iterators`. From a count at or below zero the count stays there, and a raised hot flag stays raised. |
| `Legacy.Run` | src/BaseProducer.php:29-50 | Over any run of events `iterators` is unchanged, the count never rises above zero, and a raised hot flag is never cleared. |
| `Legacy.DetachPassesNothing` | src/Producer.php:26 | From construction, whatever the events, `_detach` never passes a detach upstream. |
| `Legacy.HotOnceAdvanced` | src/BaseProducer.php:41-50 | From a count at or below zero, the hot flag is raised after a run if it was raised before or the run advances cursor 0. A cleared flag stays cleared through a run with no `advance`. |
| `Legacy.RelayWaitsUntilAdvance` | src/Producer.php:27-74 | The relays start in the constructor. A hot-flag reading taken before any `advance` is `false`, so the relay waits on that item's backpressure. A reading taken after an `advance` on cursor 0 is `true`, so it does not wait. Either way, every item is forwarded. |
| `Legacy.RelayNeverWaits` | src/Producer.php:62-74 | When every hot-flag reading comes after an `advance` on cursor 0, the legacy relay forwards every item without waiting on backpressure. |
| `ListOperators.RangeEmitsInterval` | src/Operators.php:389-396 | `range(n, max)` emits exactly `n, …, max-1`, in order, and nothing when `n >= max`. |
| `ListOperators.RangeSplits` | src/Operators.php:389-396 | A range's run splits at any point between its ends into the two smaller ranges. |
| `ListOperators.JustBody` | src/Operators.php:377-382 | `just(x)` emits exactly `[x]`. |
| `ListOperators.EmptyEmitsNothing` | src/Operators.php:337-341 | `empty()` emits nothing. |
| `ListOperators.Map` | src/Operators.php:212-218 | For plain (non-promise) values, `map(f)` emits one item per upstream item, the `k`-th being `f` of the `k`-th. |
| `ListOperators.MapAppend` | src/Operators.php:212-218 | `map` distributes over concatenated upstreams. |
| `ListOperators.First` | src/Operators.php:299-307 | `first` pulls once. It finds no item iff the upstream is empty; otherwise it gives the first item. |
| `ListOperators.FirstValue` | src/Operators.php:299-307 | The value `first` resolves to is null iff the upstream is empty or its first item is null. Otherwise it is the first item. |
| `ListOperators.FirstNullAmbiguous` | src/Operators.php:294-307 | An empty upstream and an upstream `[null]` both resolve to null, so the doc comment's "null iff nothing is produced" does not hold. |
| `ListOperators.Take` | src/Operators.php:267-273 | `take(n)` emits the first `min(n, len)` items, and nothing for `n <= 0`. It pulls `n` times when the upstream has at least `n` items, so there is no pull after the `n`-th emission. Otherwise it pulls `len + 1` times. |
| `ListOperators.FirstAgreesWithTake` | src/Operators.php:299-307 | `first` pulls once and yields what `take(1)` yields. |
| `ListOperators.Zip` | src/Operators.php:452-461 | `zip` emits `combiner(L[k], R[k])` for every `k < min(len L, len R)`, in order, and pulls both sides `min + 1` times. |
| `ListOperators.ZipSandwiches` | test/Operator/ZipTest.php:7-25 | The zip test's upstreams give `PB&J`, `Left & Right`, `K&R`. |
| `Grouping.FirstKeysFacts` | src/Operators.php:118-124 | Every item's key is among the group keys, and each group key belongs to some item. No key is listed twice. |
| `Grouping.Place` | src/Operators.php:117-125 | One turn of the loop keeps the loop state: the keys seen so far in first-occurrence order, each key's items in order, and each key's first position. A new key opens an empty group first. |
| `Grouping.Scan` | src/Operators.php:116-125 | After the loop, that state describes the whole upstream. |
| `Grouping.GroupBy` | src/Operators.php:113-130 | Each item lands in exactly one group. Groups come in first-occurrence order of their keys, and each group holds its key's items in upstream order. A group is emitted at its key's first occurrence, and all groups are completed at the end. |
| `Grouping.DistinctKeysSingletons` | test/Operator/GroupByTest.php:5-16 | When keys tell all items apart, as in the identity-key test, each item forms its own group, in upstream order. |
| `Window.StartOpen` | src/Operators.php:173 | The first, empty window is emitted before any signal value, and it is open. |
| `Window.Feed` | src/Operators.php:166-181 | One event. A completed window never changes again, and once the source has finished nothing changes, except that a tick then ends the signal loop. While the source is live, an item goes to the last window. A tick while the signal is live completes that window and opens a new, empty one. The source's end completes every window. After the signal ends, ticks change nothing. |
| `Window.FeedKeepsItems` | src/Operators.php:166-170 | One event appends its item, if it is an item and the source is live, to the concatenated windows, and nothing else. |
| `Window.FeedAllKeepsItems` | src/Operators.php:166-181 | The concatenated windows gain exactly the items that arrive before the source ends, in order. |
| `Window.FeedAllCountsWindows` | src/Operators.php:173-181 | A tick opens a window only while both the source and the signal are live. Once either has ended, the number of windows stays fixed, so later items go to the last window. |
| `Window.EndedFinishes` | src/Operators.php:166-170 | A source end anywhere in the timeline leaves the source finished. |
| `Window.FeedAllSplits` | src/Operators.php:166-181 | From any state, a run adds to the windows exactly what the reference split of the timeline gives: items up to the next live tick join the open window, and each live tick opens the next one. Nothing is added once the source has ended. |
| `Window.Windows` | src/Operators.php:159-185 | A whole run gives exactly the reference split: the items between consecutive live ticks, up to the source's end. So the windows concatenate to the source's items, and there is one more window than live ticks. All windows are completed once the source has ended; before that, all but the last are. |
| `Debounce.FiresIffNotSuperseded` | src/Operators.php:139-150 | On a monotone timeline the stashed-counter check passes iff no later item arrives within the item's timespan. |
| `Debounce.Expire` | src/Operators.php:144-147 | One timer expiry emits its item iff the item is not superseded, and keeps the emitted items and their positions in order. |
| `Debounce.Run` | src/Operators.php:139-150 | `debounce` emits exactly the items that are not superseded, in arrival order, as a subsequence of the input. The last item is always emitted. |
| `Debounce.BurstyKeeps` | test/Operator/DebounceTest.php:16-32 | In the `emit_some` timeline with a 15 ms timespan, exactly items 4, 5, 7 and 8 survive. |
| `Debounce.BurstyRun` | test/Operator/DebounceTest.php:16-32 | `debounce(15)` over that timeline emits `[4, 5, 7, 8]`. |
| `Debounce.ReadyRun` | test/Operator/DebounceTest.php:6-14 | Three items at the same instant with `debounce(10)` emit only the last, `[2]`. |

## Left out

- The Amp event loop, coroutine scheduling, `Deferred`/`Delayed`/`Promise\all`
  and `src/Util/defer.php` are foreign async machinery. Futures are ids and
  flags. Scheduling is the order of events in a run. Time is integer
  timestamps.
- The upstream `\Amp\Producer` of the legacy engine is foreign. Its `advance`
  is the answer `AskUpstream`, and its current value is a parameter of
  `Legacy.Current`.
- `__destruct`-triggered detach (src/InteractiveProducer.php:58-60,
  src/BaseProducer.php:37-39) depends on PHP garbage collection. `_detach`
  is modelled as an event.
- The debug backtrace in `complete` is diagnostics, so it is left out.
  React promise adaptation in `emit` belongs to a foreign library and is
  left out too.
- The multi-consumer test harness: the hot/cold partition it checks depends
  on how the scheduler interleaves consumers.
- Operators whose code cannot do what their doc comments say are left out:
  `scan`, `reduce`, `filter`, `collapse`, the `repeat` family, `throw`,
  `buffer`, `merge`, `join` and `combine_latest`. So are the duplicate
  operators in src/Producer.php:100-224, which refer to undefined variables.
- `flat_map`, `map_async_unordered`, `sample`, `interval`, `timer` and `never`
  are left out. Their output order or termination depends on how the
  scheduler interleaves timers.
- `Queue::is_singular` compares two distinct cell objects by identity and is
  never called by the modelled code.
- PHP array-key normalisation in `group_by`, which maps `"1"` and `1` to one
  key. Keys are compared with plain equality.
- `Interactive.Construct`: the coroutines built before the constructor meets
  a bad element are not modelled.
- `Legacy.Coroutines`: the type error is raised inside the upstream
  `\Amp\Producer`, after the coroutines for the earlier elements have
  started. The model returns only the error, not those coroutines, and not
  the failed upstream producer the error leaves behind.
- `PullEngine.Drop`: the `!is_null($buffer_item)` test is always true,
  because the engine buffers objects, so the model does not include it.
- `Window.Feed`: an item or a second end event after the source has ended
  cannot occur with a real source; the model ignores it.
- `Debounce.Run`: requires a monotone timeline, which real arrival times
  always are. When an item arrives exactly as an earlier timer expires, the
  arrival is taken to come first.
- `Relay.Trace`, `ListOperators.Map`, `ListOperators.Take`, `ListOperators.Zip`,
  `ListOperators.First`, `ListOperators.FirstValue`, `Grouping.GroupBy`,
  `Window.Feed`, `Window.Windows` and `Debounce.Run` assume the upstream
  never fails and the callbacks never throw. A rejected `advance` or
  `Promise\all`, or an exception from `f`, `keysmith` or `combiner`, fails
  the producer through its lifetime in the source. In `window` this applies
  to a rejected `advance` of the clone or of the signal
  (src/Operators.php:167, 174). In `first` a rejected `advance`
  (src/Operators.php:302) rejects the returned promise. The model covers only
  the failure-free runs.
- `ListOperators.Map` (and `ListOperators.Take`, `ListOperators.Zip`,
  `ListOperators.First`): every item is taken to be a plain value. When `f`
  or the upstream yields an Amp `Promise`, `emit` takes its promise path
  (src/Internal/Producer.php:125-145). That path appends the item only when
  the promise settles, so items can be reordered, as the doc comment of
  `map` warns (src/Operators.php:208). Promise-valued items are not
  modelled, and the "in order" results hold only for plain values.
- `Debounce.Run`: `debounce(int $timespan)` accepts a negative timespan. The
  model takes `span` as a natural number, so a negative delay is not modelled.
- `PullEngine.Emit`: every emit goes through cursor 0, the constructed
  instance that the producers hold. An `add` is visible to every copy, so
  the choice of cursor does not matter.

## Divergences

Where the code and its documented intent differ, the model follows the code:

- src/Internal/Producer.php:67 applies `++` to the `Pointer` object, not
  its `value`. The model assumes PHP 7, where `++` on an object does
  nothing; PHP 8 would throw a `TypeError` there. So `advance` never
  changes the running count
  (`PullEngine.Advance`: count unchanged). With `_detach` only ever
  decrementing, an `InteractiveProducer`'s hot flag is never `true`, and its
  relay always waits on backpressure (`Interactive.ColdForever`,
  `Interactive.RelayWaitsEveryTime`).
- `BaseProducer::advance` never increments `running_count`
  (src/BaseProducer.php:41-50). So the count only falls from zero, a detach
  never brings it back to zero, and the legacy hot flag is never cleared
  once raised (`Legacy.Run`, `Legacy.RelayNeverWaits`).
- `$this->iterators = $iterators = []` (src/Producer.php:26) stores a copy,
  so `iterators` stays empty and `_detach` never propagates upstream
  (`Legacy.DetachPassesNothing`).
- `BaseProducer::advance` shifts whenever the buffer is non-empty, without
  checking the running flag. So the first `advance` drops the sentinel
  (`Legacy.SentinelFirst`).
- `__clone` copies `this_running`, so a clone of a running cursor is running
  (`PullEngine.CloneCursor`).
- The woken `advance` coroutine returns `$complete->value ?? $result`: a latch
  set in the meantime wins even over buffered items (`PullEngine.Resume`).
- `fail` has no already-completed guard (`PullEngine.Fail`).
- `first` resolves to `getCurrent()` after one pull (src/Operators.php:302-303).
  An upstream whose first item is null resolves to null, just as an empty
  upstream does, so "null iff nothing is produced" (src/Operators.php:296)
  does not hold (`ListOperators.FirstValue`, `ListOperators.FirstNullAmbiguous`).
- `zip` advances both upstreams once more than the shorter one's length, so
  the longer one loses an item that is never emitted (`ListOperators.Zip`).
