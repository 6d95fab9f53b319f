/** The pull engine of src/Internal/Producer.php, shared by every cursor
    cloned from one `InteractiveProducer`.

    Futures are flags: a `Deferred` is an id drawn from a counter, the
    waiter cell holds such an id or null, and an item's backpressure is
    "resolved" once its id is in `released` (the `resolved` field lives on
    the item object, which every copy of the buffer shares). A cursor is one
    PHP object; cursor `k` reads copy `k` of the buffer family and has its own
    `this_running` flag. Cursor 0 is the constructed instance, whose `emit`
    the producers hold. */
module PullEngine {
  import opened Results
  import RQ = ReplayQueue

  /** A buffered emission: its backpressure `Deferred` and its value. */
  datatype Item<V> = Item(id: nat, value: V)

  /** The completion latch `complete->value`: null, `Success(false)` or `Failure(e)`. */
  datatype Latch<E> = Open | Completed | Failed(error: E)

  /** The engine state shared by all cursors, plus the per-cursor flags.
      `count` is `running_count->value`; `hot` is the flag cell that
      `InteractiveProducer` keeps in `some_running`. */
  datatype Engine<V, E> = Engine(
    buffer: RQ.Family<Item<V>>,
    running: seq<bool>,
    latch: Latch<E>,
    waiter: Option<nat>,
    deferreds: nat,
    released: set<nat>,
    count: int,
    hot: bool)

  /** One buffer copy per cursor, at least the constructed one, and every
      `Deferred` id in use was drawn from the counter. */
  ghost predicate Valid<V, E>(e: Engine<V, E>) {
    && RQ.Inv(e.buffer)
    && |e.running| == |e.buffer.copies| && |e.running| > 0
    && (e.waiter.Some? ==> e.waiter.value < e.deferreds)
    && (forall d :: d in e.released ==> d < e.deferreds)
    && (forall k :: 0 <= k < |e.running| ==> Drawn(RQ.Contents(e.buffer, k), e.deferreds))
  }

  ghost predicate Drawn<V>(items: seq<Item<V>>, bound: nat) {
    forall i :: 0 <= i < |items| ==> items[i].id < bound
  }

  /** What cursor `k` has still to see, its current item first. */
  function Buffered<V, E>(e: Engine<V, E>, k: nat): seq<Item<V>>
    requires Valid(e) && k < |e.running|
  {
    RQ.Contents(e.buffer, k)
  }

  function Values<V>(items: seq<Item<V>>): (vs: seq<V>)
    ensures |vs| == |items| && forall i :: 0 <= i < |items| ==> vs[i] == items[i].value
  {
    seq(|items|, i requires 0 <= i < |items| => items[i].value)
  }

  /** The answer an `advance` promise settles with: `true`, `false`, a
      failure, or still pending on the waiter. */
  datatype Answer<E> = Yes | No | Throws(error: E) | Suspended

  /** What a set latch makes `advance` return. */
  function LatchAnswer<E>(l: Latch<E>): (a: Answer<E>)
    requires !l.Open?
    ensures a.No? <==> l.Completed?
    ensures a.Throws? <==> l.Failed?
    ensures a.Throws? ==> a.error == l.error
  {
    match l
    case Completed => No
    case Failed(x) => Throws(x)
  }

  // ---------------------------------------------------------------------------
  // The producer side: emit, complete, fail

  /** The constructor. */
  function Fresh<V, E>(): Engine<V, E> {
    Engine(RQ.New([]), [false], Open, None, 0, {}, 0, false)
  }

  /** A new engine has an empty buffer, an open latch, no waiter, a zero
      count and one cursor that has not advanced yet. */
  lemma FreshIsEmpty<V, E>()
    ensures var e := Fresh<V, E>();
      Valid(e) && |e.running| == 1 && Buffered(e, 0) == [] && !e.running[0]
      && e.latch.Open? && e.waiter.None? && e.count == 0 && !e.hot
  {
  }

  datatype Emitted<V, E> = Emitted(engine: Engine<V, E>, pressure: nat, woke: Option<nat>)

  /** `emit` of a plain value. Once the latch is set it throws and changes
      nothing. Otherwise every cursor's buffer gains one item whose
      backpressure is unresolved, a waiting `advance` is woken with `true`
      and the waiter cell cleared, and the item's backpressure promise is
      returned. */
  function Emit<V, E>(e: Engine<V, E>, v: V): (r: Result<Emitted<V, E>, Fault>)
    requires Valid(e)
    ensures r.Err? <==> !e.latch.Open?
    ensures r.Err? ==> r.error == EmitAfterComplete
    ensures r.Ok? ==> r.value.pressure == e.deferreds && r.value.pressure !in e.released && r.value.woke == e.waiter
    ensures r.Ok? ==> r.value.engine == e.(buffer := r.value.engine.buffer, waiter := None, deferreds := e.deferreds + 1)
    ensures r.Ok? ==> Valid(r.value.engine) && |r.value.engine.running| == |e.running|
    ensures r.Ok? ==> forall k :: 0 <= k < |e.running| ==>
      Buffered(r.value.engine, k) == Buffered(e, k) + [Item(r.value.pressure, v)]
  {
    if !e.latch.Open? then Err(EmitAfterComplete)
    else
      var pressure := e.deferreds;
      var buffer := RQ.AddVia(e.buffer, 0, Item(pressure, v));
      Ok(Emitted(e.(buffer := buffer, waiter := None, deferreds := e.deferreds + 1), pressure, e.waiter))
  }

  /** How an emitted promise settles. */
  datatype Outcome<V, E> = Resolved(value: V) | Rejected(error: E)

  /** How the promise `emit` returned for an emitted promise settles: it
      follows the backpressure of the value once emitted, fails with the
      promise's own error, or fails because the latch was set first. */
  datatype Chained<E> = Follows(pressure: nat) | FailsWith(error: E) | CompletedFirst

  datatype Settled<V, E> = Settled(engine: Engine<V, E>, chain: Chained<E>, woke: Option<nat>)

  /** `emit` of a promise: throws once the latch is set; otherwise the engine
      only draws the `Deferred` returned to the caller. */
  function EmitPromise<V, E>(e: Engine<V, E>): (r: Result<(Engine<V, E>, nat), Fault>)
    requires Valid(e)
    ensures r.Err? <==> !e.latch.Open?
    ensures r.Err? ==> r.error == EmitAfterComplete
    ensures r.Ok? ==> Valid(r.value.0) && r.value.1 !in r.value.0.released
                      && r.value.1 == e.deferreds && r.value.0 == e.(deferreds := e.deferreds + 1)
  {
    if !e.latch.Open? then Err(EmitAfterComplete)
    else Ok((e.(deferreds := e.deferreds + 1), e.deferreds))
  }

  /** The `onResolve` callback of an emitted promise. A latch set in the
      meantime fails the returned promise and changes nothing; a rejection
      fails the engine and the returned promise; a value is emitted and the
      returned promise follows its backpressure. */
  function Settle<V, E>(e: Engine<V, E>, o: Outcome<V, E>): (r: Settled<V, E>)
    requires Valid(e)
    ensures Valid(r.engine) && |r.engine.running| == |e.running|
    ensures !e.latch.Open? ==> r == Settled(e, CompletedFirst, None)
    ensures e.latch.Open? && o.Rejected? ==>
      && r.chain == FailsWith(o.error) && r.engine.latch == Failed(o.error)
      && r.woke == e.waiter && r.engine.waiter.None?
      && forall k :: 0 <= k < |e.running| ==> Buffered(r.engine, k) == Buffered(e, k)
    ensures e.latch.Open? && o.Resolved? ==>
      && r.chain.Follows? && r.engine.latch.Open? && r.woke == e.waiter
      && forall k :: 0 <= k < |e.running| ==> Buffered(r.engine, k) == Buffered(e, k) + [Item(r.chain.pressure, o.value)]
    ensures e.latch.Open? && o.Rejected? ==> r.engine == e.(latch := Failed(o.error), waiter := None)
    ensures e.latch.Open? && o.Resolved? ==> r.chain == Follows(e.deferreds) && e.deferreds !in e.released
    ensures e.latch.Open? && o.Resolved? ==>
      r.engine == e.(buffer := r.engine.buffer, waiter := None, deferreds := e.deferreds + 1)
  {
    if !e.latch.Open? then Settled(e, CompletedFirst, None)
    else
      match o
      case Rejected(x) =>
        var c := Fail(e, x);
        Settled(c.engine, FailsWith(x), c.woke)
      case Resolved(v) =>
        var m := Emit(e, v);
        Settled(m.value.engine, Follows(m.value.pressure), m.value.woke)
  }

  datatype Closed<V, E> = Closed(engine: Engine<V, E>, woke: Option<nat>)

  /** `complete`: throws if the latch is already set; otherwise sets it to
      `Success(false)`, resolves a waiting `advance` with it and clears the
      waiter cell. Nothing else changes. */
  function Complete<V, E>(e: Engine<V, E>): (r: Result<Closed<V, E>, Fault>)
    requires Valid(e)
    ensures r.Err? <==> !e.latch.Open?
    ensures r.Err? ==> r.error == AlreadyCompleted
    ensures r.Ok? ==> && Valid(r.value.engine) && r.value.woke == e.waiter
                      && r.value.engine == e.(latch := Completed, waiter := None)
  {
    if !e.latch.Open? then Err(AlreadyCompleted)
    else Ok(Closed(e.(latch := Completed, waiter := None), e.waiter))
  }

  /** `fail`: sets the latch to `Failure(x)` whatever it held before, resolves
      a waiting `advance` with it and clears the waiter cell. */
  function Fail<V, E>(e: Engine<V, E>, x: E): (r: Closed<V, E>)
    requires Valid(e)
    ensures Valid(r.engine) && r.woke == e.waiter
    ensures r.engine == e.(latch := Failed(x), waiter := None)
  {
    Closed(e.(latch := Failed(x), waiter := None), e.waiter)
  }

  // ---------------------------------------------------------------------------
  // The consumer side: advance, the woken advance, getCurrent, clone

  datatype Advanced<V, E> = Advanced(engine: Engine<V, E>, answer: Answer<E>, release: Option<nat>)

  datatype Dropped<V, E> = Dropped(engine: Engine<V, E>, release: Option<nat>)

  /** The first part of `advance` on cursor `k`: a cursor that is already
      running drops its current item, resolving that item's backpressure
      unless some cursor already did; then the cursor is running. The running
      count does not change: the source increments the cell object, not its
      value. */
  function Drop<V, E>(e: Engine<V, E>, k: nat): (r: Dropped<V, E>)
    requires Valid(e) && k < |e.running|
    ensures Valid(r.engine) && |r.engine.running| == |e.running|
    ensures var c := Buffered(e, k);
      var shifts := e.running[k] && c != [];
      && Buffered(r.engine, k) == (if shifts then c[1..] else c)
      && (forall j :: 0 <= j < |e.running| && j != k ==> Buffered(r.engine, j) == Buffered(e, j))
      && r.engine.released == (if shifts then e.released + {c[0].id} else e.released)
      && r.release == (if shifts && c[0].id !in e.released then Some(c[0].id) else None)
    ensures r.engine == e.(buffer := r.engine.buffer, released := r.engine.released, running := e.running[k := true])
  {
    // a shift of an empty copy throws exactly when `is_empty` holds, so the
    // failed shift stands for the source's emptiness guard
    if !e.running[k] then Dropped(e.(running := e.running[k := true]), None)
    else match RQ.ShiftCopy(e.buffer, k)
      case Err(_) => Dropped(e.(running := e.running[k := true]), None)
      case Ok(t) =>
        var e1 := e.(buffer := t.family, released := e.released + {t.item.id}, running := e.running[k := true]);
        ShiftKeepsValid(e, k, t, e1);
        Dropped(e1, if t.item.id in e.released then None else Some(t.item.id))
  }

  lemma ShiftKeepsValid<V, E>(e: Engine<V, E>, k: nat, t: RQ.Taken<Item<V>>, e1: Engine<V, E>)
    requires Valid(e) && k < |e.running| && RQ.ShiftCopy(e.buffer, k) == Ok(t)
    requires e1 == e.(buffer := t.family, released := e.released + {t.item.id}, running := e.running[k := true])
    ensures Valid(e1)
  {
    forall j | 0 <= j < |e.running|
      ensures Drawn(RQ.Contents(e1.buffer, j), e1.deferreds)
    {
      assert Drawn(RQ.Contents(e.buffer, j), e.deferreds);
    }
    assert Drawn(RQ.Contents(e.buffer, k), e.deferreds);
  }

  /** `advance` on cursor `k`: after the optional drop, it answers `true` at
      once when an item is buffered, else the latch when set, else it waits
      on the shared waiter, creating it only when there is none. */
  function Advance<V, E>(e: Engine<V, E>, k: nat): (r: Advanced<V, E>)
    requires Valid(e) && k < |e.running|
    ensures Valid(r.engine) && |r.engine.running| == |e.running|
    ensures var d := Drop(e, k);
      && r.release == d.release
      && r.engine == d.engine.(waiter := r.engine.waiter, deferreds := r.engine.deferreds)
    ensures r.engine.latch == e.latch && r.engine.count == e.count && r.engine.hot == e.hot
    ensures r.answer.Yes? <==> Buffered(r.engine, k) != []
    ensures Buffered(r.engine, k) == [] && !e.latch.Open? ==>
      r.answer == (if e.latch.Completed? then No else Throws(e.latch.error))
    ensures r.answer.Suspended? <==> Buffered(r.engine, k) == [] && e.latch.Open?
    ensures r.answer.Suspended? ==> && r.engine.waiter.Some?
                                    && (e.waiter.Some? ==> r.engine.waiter == e.waiter)
                                    && (e.waiter.None? ==> r.engine.waiter.value == e.deferreds)
    ensures !r.answer.Suspended? ==> r.engine.waiter == e.waiter && r.engine.deferreds == e.deferreds
  {
    var d := Drop(e, k);
    var e1 := d.engine;
    if !RQ.IsEmpty(e1.buffer.heap, e1.buffer.copies[k]) then Advanced(e1, Yes, d.release)
    else if !e.latch.Open? then Advanced(e1, LatchAnswer(e.latch), d.release)
    else if e.waiter.Some? then Advanced(e1, Suspended, d.release)
    else
      var e2 := e1.(waiter := Some(e.deferreds), deferreds := e.deferreds + 1);
      assert Valid(e2) by {
        forall j | 0 <= j < |e.running|
          ensures Drawn(Buffered(e2, j), e2.deferreds)
        {
          assert Drawn(Buffered(e1, j), e1.deferreds);
        }
      }
      Advanced(e2, Suspended, d.release)
  }

  /** The coroutine of a suspended `advance` on cursor `k`, resumed after the
      waiter settled. A set latch wins even over buffered items; otherwise a
      buffered item answers `true`; otherwise it waits again on the waiter
      cell, which throws when the cell was cleared. */
  function Resume<V, E>(e: Engine<V, E>, k: nat): (r: Result<Answer<E>, Fault>)
    requires Valid(e) && k < |e.running|
    ensures !e.latch.Open? ==> r == Ok(if e.latch.Completed? then No else Throws(e.latch.error))
    ensures e.latch.Open? && Buffered(e, k) != [] ==> r == Ok(Yes)
    ensures r == Ok(Suspended) <==> e.latch.Open? && Buffered(e, k) == [] && e.waiter.Some?
    ensures r.Err? <==> e.latch.Open? && Buffered(e, k) == [] && e.waiter.None?
    ensures r.Err? ==> r.error == NullWaiter
  {
    if !e.latch.Open? then Ok(LatchAnswer(e.latch))
    else if !RQ.IsEmpty(e.buffer.heap, e.buffer.copies[k]) then Ok(Yes)
    else if e.waiter.Some? then Ok(Suspended)
    else Err(NullWaiter)
  }

  /** `getCurrent` on cursor `k`: the current item's value, without consuming
      it; with nothing buffered, "completed" once the latch is set and "not
      ready" before. */
  function Current<V, E>(e: Engine<V, E>, k: nat): (r: Result<V, Fault>)
    requires Valid(e) && k < |e.running|
    ensures r.Ok? <==> Buffered(e, k) != []
    ensures r.Ok? ==> r.value == Buffered(e, k)[0].value
    ensures r.Err? ==> r.error == (if e.latch.Open? then NotReady else IteratorCompleted)
  {
    var q := e.buffer.copies[k];
    if RQ.IsEmpty(e.buffer.heap, q) then
      if !e.latch.Open? then Err(IteratorCompleted) else Err(NotReady)
    else
      match RQ.Peek(e.buffer.heap, q)
      case Ok(item) => Ok(item.value)
      case Err(f) => Err(f)
  }

  /** `clone` of cursor `k`: the new cursor (appended last) sees what `k`
      sees and copies its running flag; every other part of the state is
      shared, and no existing cursor changes. */
  function CloneCursor<V, E>(e: Engine<V, E>, k: nat): (e': Engine<V, E>)
    requires Valid(e) && k < |e.running|
    ensures Valid(e') && |e'.running| == |e.running| + 1
    ensures Buffered(e', |e.running|) == Buffered(e, k)
    ensures forall j :: 0 <= j < |e.running| ==> Buffered(e', j) == Buffered(e, j)
    ensures e'.running == e.running + [e.running[k]]
    ensures e' == e.(buffer := e'.buffer, running := e'.running)
  {
    e.(buffer := RQ.CloneCopy(e.buffer, k), running := e.running + [e.running[k]])
  }

  // ---------------------------------------------------------------------------
  // Properties relating several events

  /** Emitting a list in order appends it to every cursor's buffer; it
      throws, changing nothing, when the latch is set. */
  function EmitAll<V, E>(e: Engine<V, E>, xs: seq<V>): (r: Result<Engine<V, E>, Fault>)
    requires Valid(e)
    ensures r.Err? <==> xs != [] && !e.latch.Open?
    ensures r.Ok? ==> && Valid(r.value) && |r.value.running| == |e.running|
                      && r.value.running == e.running && r.value.latch == e.latch
                      && forall k :: 0 <= k < |e.running| ==> Values(Buffered(r.value, k)) == Values(Buffered(e, k)) + xs
    decreases |xs|
  {
    if xs == [] then Ok(e)
    else
      match Emit(e, xs[0])
      case Err(f) => Err(f)
      case Ok(m) =>
        var rest := EmitAll(m.engine, xs[1..]);
        EmitAllStep(e, xs, m, rest);
        rest
  }

  lemma EmitAllStep<V, E>(e: Engine<V, E>, xs: seq<V>, m: Emitted<V, E>, rest: Result<Engine<V, E>, Fault>)
    requires Valid(e) && xs != [] && Emit(e, xs[0]) == Ok(m)
    requires rest.Ok? ==> && Valid(rest.value) && |rest.value.running| == |e.running|
                          && forall k :: 0 <= k < |e.running| ==>
                               Values(Buffered(rest.value, k)) == Values(Buffered(m.engine, k)) + xs[1..]
    ensures rest.Ok? ==> forall k :: 0 <= k < |e.running| ==>
                           Values(Buffered(rest.value, k)) == Values(Buffered(e, k)) + xs
  {
    if rest.Ok? {
      forall k | 0 <= k < |e.running|
        ensures Values(Buffered(rest.value, k)) == Values(Buffered(e, k)) + xs
      {
        assert Buffered(m.engine, k) == Buffered(e, k) + [Item(m.pressure, xs[0])];
        ValuesPush(Buffered(e, k), Item(m.pressure, xs[0]), xs);
      }
    }
  }

  /** Sequence bookkeeping for one step of `EmitAll`. */
  lemma ValuesPush<V>(b: seq<Item<V>>, it: Item<V>, xs: seq<V>)
    requires xs != [] && it.value == xs[0]
    ensures Values(b + [it]) + xs[1..] == Values(b) + xs
  {
    assert Values(b + [it]) == Values(b) + [xs[0]];
    assert xs == [xs[0]] + xs[1..];
    calc {
      Values(b + [it]) + xs[1..];
      (Values(b) + [xs[0]]) + xs[1..];
      Values(b) + ([xs[0]] + xs[1..]);
    }
  }

  /** After an emit, a suspended `advance` on any cursor resumes with `true`. */
  lemma EmitWakes<V, E>(e: Engine<V, E>, v: V, k: nat)
    requires Valid(e) && k < |e.running| && e.latch.Open?
    ensures Emit(e, v).Ok? && Resume(Emit(e, v).value.engine, k) == Ok(Yes)
  {
    var m := Emit(e, v).value;
    assert Buffered(m.engine, k) == Buffered(e, k) + [Item(m.pressure, v)];
  }

  /** After `complete` or `fail`, a suspended `advance` resumes with the latch. */
  lemma CloseWakes<V, E>(e: Engine<V, E>, x: E, k: nat)
    requires Valid(e) && k < |e.running|
    ensures e.latch.Open? ==> Resume(Complete(e).value.engine, k) == Ok(No)
    ensures Resume(Fail(e, x).engine, k) == Ok(Throws(x))
  {
  }

  /** `advance` answering `true` makes `getCurrent` succeed with the item
      that is now at the front of the cursor's buffer. */
  lemma AdvanceThenCurrent<V, E>(e: Engine<V, E>, k: nat)
    requires Valid(e) && k < |e.running|
    ensures var r := Advance(e, k);
      r.answer.Yes? ==> Current(r.engine, k) == Ok(Buffered(r.engine, k)[0].value)
    ensures var r := Advance(e, k);
      r.answer == No ==> Current(r.engine, k) == Err(IteratorCompleted)
  {
  }

  /** Each backpressure promise is resolved at most once: once released by
      any cursor, no later `advance` on any cursor releases it again. */
  lemma ReleaseOnce<V, E>(e: Engine<V, E>, k: nat)
    requires Valid(e) && k < |e.running|
    ensures var r := Advance(e, k);
      && e.released <= r.engine.released
      && (r.release.Some? ==> r.release.value !in e.released && r.release.value in r.engine.released)
  {
  }

  /** Draining cursor `k` of a completed engine: repeated `advance` and
      `getCurrent` yield the buffered values after the current one if the
      cursor was running, all of them otherwise, and then the latch. */
  method Consume<V, E>(e: Engine<V, E>, k: nat) returns (values: seq<V>, last: Answer<E>, e': Engine<V, E>)
    requires Valid(e) && k < |e.running| && !e.latch.Open?
    ensures values == Values(if e.running[k] && Buffered(e, k) != [] then Buffered(e, k)[1..] else Buffered(e, k))
    ensures last == LatchAnswer(e.latch)
    ensures Valid(e') && k < |e'.running| && Buffered(e', k) == []
  {
    var target := if e.running[k] && Buffered(e, k) != [] then Buffered(e, k)[1..] else Buffered(e, k);
    var r := Advance(e, k);
    FirstPull(e, k);
    values := [];
    while r.answer.Yes?
      invariant Valid(r.engine) && k < |r.engine.running| && r.engine.running[k] && r.engine.latch == e.latch
      invariant r.answer.Yes? <==> Buffered(r.engine, k) != []
      invariant Buffered(r.engine, k) == [] ==> r.answer == LatchAnswer(e.latch)
      invariant values + Values(Buffered(r.engine, k)) == Values(target)
      decreases |Buffered(r.engine, k)|
    {
      var c := Buffered(r.engine, k);
      var v := Current(r.engine, k);
      ValuesStep(values, c);
      values := values + [v.value];
      NextPull(r.engine, k);
      r := Advance(r.engine, k);
    }
    last, e' := r.answer, r.engine;
  }

  lemma ValuesStep<V>(done: seq<V>, c: seq<Item<V>>)
    requires c != []
    ensures (done + [c[0].value]) + Values(c[1..]) == done + Values(c)
  {
    assert Values(c) == [c[0].value] + Values(c[1..]);
  }

  /** The first pull of a drain: what `advance` leaves buffered and answers. */
  lemma FirstPull<V, E>(e: Engine<V, E>, k: nat)
    requires Valid(e) && k < |e.running| && !e.latch.Open?
    ensures var r := Advance(e, k);
      var c := Buffered(e, k);
      && Valid(r.engine) && k < |r.engine.running| && r.engine.running[k] && r.engine.latch == e.latch
      && Buffered(r.engine, k) == (if e.running[k] && c != [] then c[1..] else c)
      && (r.answer.Yes? <==> Buffered(r.engine, k) != [])
      && (Buffered(r.engine, k) == [] ==> r.answer == LatchAnswer(e.latch))
  {
    var d := Drop(e, k);
    assert Advance(e, k).engine == d.engine;
  }

  /** A later pull of a drain drops exactly the current item. */
  lemma NextPull<V, E>(e: Engine<V, E>, k: nat)
    requires Valid(e) && k < |e.running| && !e.latch.Open? && e.running[k] && Buffered(e, k) != []
    ensures var r := Advance(e, k);
      && Valid(r.engine) && k < |r.engine.running| && r.engine.running[k] && r.engine.latch == e.latch
      && Buffered(r.engine, k) == Buffered(e, k)[1..]
      && (r.answer.Yes? <==> Buffered(r.engine, k) != [])
      && (Buffered(r.engine, k) == [] ==> r.answer == LatchAnswer(e.latch))
  {
    FirstPull(e, k);
  }

  /** Cold replay: a cursor cloned from a fresh engine after it emitted `xs`
      and completed sees all of `xs`, then `false`. */
  method ColdReplay<V, E>(xs: seq<V>) returns (values: seq<V>, last: Answer<E>)
    ensures values == xs && last == No
  {
    var e := Fresh<V, E>();
    FreshIsEmpty<V, E>();
    var filled := EmitAll(e, xs).value;
    assert Values(Buffered(filled, 0)) == xs;
    var done := Complete(filled).value.engine;
    assert Buffered(done, 0) == Buffered(filled, 0);
    var c := CloneCursor(done, 0);
    assert Values(Buffered(c, 1)) == xs;
    var drained;
    values, last, drained := Consume(c, 1);
  }
}
