/** `InteractiveProducer` (src/InteractiveProducer.php): the pull engine
    fed by the coroutines a factory returns, with a lifetime that completes
    or fails the engine, and `_detach` on the shared running count. */
module Interactive {
  import opened Results
  import opened PullEngine
  import Relay

  /** What the factory puts in its array: an `Iterator`, a `Generator`, or
      anything else. */
  datatype Source = IteratorSource | GeneratorSource | OtherValue

  /** What the factory returns: not an array, or an array of sources. */
  datatype Factory = NotArray | Elements(items: seq<Source>)

  /** How the constructor runs one source: an `Iterator` through the relay,
      a `Generator` as a coroutine of its own. */
  datatype Runner = Relayed | Driven

  /** The coroutine per source, or the type error for the first source that
      is neither an `Iterator` nor a `Generator`. */
  function Runners(items: seq<Source>): (r: Result<seq<Runner>, Fault>)
    ensures r.Err? <==> exists i :: 0 <= i < |items| && items[i].OtherValue?
    ensures r.Err? ==> r.error == NotIteratorOrGenerator
    ensures r.Ok? ==> && |r.value| == |items|
                      && forall i :: 0 <= i < |items| ==> (r.value[i].Relayed? <==> items[i].IteratorSource?)
    decreases |items|
  {
    if items == [] then Ok([])
    else if items[0].OtherValue? then Err(NotIteratorOrGenerator)
    else
      match Runners(items[1..])
      case Err(f) =>
        assert exists i :: 0 <= i < |items| && items[i].OtherValue? by {
          var j :| 0 <= j < |items[1..]| && items[1..][j].OtherValue?;
          assert items[j + 1].OtherValue?;
        }
        Err(f)
      case Ok(rs) =>
        var r := if items[0].IteratorSource? then Relayed else Driven;
        assert forall i :: 0 < i < |items| ==> items[i] == items[1..][i - 1];
        Ok([r] + rs)
  }

  /** The constructor's loop: one coroutine per source; it throws when the
      factory result is not an array or holds a source of the wrong type.
      The result is the coroutines only; the engine they feed is not part
      of it. */
  function Construct(f: Factory): (r: Result<seq<Runner>, Fault>)
    ensures f.NotArray? ==> r == Err(NotAnArray)
    ensures f.Elements? ==> (r.Err? <==> exists i :: 0 <= i < |f.items| && f.items[i].OtherValue?)
    ensures f.Elements? && r.Err? ==> r.error == NotIteratorOrGenerator
    ensures r.Ok? ==> && |r.value| == |f.items|
                      && forall i :: 0 <= i < |f.items| ==> (r.value[i].Relayed? <==> f.items[i].IteratorSource?)
  {
    match f
    case NotArray => Err(NotAnArray)
    case Elements(items) => Runners(items)
  }

  /** `create`: one upstream iterator, run through the relay. */
  function Create(): (r: Result<seq<Runner>, Fault>)
    ensures r == Ok([Relayed])
  {
    var items := [IteratorSource];
    assert forall i :: 0 <= i < |items| ==> !items[i].OtherValue?;
    var r := Construct(Elements(items));
    assert r.value == [r.value[0]] && r.value[0] == Relayed;
    r
  }

  /** `from_producerish`: whatever the callable returns is the one source. */
  function FromProducerish(s: Source): (r: Result<seq<Runner>, Fault>)
    ensures r.Ok? <==> !s.OtherValue?
    ensures r.Ok? ==> |r.value| == 1 && (r.value[0].Driven? <==> s.GeneratorSource?)
  {
    Construct(Elements([s]))
  }

  /** The lifetime of the coroutines settles (`outcome` is its error, if
      any): nothing happens when the latch is already set; an error fails
      the engine; success completes it. */
  function Lifetime<V, E>(e: Engine<V, E>, outcome: Option<E>): (r: Closed<V, E>)
    requires Valid(e)
    ensures Valid(r.engine) && !r.engine.latch.Open?
    ensures !e.latch.Open? ==> r == Closed(e, None)
    ensures e.latch.Open? ==>
      && r.woke == e.waiter
      && r.engine == e.(latch := if outcome.Some? then Failed(outcome.value) else Completed, waiter := None)
  {
    if !e.latch.Open? then Closed(e, None)
    else match outcome
      case Some(x) => Fail(e, x)
      case None => Complete(e).value
  }

  /** Along the lifetime path the latch changes at most once: a second
      settlement changes nothing, and `complete` then throws. */
  lemma LifetimeOnce<V, E>(e: Engine<V, E>, o1: Option<E>, o2: Option<E>)
    requires Valid(e)
    ensures Lifetime(Lifetime(e, o1).engine, o2).engine == Lifetime(e, o1).engine
    ensures Complete(Lifetime(e, o1).engine) == Err(AlreadyCompleted)
  {
  }

  /** `_detach` on cursor `k`: a running cursor gives up its share of the
      count, and the hot flag is cleared when the count reaches zero. The
      cursor stays marked running. */
  function Detach<V, E>(e: Engine<V, E>, k: nat): (r: Engine<V, E>)
    requires Valid(e) && k < |e.running|
    ensures Valid(r)
    ensures r.count == (if e.running[k] then e.count - 1 else e.count)
    ensures r.hot <==> e.hot && !(e.running[k] && r.count == 0)
    ensures r == e.(count := r.count, hot := r.hot)
  {
    if !e.running[k] then e
    else
      var c := e.count - 1;
      e.(count := c, hot := if c == 0 then false else e.hot)
  }

  // ---------------------------------------------------------------------------
  // Runs of events

  /** The events that reach an `InteractiveProducer`. */
  datatype Event<V, E> =
    | EmitValue(v: V)
    | EmitFuture
    | SettleFuture(o: Outcome<V, E>)
    | Finish(outcome: Option<E>)
    | CompleteNow
    | FailNow(x: E)
    | AdvanceCursor(k: nat)
    | CloneCursorOf(k: nat)
    | DetachCursor(k: nat)

  /** One event; one that throws, or names no cursor, changes nothing. */
  function Step<V, E>(e: Engine<V, E>, ev: Event<V, E>): (r: Engine<V, E>)
    requires Valid(e)
    ensures Valid(r) && |r.running| >= |e.running|
    ensures r.hot ==> e.hot
    ensures e.count - 1 <= r.count <= e.count
  {
    match ev
    case EmitValue(v) => (match Emit(e, v) case Ok(m) => m.engine case Err(_) => e)
    case EmitFuture => (match EmitPromise(e) case Ok(p) => p.0 case Err(_) => e)
    case SettleFuture(o) => Settle(e, o).engine
    case Finish(o) => Lifetime(e, o).engine
    case CompleteNow => (match Complete(e) case Ok(c) => c.engine case Err(_) => e)
    case FailNow(x) => Fail(e, x).engine
    case AdvanceCursor(k) => if k < |e.running| then Advance(e, k).engine else e
    case CloneCursorOf(k) => if k < |e.running| then CloneCursor(e, k) else e
    case DetachCursor(k) => if k < |e.running| then Detach(e, k) else e
  }

  /** A run of events: the hot flag is never raised, and the running count
      never grows. */
  function Run<V, E>(e: Engine<V, E>, evs: seq<Event<V, E>>): (r: Engine<V, E>)
    requires Valid(e)
    ensures Valid(r) && |r.running| >= |e.running|
    ensures r.hot ==> e.hot
    ensures r.count <= e.count
    decreases |evs|
  {
    if evs == [] then e else Run(Step(e, evs[0]), evs[1..])
  }

  /** Nothing in an `InteractiveProducer` ever sets its hot flag, and its
      count never rises above zero, whatever the events. */
  lemma ColdForever<V, E>(evs: seq<Event<V, E>>)
    ensures !Run(Fresh<V, E>(), evs).hot && Run(Fresh<V, E>(), evs).count <= 0
  {
  }

  /** So the relay of an `InteractiveProducer` waits for the backpressure of
      every item it forwards, whatever happened before each forward. */
  lemma RelayWaitsEveryTime<V, E>(items: seq<V>, before: seq<seq<Event<V, E>>>)
    requires |before| == |items|
    ensures var hot := seq(|items|, i requires 0 <= i < |items| => Run(Fresh<V, E>(), before[i]).hot);
      Relay.Awaits(Relay.Trace(items, hot)) == |items| && Relay.Forwarded(Relay.Trace(items, hot)) == items
  {
    var hot := seq(|items|, i requires 0 <= i < |items| => Run(Fresh<V, E>(), before[i]).hot);
    forall i | 0 <= i < |items|
      ensures !hot[i]
    {
      ColdForever(before[i]);
    }
    Relay.TraceFaithful(items, hot);
    Relay.ColdCounts(hot);
  }
}
