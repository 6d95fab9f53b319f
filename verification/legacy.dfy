/** The legacy engine of src/BaseProducer.php and src/Producer.php: a
    replay buffer seeded with a null sentinel in front of an `\Amp\Producer`
    that does the actual pulling.

    The upstream `\Amp\Producer` is foreign: its `advance` is the answer
    `AskUpstream`, and its current value is a parameter of `Current`. The
    buffer holds `Option<V>` so that the sentinel (`None`) can sit in it. */
module Legacy {
  import opened Results
  import RQ = ReplayQueue
  import Relay
  import Interactive

  /** The state shared by all cursors cloned from one `Producer`, plus the
      per-cursor running flags. `iterators` is the upstream `BaseProducer`s
      that `_detach` passes on to (by index). */
  datatype Base<V> = Base(
    buffer: RQ.Family<Option<V>>,
    running: seq<bool>,
    count: int,
    hot: bool,
    iterators: seq<nat>)

  ghost predicate Valid<V>(l: Base<V>) {
    RQ.Inv(l.buffer) && |l.running| == |l.buffer.copies| && |l.running| > 0
  }

  function Buffered<V>(l: Base<V>, k: nat): seq<Option<V>>
    requires Valid(l) && k < |l.running|
  {
    RQ.Contents(l.buffer, k)
  }

  /** The constructor: a buffer holding one null sentinel, a zero count, a
      cleared hot flag, and an empty `iterators` (the constructor assigns a
      copy of the local array, which only the local then fills). */
  function Fresh<V>(): Base<V> {
    Base(RQ.New([None]), [false], 0, false, [])
  }

  /** The constructor's loop over what the factory returns: an `Iterator`
      is first coerced into a generator that runs the relay, and every
      element then goes to `new Coroutine`, which accepts only a `Generator`.
      Anything else is the type error that `new Coroutine` raises; it is
      raised inside the upstream `\Amp\Producer`, after the coroutines for
      the elements before it were started, and fails that producer rather
      than the constructor. */
  function Coroutines(items: seq<Interactive.Source>): (r: Result<seq<Interactive.Runner>, Fault>)
    ensures r.Err? <==> exists i :: 0 <= i < |items| && items[i].OtherValue?
    ensures r.Err? ==> r.error == NotAGenerator
    ensures r.Ok? ==> |r.value| == |items|
    ensures r.Ok? ==> forall i :: 0 <= i < |items| ==>
      (r.value[i].Relayed? <==> items[i].IteratorSource?) && (r.value[i].Driven? <==> items[i].GeneratorSource?)
    decreases |items|
  {
    if items == [] then Ok([])
    else if items[0].OtherValue? then Err(NotAGenerator)
    else
      match Coroutines(items[1..])
      case Err(f) =>
        assert exists i :: 0 <= i < |items| && items[i].OtherValue? by {
          var j :| 0 <= j < |items[1..]| && items[1..][j].OtherValue?;
          assert items[j + 1].OtherValue?;
        }
        Err(f)
      case Ok(rest) =>
        assert forall i :: 0 < i < |items| ==> items[i] == items[1..][i - 1];
        Ok([if items[0].IteratorSource? then Interactive.Relayed else Interactive.Driven] + rest)
  }

  /** `create`: a factory returning just the one upstream iterator. */
  function Create<V>(): (Base<V>, Result<seq<Interactive.Runner>, Fault>) {
    (Fresh(), Coroutines([Interactive.IteratorSource]))
  }

  /** A new producer holds exactly the sentinel, has one cursor that has not
      advanced, a zero count, a cleared hot flag and no upstream producers. */
  lemma StartsWithSentinel<V>()
    ensures var l := Fresh<V>();
      Valid(l) && |l.running| == 1 && Buffered(l, 0) == [None] && !l.running[0]
      && l.count == 0 && !l.hot && l.iterators == []
  {
  }

  /** `create` is a new producer whose one source, an iterator, the
      constructor's loop runs through the relay without a type error. */
  lemma CreateStartsFresh<V>()
    ensures Create<V>().0 == Fresh<V>() && Create<V>().1 == Ok([Interactive.Relayed])
  {
    var items := [Interactive.IteratorSource];
    assert forall i :: 0 <= i < |items| ==> !items[i].OtherValue?;
    var rs := Create<V>().1.value;
    assert |rs| == 1 && rs[0].Relayed?;
    assert rs == [rs[0]];
  }

  /** What `advance` returns: `Success(true)` because an item is buffered, or
      the upstream's own `advance`. */
  datatype Produced = Ready | AskUpstream

  /** `advance` on cursor `k` (with `_produce`): raises the shared hot flag,
      marks the cursor running, drops the front item if there is one, and
      then answers from the buffer or asks upstream. The count does not
      change. */
  function Advance<V>(l: Base<V>, k: nat): (r: (Base<V>, Produced))
    requires Valid(l) && k < |l.running|
    ensures Valid(r.0) && |r.0.running| == |l.running|
    ensures var c := Buffered(l, k);
      && Buffered(r.0, k) == (if c == [] then c else c[1..])
      && forall j :: 0 <= j < |l.running| && j != k ==> Buffered(r.0, j) == Buffered(l, j)
    ensures r.0 == l.(buffer := r.0.buffer, hot := true, running := l.running[k := true])
    ensures r.1.Ready? <==> Buffered(r.0, k) != []
  {
    var l1 := l.(hot := true, running := l.running[k := true]);
    // a shift of an empty copy throws exactly when `is_empty` holds
    var l2 := match RQ.ShiftCopy(l.buffer, k)
      case Err(_) => l1
      case Ok(t) => l1.(buffer := t.family);
    if !RQ.IsEmpty(l2.buffer.heap, l2.buffer.copies[k]) then (l2, Ready) else (l2, AskUpstream)
  }

  /** `getCurrent` on cursor `k`, where `upstream` is the upstream's current
      value: with nothing buffered it first adds that value through this
      cursor, which every cursor then sees; it returns the front item. */
  function Current<V>(l: Base<V>, k: nat, upstream: V): (r: (Base<V>, Option<V>))
    requires Valid(l) && k < |l.running|
    ensures Valid(r.0) && |r.0.running| == |l.running|
    ensures Buffered(l, k) != [] ==> r == (l, Buffered(l, k)[0])
    ensures Buffered(l, k) == [] ==>
      && r.1 == Some(upstream)
      && r.0 == l.(buffer := r.0.buffer)
      && forall j :: 0 <= j < |l.running| ==> Buffered(r.0, j) == Buffered(l, j) + [Some(upstream)]
  {
    var l1 := if RQ.IsEmpty(l.buffer.heap, l.buffer.copies[k]) then l.(buffer := RQ.AddVia(l.buffer, k, Some(upstream))) else l;
    match RQ.Peek(l1.buffer.heap, l1.buffer.copies[k])
    case Ok(v) => (l1, v)
    case Err(_) => (l1, None)
  }

  /** Repeated `getCurrent` without an `advance` returns the same value and
      changes nothing the second time, whatever the upstream reports then. */
  lemma CurrentStable<V>(l: Base<V>, k: nat, u1: V, u2: V)
    requires Valid(l) && k < |l.running|
    ensures var (l1, v1) := Current(l, k, u1);
      Current(l1, k, u2) == (l1, v1)
  {
    var (l1, v1) := Current(l, k, u1);
    if Buffered(l, k) == [] {
      assert Buffered(l1, k) == [Some(u1)];
    }
  }

  /** A fresh producer hands out its sentinel before the first `advance`,
      and the first `advance` discards it and asks upstream. */
  lemma SentinelFirst<V>(u: V)
    ensures Current(Fresh<V>(), 0, u).1 == None
    ensures Advance(Fresh<V>(), 0).1 == AskUpstream && Buffered(Advance(Fresh<V>(), 0).0, 0) == []
  {
  }

  /** `_detach` on cursor `k`: the base part gives up a running cursor's
      share of the count and clears the hot flag when the count reaches
      zero; then, only if the hot flag is cleared, every upstream in
      `iterators` is detached too (returned in order). */
  function Detach<V>(l: Base<V>, k: nat): (r: (Base<V>, seq<nat>))
    requires Valid(l) && k < |l.running|
    ensures Valid(r.0)
    ensures r.0.count == (if l.running[k] then l.count - 1 else l.count)
    ensures r.0.hot <==> l.hot && !(l.running[k] && r.0.count == 0)
    ensures r.0 == l.(count := r.0.count, hot := r.0.hot)
    ensures r.1 == (if r.0.hot then [] else l.iterators)
  {
    var l1 := if !l.running[k] then l
      else
        var c := l.count - 1;
        l.(count := c, hot := if c == 0 then false else l.hot);
    (l1, if !l1.hot then l.iterators else [])
  }

  /** `clone` of cursor `k`: an independent buffer head, the running flag
      copied, the count and hot flag shared. */
  function CloneCursor<V>(l: Base<V>, k: nat): (r: Base<V>)
    requires Valid(l) && k < |l.running|
    ensures Valid(r) && |r.running| == |l.running| + 1
    ensures Buffered(r, |l.running|) == Buffered(l, k)
    ensures forall j :: 0 <= j < |l.running| ==> Buffered(r, j) == Buffered(l, j)
    ensures r == l.(buffer := r.buffer, running := l.running + [l.running[k]])
  {
    l.(buffer := RQ.CloneCopy(l.buffer, k), running := l.running + [l.running[k]])
  }

  // ---------------------------------------------------------------------------
  // Runs of events

  datatype Event<V> = AdvanceOf(k: nat) | CurrentOf(k: nat, upstream: V) | CloneOf(k: nat) | DetachOf(k: nat)

  /** One event; one naming no cursor changes nothing. */
  function Step<V>(l: Base<V>, ev: Event<V>): (r: Base<V>)
    requires Valid(l)
    ensures Valid(r) && r.iterators == l.iterators
    ensures l.count <= 0 ==> r.count <= 0 && (l.hot ==> r.hot)
  {
    match ev
    case AdvanceOf(k) => if k < |l.running| then Advance(l, k).0 else l
    case CurrentOf(k, u) => if k < |l.running| then Current(l, k, u).0 else l
    case CloneOf(k) => if k < |l.running| then CloneCursor(l, k) else l
    case DetachOf(k) => if k < |l.running| then Detach(l, k).0 else l
  }

  /** A run of events: since the count never rises above zero, a detach
      never brings it to zero, so once raised the hot flag stays raised. */
  function Run<V>(l: Base<V>, evs: seq<Event<V>>): (r: Base<V>)
    requires Valid(l)
    ensures Valid(r) && r.iterators == l.iterators
    ensures l.count <= 0 ==> r.count <= 0 && (l.hot ==> r.hot)
    decreases |evs|
  {
    if evs == [] then l else Run(Step(l, evs[0]), evs[1..])
  }

  /** From a fresh producer, `_detach` never passes anything upstream. */
  lemma DetachPassesNothing<V>(evs: seq<Event<V>>, k: nat)
    requires k < |Run(Fresh<V>(), evs).running|
    ensures Detach(Run(Fresh<V>(), evs), k).1 == []
  {
  }

  /** Some event of the run is an `advance`. */
  ghost predicate Advances<V>(evs: seq<Event<V>>) {
    exists i :: 0 <= i < |evs| && evs[i].AdvanceOf?
  }

  /** From a count at or below zero, the hot flag is raised after a run if
      it was raised before or the run advances cursor 0 (which always
      exists), and it stays cleared if it was cleared and nothing advances. */
  lemma {:induction false} HotOnceAdvanced<V>(l: Base<V>, evs: seq<Event<V>>)
    requires Valid(l) && l.count <= 0
    ensures (l.hot || exists i :: 0 <= i < |evs| && evs[i] == AdvanceOf(0)) ==> Run(l, evs).hot
    ensures !l.hot && !Advances(evs) ==> !Run(l, evs).hot
    decreases |evs|
  {
    if evs != [] {
      var l' := Step(l, evs[0]);
      HotOnceAdvanced(l', evs[1..]);
      if exists i :: 0 <= i < |evs| && evs[i] == AdvanceOf(0) {
        var i :| 0 <= i < |evs| && evs[i] == AdvanceOf(0);
        if i > 0 {
          assert evs[1..][i - 1] == AdvanceOf(0);
        }
      }
      if !Advances(evs) {
        assert forall j :: 0 <= j < |evs[1..]| ==> evs[1..][j] == evs[j + 1];
      }
    }
  }

  /** The relays start inside the constructor, so a relay may read the hot
      flag before any `advance`. A reading taken before any `advance` is
      `false` and makes the relay wait on that item's backpressure; a
      reading taken after an `advance` on cursor 0 is `true` and does not. */
  lemma RelayWaitsUntilAdvance<V>(items: seq<V>, before: seq<seq<Event<V>>>)
    requires |before| == |items|
    ensures var hot := seq(|items|, i requires 0 <= i < |items| => Run(Fresh<V>(), before[i]).hot);
      && Relay.Awaits(Relay.Trace(items, hot)) == Relay.Cold(hot)
      && Relay.Forwarded(Relay.Trace(items, hot)) == items
      && (forall i :: 0 <= i < |items| && !Advances(before[i]) ==> !hot[i])
      && (forall i :: 0 <= i < |items| && (exists j :: 0 <= j < |before[i]| && before[i][j] == AdvanceOf(0)) ==> hot[i])
  {
    var hot := seq(|items|, i requires 0 <= i < |items| => Run(Fresh<V>(), before[i]).hot);
    forall i | 0 <= i < |items|
      ensures !Advances(before[i]) ==> !hot[i]
      ensures (exists j :: 0 <= j < |before[i]| && before[i][j] == AdvanceOf(0)) ==> hot[i]
    {
      HotOnceAdvanced(Fresh<V>(), before[i]);
    }
    Relay.TraceFaithful(items, hot);
  }

  /** So once cursor 0 has advanced, every reading of the hot flag is
      `true` and the relay forwards without waiting on backpressure. */
  lemma RelayNeverWaits<V>(items: seq<V>, before: seq<seq<Event<V>>>)
    requires |before| == |items|
    ensures var hot := seq(|items|, i requires 0 <= i < |items| => Run(Fresh<V>(), [AdvanceOf(0)] + before[i]).hot);
      Relay.Awaits(Relay.Trace(items, hot)) == 0 && Relay.Forwarded(Relay.Trace(items, hot)) == items
  {
    var hot := seq(|items|, i requires 0 <= i < |items| => Run(Fresh<V>(), [AdvanceOf(0)] + before[i]).hot);
    forall i | 0 <= i < |items|
      ensures hot[i]
    {
      var evs := [AdvanceOf(0)] + before[i];
      assert evs[0] == AdvanceOf(0) && evs[1..] == before[i];
      assert Step(Fresh<V>(), evs[0]).hot;
    }
    Relay.TraceFaithful(items, hot);
    Relay.ColdCounts(hot);
  }
}
