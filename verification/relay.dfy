/** `iterator_to_emitting_generator`, the coroutine both producers wrap
    around an upstream `Iterator` (src/InteractiveProducer.php and
    src/Producer.php): pull the upstream, forward its current value, and
    before the next pull wait for that value's backpressure unless the shared
    hot flag reads `true`. */
module Relay {

  datatype Action<V> = Pull | Forward(value: V) | Await

  /** The relay's actions over an upstream that yields `items` and then
      answers `false`, when the hot flag reads `hot[i]` as item `i` is
      forwarded. */
  function Trace<V>(items: seq<V>, hot: seq<bool>): seq<Action<V>>
    requires |hot| == |items|
  {
    if items == [] then [Pull]
    else [Pull, Forward(items[0])] + (if hot[0] then [] else [Await]) + Trace(items[1..], hot[1..])
  }

  /** The values a trace forwards, in order. */
  function Forwarded<V>(t: seq<Action<V>>): seq<V> {
    if t == [] then [] else (if t[0].Forward? then [t[0].value] else []) + Forwarded(t[1..])
  }

  function Pulls<V>(t: seq<Action<V>>): nat {
    if t == [] then 0 else (if t[0].Pull? then 1 else 0) + Pulls(t[1..])
  }

  function Awaits<V>(t: seq<Action<V>>): nat {
    if t == [] then 0 else (if t[0].Await? then 1 else 0) + Awaits(t[1..])
  }

  /** How many of the flag readings are not `true`. */
  function Cold(hot: seq<bool>): nat {
    if hot == [] then 0 else (if hot[0] then 0 else 1) + Cold(hot[1..])
  }

  lemma {:induction false} ForwardedAppend<V>(a: seq<Action<V>>, b: seq<Action<V>>)
    ensures Forwarded(a + b) == Forwarded(a) + Forwarded(b)
    ensures Pulls(a + b) == Pulls(a) + Pulls(b) && Awaits(a + b) == Awaits(a) + Awaits(b)
    decreases |a|
  {
    if a == [] {
      assert a + b == b;
    } else {
      assert (a + b)[0] == a[0];
      assert (a + b)[1..] == a[1..] + b;
      ForwardedAppend(a[1..], b);
    }
  }

  /** The relay forwards every upstream item, in order, pulls once more than
      it forwards, and waits once for every item forwarded while the hot flag
      was not `true`. */
  lemma {:induction false} TraceFaithful<V>(items: seq<V>, hot: seq<bool>)
    requires |hot| == |items|
    ensures Forwarded(Trace(items, hot)) == items
    ensures Pulls(Trace(items, hot)) == |items| + 1
    ensures Awaits(Trace(items, hot)) == Cold(hot)
    decreases |items|
  {
    if items != [] {
      var head: seq<Action<V>> := [Pull, Forward(items[0])] + (if hot[0] then [] else [Await]);
      TraceFaithful(items[1..], hot[1..]);
      ForwardedAppend(head, Trace(items[1..], hot[1..]));
      var tail: seq<Action<V>> := if hot[0] then [] else [Await];
      assert head[1..] == [Forward(items[0])] + tail;
      assert head[1..][1..] == tail;
      assert Forwarded(tail) == [] && Pulls(tail) == 0 && Awaits(tail) == (if hot[0] then 0 else 1) by {
        if !hot[0] {
          assert tail[1..] == [];
        }
      }
      assert items == [items[0]] + items[1..];
    }
  }

  /** A flag that never reads `true` makes the relay wait after every item;
      one that always does makes it never wait. */
  lemma {:induction false} ColdCounts(hot: seq<bool>)
    ensures (forall i :: 0 <= i < |hot| ==> !hot[i]) ==> Cold(hot) == |hot|
    ensures (forall i :: 0 <= i < |hot| ==> hot[i]) ==> Cold(hot) == 0
    decreases |hot|
  {
    if hot != [] {
      ColdCounts(hot[1..]);
      assert forall i :: 0 <= i < |hot[1..]| ==> hot[1..][i] == hot[i + 1];
    }
  }
}
