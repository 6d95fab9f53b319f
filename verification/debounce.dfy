/** `debounce(timespan)` of src/Operators.php: every item bumps a shared
    counter and starts a timer of `timespan` milliseconds; when the timer
    expires the item is emitted only if the counter still holds the value it
    stashed, that is, if no later item has arrived in the meantime.

    The timeline is the list of arrivals with their times, in arrival order.
    An item that arrives exactly when an earlier item's timer expires is
    taken to arrive first, so it supersedes that item. */
module Debounce {

  datatype Arrival<V> = Arrival(value: V, time: nat)

  /** Arrival times never go backwards. */
  ghost predicate Monotone<V>(a: seq<Arrival<V>>) {
    forall i, j :: 0 <= i < j < |a| ==> a[i].time <= a[j].time
  }

  /** The counter at time `t`: how many items have arrived by then. */
  function CountBy<V>(a: seq<Arrival<V>>, t: nat): nat
    decreases |a|
  {
    if a == [] then 0 else CountBy(a[..|a| - 1], t) + (if a[|a| - 1].time <= t then 1 else 0)
  }

  /** The check at item `i`'s expiry, as written: the stashed counter (the
      item's own number, `i + 1`) against the counter at that time. */
  predicate Fires<V>(a: seq<Arrival<V>>, span: nat, i: nat)
    requires i < |a|
  {
    CountBy(a, a[i].time + span) == i + 1
  }

  /** The reference reading: some later item arrives before item `i`'s
      timespan has passed. */
  predicate Superseded<V>(a: seq<Arrival<V>>, span: nat, i: nat)
    requires i < |a|
  {
    exists j :: i < j < |a| && a[j].time <= a[i].time + span
  }

  /** The values of the first `n` items that are not superseded, in order. */
  function Survivors<V>(a: seq<Arrival<V>>, span: nat, n: nat): seq<V>
    requires n <= |a|
    decreases n
  {
    if n == 0 then []
    else Survivors(a, span, n - 1) + (if Superseded(a, span, n - 1) then [] else [a[n - 1].value])
  }

  // ---------------------------------------------------------------------------
  // The counter

  /** Counting over a split list adds up. */
  lemma {:induction false} CountSplit<V>(a: seq<Arrival<V>>, t: nat, m: nat)
    requires m <= |a|
    ensures CountBy(a, t) == CountBy(a[..m], t) + CountBy(a[m..], t)
    decreases |a|
  {
    if m < |a| {
      var n := |a| - 1;
      CountSplit(a[..n], t, m);
      assert a[..n][..m] == a[..m];
      assert a[m..][..|a[m..]| - 1] == a[..n][m..];
      assert a[m..][|a[m..]| - 1] == a[n];
    } else {
      assert a[..m] == a && a[m..] == [];
    }
  }

  /** The counter is the whole length exactly when everything has arrived by
      `t`, and zero exactly when nothing has. */
  lemma {:induction false} CountExtremes<V>(a: seq<Arrival<V>>, t: nat)
    ensures CountBy(a, t) <= |a|
    ensures CountBy(a, t) == |a| <==> forall j :: 0 <= j < |a| ==> a[j].time <= t
    ensures CountBy(a, t) == 0 <==> forall j :: 0 <= j < |a| ==> a[j].time > t
    decreases |a|
  {
    if a != [] {
      var n := |a| - 1;
      CountExtremes(a[..n], t);
      assert forall j :: 0 <= j < n ==> a[..n][j] == a[j];
    }
  }

  /** On a monotone timeline everything up to item `i` has arrived by its
      expiry. */
  lemma ArrivedBefore<V>(a: seq<Arrival<V>>, span: nat, i: nat)
    requires Monotone(a) && i < |a|
    ensures CountBy(a[..i + 1], a[i].time + span) == i + 1
  {
    var before := a[..i + 1];
    CountExtremes(before, a[i].time + span);
    forall j | 0 <= j < |before|
      ensures before[j].time <= a[i].time + span
    {
      assert before[j] == a[j];
    }
  }

  /** Nothing after item `i` has arrived by its expiry exactly when it is
      not superseded. */
  lemma NoneAfter<V>(a: seq<Arrival<V>>, span: nat, i: nat)
    requires i < |a|
    ensures CountBy(a[i + 1..], a[i].time + span) == 0 <==> !Superseded(a, span, i)
  {
    var t := a[i].time + span;
    var after := a[i + 1..];
    CountExtremes(after, t);
    if !Superseded(a, span, i) {
      forall j | 0 <= j < |after|
        ensures after[j].time > t
      {
        assert after[j] == a[i + 1 + j];
      }
    } else {
      var j :| i < j < |a| && a[j].time <= t;
      assert after[j - i - 1] == a[j];
    }
  }

  /** On a monotone timeline the counter check is exactly the reference:
      item `i` is emitted if and only if no later item arrives within its
      timespan. */
  lemma FiresIffNotSuperseded<V>(a: seq<Arrival<V>>, span: nat, i: nat)
    requires Monotone(a) && i < |a|
    ensures Fires(a, span, i) <==> !Superseded(a, span, i)
  {
    CountSplit(a, a[i].time + span, i + 1);
    ArrivedBefore(a, span, i);
    NoneAfter(a, span, i);
  }

  // ---------------------------------------------------------------------------
  // The operator

  /** The timers of the first `i` items have expired: `out` holds what they
      emitted and `fired` their positions, in order. */
  ghost predicate Expired<V>(a: seq<Arrival<V>>, span: nat, i: nat, out: seq<V>, fired: seq<nat>)
    requires i <= |a|
  {
    && out == Survivors(a, span, i)
    && |fired| == |out| && (forall k :: 0 <= k < |fired| ==> fired[k] < i && out[k] == a[fired[k]].value)
    && (forall k, l :: 0 <= k < l < |fired| ==> fired[k] < fired[l])
    && forall j :: 0 <= j < i ==> (j in fired <==> !Superseded(a, span, j))
  }

  /** Item `i`'s timer expires: compare the counter it stashed on arrival
      with the counter now, and emit on a match. */
  method Expire<V>(a: seq<Arrival<V>>, span: nat, i: nat, out: seq<V>, fired: seq<nat>) returns (out': seq<V>, fired': seq<nat>)
    requires Monotone(a) && i < |a| && Expired(a, span, i, out, fired)
    ensures Expired(a, span, i + 1, out', fired')
  {
    var stashed := i + 1;
    var counter := CountBy(a, a[i].time + span);
    FiresIffNotSuperseded(a, span, i);
    if stashed == counter {
      out', fired' := out + [a[i].value], fired + [i];
    } else {
      out', fired' := out, fired;
    }
  }

  /** Each item's timer, in arrival order (on a monotone timeline expiries
      come in that order too). The result is the items that are not
      superseded, in order; the last item is always emitted. */
  method Run<V>(a: seq<Arrival<V>>, span: nat) returns (out: seq<V>, fired: seq<nat>)
    requires Monotone(a)
    ensures out == Survivors(a, span, |a|)
    ensures |fired| == |out| && forall k :: 0 <= k < |fired| ==> fired[k] < |a| && out[k] == a[fired[k]].value
    ensures forall k, l :: 0 <= k < l < |fired| ==> fired[k] < fired[l]
    ensures forall i :: 0 <= i < |a| ==> (i in fired <==> !Superseded(a, span, i))
    ensures |a| > 0 ==> |out| > 0 && out[|out| - 1] == a[|a| - 1].value
  {
    out, fired := [], [];
    var i := 0;
    while i < |a|
      invariant 0 <= i <= |a| && Expired(a, span, i, out, fired)
    {
      out, fired := Expire(a, span, i, out, fired);
      i := i + 1;
    }
    if |a| > 0 {
      assert !Superseded(a, span, |a| - 1);
    }
  }

  // ---------------------------------------------------------------------------
  // The two timelines of the debounce tests

  /** `emit_some`: values 1 to 8 at 0, 0, 0, 10, 30, 50, 60 and 80 ms with a
      15 ms timespan. */
  function Bursty(): seq<Arrival<int>> {
    [Arrival(1, 0), Arrival(2, 0), Arrival(3, 0), Arrival(4, 10),
     Arrival(5, 30), Arrival(6, 50), Arrival(7, 60), Arrival(8, 80)]
  }

  lemma BurstyKeeps()
    ensures Survivors(Bursty(), 15, 8) == [4, 5, 7, 8]
  {
    var a := Bursty();
    assert Superseded(a, 15, 0) by { assert a[1].time <= a[0].time + 15; }
    assert Superseded(a, 15, 1) by { assert a[2].time <= a[1].time + 15; }
    assert Superseded(a, 15, 2) by { assert a[3].time <= a[2].time + 15; }
    assert Superseded(a, 15, 5) by { assert a[6].time <= a[5].time + 15; }
    assert !Superseded(a, 15, 3) && !Superseded(a, 15, 4) && !Superseded(a, 15, 6) && !Superseded(a, 15, 7);
  }

  /** The test's result: items 4, 5, 7 and 8 are emitted. */
  method BurstyRun() returns (out: seq<int>)
    ensures out == [4, 5, 7, 8]
  {
    var a := Bursty();
    assert Monotone(a);
    var fired;
    out, fired := Run(a, 15);
    BurstyKeeps();
  }

  /** `ready_items_only_emits_last`: 0, 1 and 2 all at once, timespan 10:
      only the last is emitted. */
  method ReadyRun() returns (out: seq<int>)
    ensures out == [2]
  {
    var a := [Arrival(0, 0), Arrival(1, 0), Arrival(2, 0)];
    assert Monotone(a);
    var fired;
    out, fired := Run(a, 10);
    assert Superseded(a, 10, 0) by { assert a[1].time <= a[0].time + 10; }
    assert Superseded(a, 10, 1) by { assert a[2].time <= a[1].time + 10; }
    assert !Superseded(a, 10, 2);
  }
}
