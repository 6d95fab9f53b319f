/** The operators of src/Operators.php whose behaviour over a finite
    upstream is a plain list function: `map`, `take`, `first`, `zip`, and the
    generators `range`, `just` and `empty`.

    An upstream is the finite list of items its `advance`/`getCurrent` pairs
    deliver before `advance` answers `false`; a pull is one `advance`. */
module ListOperators {
  import opened Results

  // ---------------------------------------------------------------------------
  // Generators

  /** What a generator body does: emit a value, or yield a deferral. */
  datatype Action<V> = Emit(value: V) | Defer

  /** The values a generator body emits, in order. */
  function Emitted<V>(t: seq<Action<V>>): seq<V> {
    if t == [] then [] else (if t[0].Emit? then [t[0].value] else []) + Emitted(t[1..])
  }

  lemma {:induction false} EmittedAppend<V>(a: seq<Action<V>>, b: seq<Action<V>>)
    ensures Emitted(a + b) == Emitted(a) + Emitted(b)
    decreases |a|
  {
    if a == [] {
      assert a + b == b;
    } else {
      assert (a + b)[0] == a[0];
      assert (a + b)[1..] == a[1..] + b;
      EmittedAppend(a[1..], b);
    }
  }

  /** `range(n, max)`: emit `n`, defer, and count up while below `max`. */
  function RangeBody(n: int, max: int): seq<Action<int>>
    decreases max - n
  {
    if n >= max then [] else [Emit(n), Defer] + RangeBody(n + 1, max)
  }

  /** The integers from `n` up to, not including, `max`. */
  function Interval(n: int, max: int): (r: seq<int>)
    ensures |r| == (if n < max then max - n else 0)
    ensures forall i :: 0 <= i < |r| ==> r[i] == n + i
  {
    if n < max then seq(max - n, i requires 0 <= i < max - n => n + i) else []
  }

  /** `range(n, max)` emits exactly `n, n+1, …, max-1`, one deferral after each. */
  lemma {:induction false} RangeEmitsInterval(n: int, max: int)
    ensures Emitted(RangeBody(n, max)) == Interval(n, max)
    decreases max - n
  {
    if n < max {
      RangeEmitsInterval(n + 1, max);
      var head: seq<Action<int>> := [Emit(n), Defer];
      EmittedAppend(head, RangeBody(n + 1, max));
      assert head[1..] == [Defer] && head[1..][1..] == [];
      assert Emitted(head) == [n];
      assert Interval(n, max) == [n] + Interval(n + 1, max);
    }
  }

  /** A range splits at any point between its ends. */
  lemma {:induction false} RangeSplits(n: int, m: int, max: int)
    requires n <= m <= max
    ensures RangeBody(n, max) == RangeBody(n, m) + RangeBody(m, max)
    decreases m - n
  {
    if n < m {
      RangeSplits(n + 1, m, max);
    }
  }

  /** `just(x)` emits `x` and ends. */
  function JustBody<V>(x: V): (t: seq<Action<V>>)
    ensures Emitted(t) == [x]
  {
    [Emit(x)]
  }

  /** `empty()` ends without emitting. */
  function EmptyBody<V>(): seq<Action<V>> {
    []
  }

  lemma EmptyEmitsNothing<V>()
    ensures Emitted(EmptyBody<V>()) == []
  {
  }

  // ---------------------------------------------------------------------------
  // Operators over one upstream

  /** `map(f)` on plain values: one transformed item per upstream item, in
      order. A promise-valued item would be appended only once it settles. */
  function Map<A, B>(src: seq<A>, f: A -> B): (r: seq<B>)
    ensures |r| == |src| && forall i :: 0 <= i < |src| ==> r[i] == f(src[i])
  {
    if src == [] then [] else [f(src[0])] + Map(src[1..], f)
  }

  /** `map` distributes over concatenation of upstreams. */
  lemma MapAppend<A, B>(a: seq<A>, b: seq<A>, f: A -> B)
    ensures Map(a + b, f) == Map(a, f) + Map(b, f)
  {
    var l, r := Map(a + b, f), Map(a, f) + Map(b, f);
    assert |l| == |r|;
    forall i | 0 <= i < |l|
      ensures l[i] == r[i]
    {
      if i < |a| {
        assert (a + b)[i] == a[i];
      } else {
        assert (a + b)[i] == b[i - |a|];
      }
    }
  }

  /** `first()`: the first item, or null for an empty upstream. */
  function First<V>(src: seq<V>): (r: Option<V>)
    ensures r.None? <==> src == []
    ensures r.Some? ==> r.value == src[0]
  {
    if src == [] then None else Some(src[0])
  }

  /** The value `first()` resolves to when items may themselves be null
      (`None`): `getCurrent` after one pull, or null when the upstream is
      empty. A null result does not tell the two cases apart. */
  function FirstValue<V>(src: seq<Option<V>>): (r: Option<V>)
    ensures r.None? <==> src == [] || src[0].None?
    ensures r.Some? ==> src != [] && src[0] == r
  {
    match First(src)
    case None => None
    case Some(x) => x
  }

  /** An empty upstream and one whose first item is null give the same
      result, so "null iff empty" fails as soon as an item can be null. */
  lemma FirstNullAmbiguous<V>(x: V)
    ensures FirstValue<V>([]) == FirstValue([None]) == None
    ensures FirstValue([Some(x)]) == Some(x)
  {
  }

  /** `take(n)`: pulls while `n` is positive and the upstream answers `true`,
      emitting each current item and counting `n` down. It emits the first
      `n` items (all of them when there are fewer), and pulls `n` times, or
      once more than the upstream has items when it runs out first. */
  method Take<V>(src: seq<V>, n: int) returns (out: seq<V>, pulls: nat)
    ensures out == src[..(if n <= 0 then 0 else if n <= |src| then n else |src|)]
    ensures pulls == (if n <= 0 then 0 else if n <= |src| then n else |src| + 1)
  {
    out, pulls := [], 0;
    var left := n;
    var more := true;
    while left > 0 && more
      invariant 0 <= |out| <= |src| && out == src[..|out|]
      invariant left == n - |out|
      invariant n <= 0 ==> out == [] && pulls == 0
      invariant n > 0 ==> left >= 0
      invariant more ==> pulls == |out|
      invariant !more ==> pulls == |src| + 1 && |out| == |src| && left > 0
      decreases left, more
    {
      pulls := pulls + 1;
      more := |out| < |src|;
      if more {
        out := out + [src[|out|]];
        left := left - 1;
      }
    }
  }

  /** `first` agrees with `take(1)`: both pull once and keep the item that
      pull delivered, if any. */
  method FirstAgreesWithTake<V>(src: seq<V>) returns (out: seq<V>, pulls: nat)
    ensures pulls == 1 && |out| <= 1
    ensures First(src) == (if out == [] then None else Some(out[0]))
  {
    out, pulls := Take(src, 1);
  }

  // ---------------------------------------------------------------------------
  // zip

  function Min(a: nat, b: nat): nat {
    if a <= b then a else b
  }

  /** `zip(left, right, combiner)`: advances both upstreams together and, while
      neither answers `false`, emits the combination of their current items.
      Both are advanced once more than the shorter one has items, so the
      longer one loses one item it never emits. */
  method Zip<A, B, C>(left: seq<A>, right: seq<B>, combine: (A, B) -> C) returns (out: seq<C>, pulls: nat)
    ensures |out| == Min(|left|, |right|)
    ensures forall k :: 0 <= k < |out| ==> out[k] == combine(left[k], right[k])
    ensures pulls == Min(|left|, |right|) + 1
  {
    out, pulls := [], 0;
    var going := true;
    while going
      invariant |out| <= |left| && |out| <= |right|
      invariant forall k :: 0 <= k < |out| ==> out[k] == combine(left[k], right[k])
      invariant going ==> pulls == |out|
      invariant !going ==> pulls == |out| + 1 && |out| == Min(|left|, |right|)
      decreases Min(|left|, |right|) - |out|, going
    {
      pulls := pulls + 1;
      var l, r := |out| < |left|, |out| < |right|;
      if l && r {
        out := out + [combine(left[|out|], right[|out|])];
      } else {
        going := false;
      }
    }
  }

  /** The `zip` test with ready values: "PB&J", "Left & Right", "K&R". */
  method ZipSandwiches() returns (out: seq<string>)
    ensures out == ["PB&J", "Left & Right", "K&R"]
  {
    var pulls;
    out, pulls := Zip(["PB", "Left ", "K"], ["J", " Right", "R"], (l: string, r: string) => l + "&" + r);
    assert out[0] == "PB&J" && out[1] == "Left & Right" && out[2] == "K&R";
  }
}
