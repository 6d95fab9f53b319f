/** `group_by` of src/Operators.php over a finite upstream: one inner
    producer per key, emitted at the key's first occurrence, each receiving
    its key's items in upstream order, all completed when the upstream ends. */
module Grouping {

  /** The distinct keys of `src`, in order of first occurrence. */
  function FirstKeys<V, K(==)>(src: seq<V>, key: V -> K): seq<K>
    decreases |src|
  {
    if src == [] then []
    else
      var ks := FirstKeys(src[..|src| - 1], key);
      if key(src[|src| - 1]) in ks then ks else ks + [key(src[|src| - 1])]
  }

  /** The items of `src` whose key is `k`, in order. */
  function Members<V, K(==)>(src: seq<V>, key: V -> K, k: K): seq<V>
    decreases |src|
  {
    if src == [] then []
    else Members(src[..|src| - 1], key, k) + (if key(src[|src| - 1]) == k then [src[|src| - 1]] else [])
  }

  ghost predicate Distinct<K>(ks: seq<K>) {
    forall a, b :: 0 <= a < b < |ks| ==> ks[a] != ks[b]
  }

  /** Every key of `src` is among its first keys, each first key is some
      item's key, and no key is listed twice. */
  lemma {:induction false} FirstKeysFacts<V, K>(src: seq<V>, key: V -> K)
    ensures forall i :: 0 <= i < |src| ==> key(src[i]) in FirstKeys(src, key)
    ensures forall k :: k in FirstKeys(src, key) ==> exists i :: 0 <= i < |src| && key(src[i]) == k
    ensures Distinct(FirstKeys(src, key))
    decreases |src|
  {
    if src != [] {
      var init := src[..|src| - 1];
      FirstKeysFacts(init, key);
      forall i | 0 <= i < |init|
        ensures init[i] == src[i]
      {
      }
    }
  }

  /** A key no item has collects nothing. */
  lemma {:induction false} MembersAbsent<V, K>(src: seq<V>, key: V -> K, k: K)
    requires forall i :: 0 <= i < |src| ==> key(src[i]) != k
    ensures Members(src, key, k) == []
    decreases |src|
  {
    if src != [] {
      var init := src[..|src| - 1];
      assert forall i :: 0 <= i < |init| ==> init[i] == src[i];
      MembersAbsent(init, key, k);
    }
  }

  /** The position of `x` in `s`, or `|s|` when it is absent. */
  function IndexOf<K(==)>(s: seq<K>, x: K): (r: nat)
    ensures r <= |s|
    ensures r < |s| ==> s[r] == x
    ensures r == |s| ==> x !in s
  {
    if s == [] then 0 else if s[0] == x then 0 else 1 + IndexOf(s[1..], x)
  }

  /** One more item: its key joins the first keys if it is new. */
  lemma KeysStep<V, K>(src: seq<V>, key: V -> K, i: nat)
    requires i < |src|
    ensures FirstKeys(src[..i + 1], key)
         == if key(src[i]) in FirstKeys(src[..i], key) then FirstKeys(src[..i], key) else FirstKeys(src[..i], key) + [key(src[i])]
  {
    assert src[..i + 1][..i] == src[..i];
  }

  /** One more item: it joins the members of its own key only. */
  lemma MembersStep<V, K>(src: seq<V>, key: V -> K, i: nat)
    requires i < |src|
    ensures forall k :: Members(src[..i + 1], key, k) == Members(src[..i], key, k) + (if key(src[i]) == k then [src[i]] else [])
  {
    assert src[..i + 1][..i] == src[..i];
  }

  /** A key absent from the first keys of a prefix occurs nowhere in it. */
  lemma AbsentBefore<V, K>(src: seq<V>, key: V -> K, i: nat, k: K)
    requires i <= |src| && k !in FirstKeys(src[..i], key)
    ensures forall j :: 0 <= j < i ==> key(src[j]) != k
    ensures Members(src[..i], key, k) == []
  {
    FirstKeysFacts(src[..i], key);
    forall j | 0 <= j < i
      ensures key(src[j]) != k
    {
      assert src[..i][j] == src[j];
    }
    MembersAbsent(src[..i], key, k);
  }

  /** The state of the `group_by` loop after the first `i` items: the keys
      seen so far in first-occurrence order, each key's group, and the
      position of each key's first occurrence. */
  ghost predicate Grouped<V, K>(src: seq<V>, key: V -> K, i: nat, keys: seq<K>, groups: seq<seq<V>>, firstAt: seq<nat>)
    requires i <= |src|
  {
    && keys == FirstKeys(src[..i], key)
    && |groups| == |keys| && (forall g :: 0 <= g < |keys| ==> groups[g] == Members(src[..i], key, keys[g]))
    && |firstAt| == |keys|
    && forall g :: 0 <= g < |keys| ==>
         && firstAt[g] < i && key(src[firstAt[g]]) == keys[g]
         && forall j :: 0 <= j < firstAt[g] ==> key(src[j]) != keys[g]
  }

  /** An item whose key already has a group joins that group. */
  lemma OldKeyStep<V, K>(src: seq<V>, key: V -> K, i: nat, keys: seq<K>, groups: seq<seq<V>>, firstAt: seq<nat>, g: nat)
    requires i < |src| && Grouped(src, key, i, keys, groups, firstAt)
    requires g < |keys| && keys[g] == key(src[i])
    ensures Grouped(src, key, i + 1, keys, groups[g := groups[g] + [src[i]]], firstAt)
  {
    FirstKeysFacts(src[..i], key);
    KeysStep(src, key, i);
    MembersStep(src, key, i);
    var groups' := groups[g := groups[g] + [src[i]]];
    forall h | 0 <= h < |keys|
      ensures groups'[h] == Members(src[..i + 1], key, keys[h])
    {
      if h != g {
        assert keys[h] != keys[g];
      }
    }
  }

  /** An item with a new key opens a group of its own, at its position. */
  lemma NewKeyStep<V, K>(src: seq<V>, key: V -> K, i: nat, keys: seq<K>, groups: seq<seq<V>>, firstAt: seq<nat>)
    requires i < |src| && Grouped(src, key, i, keys, groups, firstAt)
    requires key(src[i]) !in keys
    ensures Grouped(src, key, i + 1, keys + [key(src[i])], groups + [[src[i]]], firstAt + [i])
  {
    var k := key(src[i]);
    KeysStep(src, key, i);
    MembersStep(src, key, i);
    AbsentBefore(src, key, i, k);
    var keys', groups', firstAt' := keys + [k], groups + [[src[i]]], firstAt + [i];
    forall g | 0 <= g < |keys'|
      ensures groups'[g] == Members(src[..i + 1], key, keys'[g])
      ensures firstAt'[g] < i + 1 && key(src[firstAt'[g]]) == keys'[g]
      ensures forall j :: 0 <= j < firstAt'[g] ==> key(src[j]) != keys'[g]
    {
      if g < |keys| {
        assert keys'[g] == keys[g] != k;
      } else {
        assert Members(src[..i + 1], key, k) == Members(src[..i], key, k) + [src[i]];
      }
    }
  }

  /** One turn of the loop: a key seen for the first time opens (and emits)
      a new group; then the item joins its key's group. */
  method Place<V, K(==)>(src: seq<V>, key: V -> K, i: nat, keys: seq<K>, groups: seq<seq<V>>, firstAt: seq<nat>) returns (keys': seq<K>, groups': seq<seq<V>>, firstAt': seq<nat>)
    requires i < |src| && Grouped(src, key, i, keys, groups, firstAt)
    ensures Grouped(src, key, i + 1, keys', groups', firstAt')
  {
    var v := src[i];
    var g := IndexOf(keys, key(v));
    if g == |keys| {
      NewKeyStep(src, key, i, keys, groups, firstAt);
      keys', groups', firstAt' := keys + [key(v)], groups + [[v]], firstAt + [i];
    } else {
      OldKeyStep(src, key, i, keys, groups, firstAt, g);
      keys', groups', firstAt' := keys, groups[g := groups[g] + [v]], firstAt;
    }
  }

  /** The loop state after the whole upstream. */
  lemma GroupedAll<V, K>(src: seq<V>, key: V -> K, keys: seq<K>, groups: seq<seq<V>>, firstAt: seq<nat>)
    requires Grouped(src, key, |src|, keys, groups, firstAt)
    ensures keys == FirstKeys(src, key) && Distinct(keys)
    ensures forall i :: 0 <= i < |src| ==> exists g :: 0 <= g < |keys| && keys[g] == key(src[i])
    ensures |groups| == |keys| && forall g :: 0 <= g < |keys| ==> groups[g] == Members(src, key, keys[g])
    ensures |firstAt| == |keys|
    ensures forall g :: 0 <= g < |keys| ==>
      && firstAt[g] < |src| && key(src[firstAt[g]]) == keys[g]
      && forall j :: 0 <= j < firstAt[g] ==> key(src[j]) != keys[g]
  {
    assert src[..|src|] == src;
    FirstKeysFacts(src, key);
    forall i | 0 <= i < |src|
      ensures exists g :: 0 <= g < |keys| && keys[g] == key(src[i])
    {
      var g := IndexOf(keys, key(src[i]));
      assert keys[g] == key(src[i]);
    }
  }

  /** The `group_by` loop over the whole upstream, then the completion of
      every group in key order. Each item lands in exactly one group, groups
      come in first-occurrence order of their keys, each group keeps
      upstream order, and a group is opened at its key's first occurrence. */
  method GroupBy<V, K(==)>(src: seq<V>, key: V -> K) returns (keys: seq<K>, groups: seq<seq<V>>, firstAt: seq<nat>, completed: seq<K>)
    ensures keys == FirstKeys(src, key) && Distinct(keys)
    ensures forall i :: 0 <= i < |src| ==> exists g :: 0 <= g < |keys| && keys[g] == key(src[i])
    ensures |groups| == |keys| && forall g :: 0 <= g < |keys| ==> groups[g] == Members(src, key, keys[g])
    ensures |firstAt| == |keys|
    ensures forall g :: 0 <= g < |keys| ==>
      && firstAt[g] < |src| && key(src[firstAt[g]]) == keys[g]
      && forall j :: 0 <= j < firstAt[g] ==> key(src[j]) != keys[g]
    ensures completed == keys
  {
    keys, groups, firstAt := Scan(src, key);
    GroupedAll(src, key, keys, groups, firstAt);
    completed := keys;
  }

  /** The loop itself, over the whole upstream. */
  method Scan<V, K(==)>(src: seq<V>, key: V -> K) returns (keys: seq<K>, groups: seq<seq<V>>, firstAt: seq<nat>)
    ensures Grouped(src, key, |src|, keys, groups, firstAt)
  {
    keys, groups, firstAt := [], [], [];
    var i := 0;
    while i < |src|
      invariant 0 <= i <= |src|
      invariant Grouped(src, key, i, keys, groups, firstAt)
    {
      keys, groups, firstAt := Place(src, key, i, keys, groups, firstAt);
      i := i + 1;
    }
  }

  /** With a key that tells all items apart (the identity-key case), every
      item opens its own group and is its only member. */
  lemma {:induction false} DistinctKeysSingletons<V, K>(src: seq<V>, key: V -> K)
    requires forall a, b :: 0 <= a < b < |src| ==> key(src[a]) != key(src[b])
    ensures |FirstKeys(src, key)| == |src|
    ensures forall i :: 0 <= i < |src| ==> FirstKeys(src, key)[i] == key(src[i])
    ensures forall i :: 0 <= i < |src| ==> Members(src, key, key(src[i])) == [src[i]]
    decreases |src|
  {
    if src != [] {
      var n := |src| - 1;
      var init := src[..n];
      assert forall i :: 0 <= i < n ==> init[i] == src[i];
      DistinctKeysSingletons(init, key);
      FirstKeysFacts(init, key);
      MembersAbsent(init, key, key(src[n]));
    }
  }
}
