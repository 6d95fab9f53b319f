/** The replay buffer of src/Queue.php: a singly linked FIFO whose copies
    share one tail cell and each hold their own head cell.

    Node objects and `Pointer` cells live in an arena (`Heap`) and are
    addressed by index, so the aliasing between copies is explicit. A
    `Handle` is one PHP `Queue` object; a `Family` is the heap together with
    every copy cloned from one constructed queue. */
module ReplayQueue {
  import opened Results

  /** A node object: its `next` link (a node index, or null) and its payload. */
  datatype Node<T> = Node(next: Option<nat>, payload: T)

  /** Node objects by index, and `Pointer` cells by index holding a node index or null. */
  datatype Heap<T> = Heap(nodes: seq<Node<T>>, cells: seq<Option<nat>>)

  /** One queue object: its head and tail cell ids, its `_empty` flag
      (`drained`: the head cell rests on a node already returned) and its
      `_started` flag. */
  datatype Handle = Handle(head: nat, tail: nat, drained: bool, started: bool)

  /** The heap together with every copy descended from one constructed queue. */
  datatype Family<T> = Family(heap: Heap<T>, copies: seq<Handle>)

  datatype Shifted<T> = Shifted(heap: Heap<T>, handle: Handle, item: T)

  datatype Taken<T> = Taken(family: Family<T>, item: T)

  // ---------------------------------------------------------------------------
  // Well-formedness and the abstract contents of a copy

  /** Nodes only ever link to nodes created after them, so lists are acyclic. */
  ghost predicate LinksForward<T>(nodes: seq<Node<T>>) {
    forall i :: 0 <= i < |nodes| && nodes[i].next.Some? ==> i < nodes[i].next.value < |nodes|
  }

  ghost predicate WfHeap<T>(h: Heap<T>) {
    && LinksForward(h.nodes)
    && forall c :: 0 <= c < |h.cells| && h.cells[c].Some? ==> h.cells[c].value < |h.nodes|
  }

  /** The payloads from node `n` to the end of its list. */
  function Chain<T>(nodes: seq<Node<T>>, n: nat): (r: seq<T>)
    requires LinksForward(nodes) && n < |nodes|
    ensures |r| > 0 && r[0] == nodes[n].payload
    decreases |nodes| - n
  {
    match nodes[n].next
    case None => [nodes[n].payload]
    case Some(m) => [nodes[n].payload] + Chain(nodes, m)
  }

  /** The node where following `next` from `n` ends. */
  function Last<T>(nodes: seq<Node<T>>, n: nat): (r: nat)
    requires LinksForward(nodes) && n < |nodes|
    ensures n <= r < |nodes| && nodes[r].next.None?
    decreases |nodes| - n
  {
    match nodes[n].next
    case None => n
    case Some(m) => Last(nodes, m)
  }

  /** The items a copy would return, in order, if shifted until empty. */
  function View<T>(h: Heap<T>, q: Handle): seq<T>
    requires WfHeap(h) && q.head < |h.cells|
  {
    match h.cells[q.head]
    case None => []
    case Some(n) => if q.drained then Chain(h.nodes, n)[1..] else Chain(h.nodes, n)
  }

  /** A copy is well formed when its head and tail are distinct cells, a
      started or drained copy has a non-null head, the head is null exactly
      when the tail is, and a non-null head reaches the tail node. */
  ghost predicate WfHandle<T>(h: Heap<T>, q: Handle) {
    && WfHeap(h)
    && q.head < |h.cells| && q.tail < |h.cells| && q.head != q.tail
    && (q.drained ==> q.started)
    && (q.started ==> h.cells[q.head].Some?)
    && (h.cells[q.head].None? <==> h.cells[q.tail].None?)
    && (h.cells[q.head].Some? ==> Last(h.nodes, h.cells[q.head].value) == h.cells[q.tail].value)
  }

  /** The family invariant: every copy is well formed and shares the tail
      cell; a head cell shared by two copies belongs to copies that have not
      shifted yet; and a null head cell is the one cell all copies share. */
  ghost predicate Inv<T>(f: Family<T>) {
    && WfHeap(f.heap)
    && (forall i :: 0 <= i < |f.copies| ==> WfHandle(f.heap, f.copies[i]))
    && (forall i, j :: 0 <= i < |f.copies| && 0 <= j < |f.copies| ==> f.copies[i].tail == f.copies[j].tail)
    && (forall i, j :: 0 <= i < |f.copies| && 0 <= j < |f.copies| && i != j && f.copies[i].head == f.copies[j].head
          ==> !f.copies[i].started)
    && (forall i, j :: 0 <= i < |f.copies| && 0 <= j < |f.copies| && f.heap.cells[f.copies[i].head].None?
          ==> f.copies[i].head == f.copies[j].head)
  }

  /** The contents of copy `k`. */
  function Contents<T>(f: Family<T>, k: nat): seq<T>
    requires Inv(f) && k < |f.copies|
  {
    View(f.heap, f.copies[k])
  }

  // ---------------------------------------------------------------------------
  // The queue object's own operations

  /** The nodes the constructor links up from `list`, node `i` holding `list[i]`. */
  function ListNodes<T>(list: seq<T>): (nodes: seq<Node<T>>)
    ensures |nodes| == |list| && LinksForward(nodes)
  {
    seq(|list|, i requires 0 <= i < |list| => Node(if i + 1 < |list| then Some(i + 1) else None, list[i]))
  }

  lemma {:induction false} ListChain<T>(list: seq<T>, i: nat)
    requires i <= |list|
    ensures i < |list| ==> Chain(ListNodes(list), i) == list[i..] && Last(ListNodes(list), i) == |list| - 1
    decreases |list| - i
  {
    if i + 1 < |list| {
      ListChain(list, i + 1);
    }
  }

  /** The constructor: one node per list item, the tail cell (created first)
      on the last node and the head cell on the first, both null for an empty list. */
  function New<T>(list: seq<T>): (f: Family<T>)
    ensures Inv(f) && |f.copies| == 1
    ensures Contents(f, 0) == list
    ensures IsEmpty(f.heap, f.copies[0]) <==> list == []
  {
    var tail: Option<nat> := if list == [] then None else Some(|list| - 1);
    var head: Option<nat> := if list == [] then None else Some(0);
    ListChain(list, 0);
    Family(Heap(ListNodes(list), [tail, head]), [Handle(1, 0, false, false)])
  }

  /** `is_empty` looks only at this copy's head cell and `_empty` flag. */
  function IsEmpty<T>(h: Heap<T>, q: Handle): (b: bool)
    requires WfHeap(h) && q.head < |h.cells|
    ensures b <==> View(h, q) == []
  {
    match h.cells[q.head]
    case None => true
    case Some(n) => q.drained && h.nodes[n].next.None?
  }

  /** `peek`: the item the next `shift` returns, or the same error. */
  function Peek<T>(h: Heap<T>, q: Handle): (r: Result<T, Fault>)
    requires WfHeap(h) && q.head < |h.cells|
    ensures r.Ok? <==> View(h, q) != []
    ensures r.Ok? ==> r.value == View(h, q)[0]
    ensures r == match Shift(h, q) case Ok(s) => Ok(s.item) case Err(e) => Err(e)
  {
    var head := match h.cells[q.head]
      case None => None
      case Some(n) => if q.drained then h.nodes[n].next else Some(n);
    match head
    case None => Err(EmptyQueue)
    case Some(n) => Ok(h.nodes[n].payload)
  }

  /** `shift`: removes and returns the front item. The first shift of a copy
      forks its head cell; only that copy's own head cell is written. */
  function Shift<T>(h: Heap<T>, q: Handle): (r: Result<Shifted<T>, Fault>)
    requires WfHeap(h) && q.head < |h.cells|
    ensures r.Err? <==> View(h, q) == []
    ensures r.Err? ==> r.error == EmptyQueue
    ensures r.Ok? ==> && WfHeap(r.value.heap) && r.value.heap.nodes == h.nodes
                      && r.value.handle.head < |r.value.heap.cells|
                      && r.value.item == View(h, q)[0]
                      && View(r.value.heap, r.value.handle) == View(h, q)[1..]
    ensures r.Ok? ==> && r.value.handle.tail == q.tail && r.value.handle.started
                      && (q.started ==> r.value.handle.head == q.head && |r.value.heap.cells| == |h.cells|)
                      && (!q.started ==> r.value.handle.head == |h.cells| && |r.value.heap.cells| == |h.cells| + 1)
                      && forall c :: 0 <= c < |h.cells| && (c != q.head || !q.started) ==> r.value.heap.cells[c] == h.cells[c]
    ensures r.Ok? && WfHandle(h, q) ==> WfHandle(r.value.heap, r.value.handle)
  {
    match h.cells[q.head]
    case None => Err(EmptyQueue)
    case Some(hd) =>
      var next := h.nodes[hd].next;
      if q.drained && next.None? then Err(EmptyQueue)
      else
        // the first consumption forks the head cell, so copies sharing it keep their position
        var h1 := if q.started then h else h.(cells := h.cells + [h.cells[q.head]]);
        var q1 := if q.started then q else q.(head := |h.cells|, started := true);
        // a drained head still rests on the consumed node: step onto its successor
        var taken := if q.drained then next.value else hd;
        var after := if q.drained then h.nodes[next.value].next else next;
        var cells1 := if q.drained then h1.cells[q1.head := next] else h1.cells;
        var cells2 := if after.Some? then cells1[q1.head := after] else cells1;
        assert Last(h.nodes, hd) == Last(h.nodes, taken);
        assert after.Some? ==> Last(h.nodes, taken) == Last(h.nodes, after.value);
        assert View(h, q) == Chain(h.nodes, taken);
        assert Chain(h.nodes, taken)[1..] == if after.Some? then Chain(h.nodes, after.value) else [];
        Ok(Shifted(h1.(cells := cells2), q1.(drained := after.None?), h.nodes[taken].payload))
  }

  /** `$tail->next = $next`: the node list with a new last node after `t`. */
  function Grown<T>(nodes: seq<Node<T>>, t: nat, x: T): (g: seq<Node<T>>)
    requires LinksForward(nodes) && t < |nodes|
    ensures LinksForward(g) && |g| == |nodes| + 1
  {
    nodes[t := nodes[t].(next := Some(|nodes|))] + [Node(None, x)]
  }

  /** `add`: links a new node after the shared tail node, points a null
      head cell at it, and advances the shared tail cell. */
  function Add<T>(h: Heap<T>, q: Handle, x: T): (h': Heap<T>)
    requires WfHeap(h) && q.head < |h.cells| && q.tail < |h.cells|
    ensures WfHeap(h') && |h'.cells| == |h.cells|
  {
    var newNode := |h.nodes|;
    var nodes := match h.cells[q.tail]
      case None => h.nodes + [Node(None, x)]
      case Some(t) => Grown(h.nodes, t, x);
    var cells := if h.cells[q.head].None? then h.cells[q.head := Some(newNode)] else h.cells;
    Heap(nodes, cells[q.tail := Some(newNode)])
  }

  /** `__clone`: the copy gets its own head cell only when the head is non-null;
      otherwise both keep sharing the null head cell. */
  function Clone<T>(h: Heap<T>, q: Handle): (r: (Heap<T>, Handle))
    requires WfHeap(h) && q.head < |h.cells|
    ensures WfHeap(r.0) && r.1.head < |r.0.cells| && r.0.nodes == h.nodes
    ensures |h.cells| <= |r.0.cells| && r.0.cells[..|h.cells|] == h.cells
    ensures View(r.0, r.1) == View(h, q) && View(r.0, q) == View(h, q)
    ensures h.cells[q.head].None? ==> r == (h, q)
    ensures h.cells[q.head].Some? ==> r.1.head == |h.cells| && r.1.(head := q.head) == q
    ensures h.cells[q.head].Some? ==> r.0.cells == h.cells + [h.cells[q.head]]
  {
    if h.cells[q.head].Some? then (h.(cells := h.cells + [h.cells[q.head]]), q.(head := |h.cells|)) else (h, q)
  }

  // ---------------------------------------------------------------------------
  // Operations on one copy of a family, and what they do to the others

  lemma {:induction false} ChainGrows<T>(nodes: seq<Node<T>>, t: nat, x: T, n: nat)
    requires LinksForward(nodes) && t < |nodes| && n < |nodes| && Last(nodes, n) == t
    ensures Chain(Grown(nodes, t, x), n) == Chain(nodes, n) + [x]
    ensures Last(Grown(nodes, t, x), n) == |nodes|
    decreases |nodes| - n
  {
    var g := Grown(nodes, t, x);
    if n == t {
      assert g[t].next == Some(|nodes|);
      assert Chain(g, |nodes|) == [x];
    } else {
      var m := nodes[n].next.value;
      ChainGrows(nodes, t, x, m);
      assert g[n] == nodes[n];
    }
  }

  lemma AddSeenByAll<T>(f: Family<T>, k: nat, x: T)
    requires Inv(f) && k < |f.copies|
    ensures Inv(Family(Add(f.heap, f.copies[k], x), f.copies))
    ensures forall j :: 0 <= j < |f.copies| ==>
      View(Add(f.heap, f.copies[k], x), f.copies[j]) == View(f.heap, f.copies[j]) + [x]
  {
    var h := f.heap;
    var q := f.copies[k];
    var h' := Add(h, q, x);
    var newNode := |h.nodes|;
    forall j | 0 <= j < |f.copies|
      ensures WfHandle(h', f.copies[j]) && h'.cells[f.copies[j].head].Some?
      ensures View(h', f.copies[j]) == View(h, f.copies[j]) + [x]
    {
      var p := f.copies[j];
      assert p.tail == q.tail;
      match h.cells[q.tail]
      case None =>
        assert p.head == q.head;
        assert h'.nodes == h.nodes + [Node(None, x)];
        assert Chain(h'.nodes, newNode) == [x];
      case Some(t) =>
        var n := h.cells[p.head].value;
        ChainGrows(h.nodes, t, x, n);
        assert h'.cells[p.head] == h.cells[p.head];
    }
  }

  /** `add` through copy `k`: every copy of the family, drained or not,
      sees the new item at its end. */
  function AddVia<T>(f: Family<T>, k: nat, x: T): (g: Family<T>)
    requires Inv(f) && k < |f.copies|
    ensures Inv(g) && g.copies == f.copies
    ensures forall j :: 0 <= j < |f.copies| ==> Contents(g, j) == Contents(f, j) + [x]
  {
    AddSeenByAll(f, k, x);
    Family(Add(f.heap, f.copies[k], x), f.copies)
  }

  lemma ShiftKeepsOthers<T>(f: Family<T>, k: nat, s: Shifted<T>)
    requires Inv(f) && k < |f.copies| && Shift(f.heap, f.copies[k]) == Ok(s)
    ensures Inv(Family(s.heap, f.copies[k := s.handle]))
    ensures forall j :: 0 <= j < |f.copies| && j != k ==> View(s.heap, f.copies[j]) == View(f.heap, f.copies[j])
  {
    var q := f.copies[k];
    var copies := f.copies[k := s.handle];
    forall j | 0 <= j < |f.copies| && j != k
      ensures s.heap.cells[f.copies[j].head] == f.heap.cells[f.copies[j].head]
      ensures s.handle.head != f.copies[j].head
    {
    }
    forall j | 0 <= j < |f.copies|
      ensures WfHandle(s.heap, copies[j]) && s.heap.cells[copies[j].head].Some?
    {
      if j != k {
        assert f.copies[j].tail == q.tail;
      }
    }
  }

  /** `shift` on copy `k`: returns its front item, and no other copy's
      contents change. */
  function ShiftCopy<T>(f: Family<T>, k: nat): (r: Result<Taken<T>, Fault>)
    requires Inv(f) && k < |f.copies|
    ensures r.Err? <==> Contents(f, k) == []
    ensures r.Ok? ==> && Inv(r.value.family) && |r.value.family.copies| == |f.copies|
                      && r.value.item == Contents(f, k)[0]
                      && Contents(r.value.family, k) == Contents(f, k)[1..]
                      && forall j :: 0 <= j < |f.copies| && j != k ==> Contents(r.value.family, j) == Contents(f, j)
  {
    match Shift(f.heap, f.copies[k])
    case Err(e) => Err(e)
    case Ok(s) =>
      ShiftKeepsOthers(f, k, s);
      Ok(Taken(Family(s.heap, f.copies[k := s.handle]), s.item))
  }

  lemma CloneKeepsOthers<T>(f: Family<T>, k: nat)
    requires Inv(f) && k < |f.copies|
    ensures Inv(Family(Clone(f.heap, f.copies[k]).0, f.copies + [Clone(f.heap, f.copies[k]).1]))
    ensures forall j :: 0 <= j < |f.copies| ==>
      View(Clone(f.heap, f.copies[k]).0, f.copies[j]) == View(f.heap, f.copies[j])
  {
    var (h, c) := Clone(f.heap, f.copies[k]);
    var q := f.copies[k];
    var copies := f.copies + [c];
    var n := |f.copies|;
    assert c.tail == q.tail && c.started == q.started && c.drained == q.drained;
    assert h.cells[c.head] == f.heap.cells[q.head];
    assert c.head == q.head || c.head == |f.heap.cells|;
    forall j | 0 <= j < n + 1
      ensures copies[j] == (if j < n then f.copies[j] else c)
      ensures copies[j].tail == q.tail
      ensures j < n ==> h.cells[copies[j].head] == f.heap.cells[copies[j].head]
      ensures WfHandle(h, copies[j])
    {
      if j < n {
        var p := f.copies[j];
        assert p.head < |f.heap.cells| && p.tail < |f.heap.cells|;
        assert h.cells[p.head] == f.heap.cells[p.head] && h.cells[p.tail] == f.heap.cells[p.tail];
      } else {
        assert h.cells[q.tail] == f.heap.cells[q.tail];
      }
    }
    forall i, j | 0 <= i < n + 1 && 0 <= j < n + 1 && i != j && copies[i].head == copies[j].head
      ensures !copies[i].started
    {
      if i == n {
        assert c.head == q.head && h.cells[q.head].None?;
      } else if j == n {
        assert c.head == q.head && h.cells[q.head].None?;
      }
    }
    forall i, j | 0 <= i < n + 1 && 0 <= j < n + 1 && h.cells[copies[i].head].None?
      ensures copies[i].head == copies[j].head
    {
      assert f.heap.cells[q.head].None?;
      assert c.head == q.head;
      var i' := if i == n then k else i;
      var j' := if j == n then k else j;
      assert copies[i].head == f.copies[i'].head && copies[j].head == f.copies[j'].head;
    }
  }

  /** `clone` of copy `k`: the new copy (appended last) holds the same
      contents, and no existing copy changes. */
  function CloneCopy<T>(f: Family<T>, k: nat): (g: Family<T>)
    requires Inv(f) && k < |f.copies|
    ensures Inv(g) && |g.copies| == |f.copies| + 1 && g.copies[..|f.copies|] == f.copies
    ensures Contents(g, |f.copies|) == Contents(f, k)
    ensures forall j :: 0 <= j < |f.copies| ==> Contents(g, j) == Contents(f, j)
  {
    CloneKeepsOthers(f, k);
    var (h, c) := Clone(f.heap, f.copies[k]);
    Family(h, f.copies + [c])
  }

  // ---------------------------------------------------------------------------
  // Runs of operations on one copy

  datatype Op<T> = Push(x: T) | Pop

  /** The items a run of operations adds. */
  function Pushed<T>(ops: seq<Op<T>>): seq<T> {
    if ops == [] then [] else (if ops[0].Push? then [ops[0].x] else []) + Pushed(ops[1..])
  }

  lemma {:induction false} PushedAppend<T>(a: seq<Op<T>>, b: seq<Op<T>>)
    ensures Pushed(a + b) == Pushed(a) + Pushed(b)
    decreases |a|
  {
    if a == [] {
      assert a + b == b;
    } else {
      assert (a + b)[0] == a[0];
      assert (a + b)[1..] == a[1..] + b;
      PushedAppend(a[1..], b);
      var h := if a[0].Push? then [a[0].x] else [];
      calc {
        Pushed(a + b);
        h + Pushed(a[1..] + b);
        h + (Pushed(a[1..]) + Pushed(b));
        (h + Pushed(a[1..])) + Pushed(b);
      }
    }
  }

  /** Sequence bookkeeping for one step of a run, kept apart so that the
      solver works on it without the family invariant in scope. */
  lemma Regroup<T>(s1: seq<T>, s2: seq<T>, after: seq<T>, mid: seq<T>, before: seq<T>, p1: seq<T>, p2: seq<T>)
    requires s1 + mid == before + p1 && s2 + after == mid + p2
    ensures s1 + s2 + after == before + (p1 + p2)
  {
    calc {
      s1 + s2 + after;
      s1 + (s2 + after);
      s1 + (mid + p2);
      (s1 + mid) + p2;
      (before + p1) + p2;
    }
  }

  lemma PushedStep<T>(ops: seq<Op<T>>, i: nat)
    requires i < |ops|
    ensures Pushed(ops[..i + 1]) == Pushed(ops[..i]) + Pushed([ops[i]])
  {
    assert ops[..i + 1] == ops[..i] + [ops[i]];
    PushedAppend(ops[..i], [ops[i]]);
  }

  /** The copies other than `k` gain `p1` and then `p2`. */
  lemma OthersStep<T>(f: Family<T>, g: Family<T>, g': Family<T>, k: nat, p1: seq<T>, p2: seq<T>)
    requires Inv(f) && Inv(g) && Inv(g') && |g.copies| == |f.copies| && |g'.copies| == |f.copies|
    requires forall j :: 0 <= j < |f.copies| && j != k ==> Contents(g, j) == Contents(f, j) + p1
    requires forall j :: 0 <= j < |f.copies| && j != k ==> Contents(g', j) == Contents(g, j) + p2
    ensures forall j :: 0 <= j < |f.copies| && j != k ==> Contents(g', j) == Contents(f, j) + (p1 + p2)
  {
    forall j | 0 <= j < |f.copies| && j != k
      ensures Contents(g', j) == Contents(f, j) + (p1 + p2)
    {
      assert Contents(g', j) == (Contents(f, j) + p1) + p2;
    }
  }

  /** One operation on copy `k`: `Push` adds through it, `Pop` shifts it (a
      shift of an empty copy throws, which changes nothing). Returns the new
      family and the item shifted, if any. */
  method Apply<T>(f: Family<T>, k: nat, op: Op<T>) returns (g: Family<T>, out: seq<T>)
    requires Inv(f) && k < |f.copies|
    ensures Inv(g) && |g.copies| == |f.copies|
    ensures out + Contents(g, k) == Contents(f, k) + Pushed([op])
    ensures forall j :: 0 <= j < |f.copies| && j != k ==> Contents(g, j) == Contents(f, j) + Pushed([op])
  {
    match op
    case Push(x) =>
      g, out := AddVia(f, k, x), [];
    case Pop =>
      var r := ShiftCopy(f, k);
      match r
      case Ok(t) =>
        g, out := t.family, [t.item];
      case Err(_) =>
        g, out := f, [];
  }

  /** Replays `ops` on copy `k` in order. FIFO order under interleaved adds
      and shifts: what was shifted, followed by what is left, is what was
      there plus what was added. Clone independence: every other copy only
      gains the added items, in order. */
  method Replay<T>(f: Family<T>, k: nat, ops: seq<Op<T>>) returns (g: Family<T>, shifted: seq<T>)
    requires Inv(f) && k < |f.copies|
    ensures Inv(g) && |g.copies| == |f.copies|
    ensures shifted + Contents(g, k) == Contents(f, k) + Pushed(ops)
    ensures forall j :: 0 <= j < |f.copies| && j != k ==> Contents(g, j) == Contents(f, j) + Pushed(ops)
  {
    g, shifted := f, [];
    var i := 0;
    while i < |ops|
      invariant 0 <= i <= |ops|
      invariant Inv(g) && |g.copies| == |f.copies|
      invariant shifted + Contents(g, k) == Contents(f, k) + Pushed(ops[..i])
      invariant forall j :: 0 <= j < |f.copies| && j != k ==> Contents(g, j) == Contents(f, j) + Pushed(ops[..i])
    {
      var g', out := Apply(g, k, ops[i]);
      PushedStep(ops, i);
      Regroup(shifted, out, Contents(g', k), Contents(g, k), Contents(f, k), Pushed(ops[..i]), Pushed([ops[i]]));
      OthersStep(f, g, g', k, Pushed(ops[..i]), Pushed([ops[i]]));
      g, shifted, i := g', shifted + out, i + 1;
    }
    assert ops[..i] == ops;
  }

  /** Shifting copy `k` until it is empty returns its contents in order. */
  function Drain<T>(f: Family<T>, k: nat): (r: seq<T>)
    requires Inv(f) && k < |f.copies|
    ensures r == Contents(f, k)
    decreases |Contents(f, k)|
  {
    match ShiftCopy(f, k)
    case Err(_) => []
    case Ok(t) => [t.item] + Drain(t.family, k)
  }
}
