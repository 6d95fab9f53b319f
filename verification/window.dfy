/** `window(signal)` of src/Operators.php over one timeline of what reaches
    it: items from the source, values from the signal (ticks), and the end of
    either. The first window opens at once; each tick completes the open
    window and opens the next; the end of the source completes the open
    window, and a tick after that makes the signal loop return. When the
    signal ends first, later items keep going to the last window. */
module Window {

  datatype Event<V> = Item(value: V) | Tick | SourceEnd | SignalEnd

  /** The windows emitted so far (the last one is open unless the source
      has ended), how many are completed, and the two shared flags. */
  datatype State<V> = State(windows: seq<seq<V>>, completed: nat, finished: bool, signalDone: bool)

  /** Every window before the last is completed; the last one is too once
      the source has ended. */
  ghost predicate Wf<V>(s: State<V>) {
    |s.windows| >= 1 && s.completed == |s.windows| - (if s.finished then 0 else 1)
  }

  /** The signal coroutine emits the first, empty window straight away. */
  function Start<V>(): State<V> {
    State([[]], 0, false, false)
  }

  /** The run starts well formed, with one open, empty window. */
  lemma StartOpen<V>()
    ensures var s := Start<V>(); Wf(s) && s.windows == [[]] && s.completed == 0 && !s.finished && !s.signalDone
  {
  }

  /** The concatenation of the windows, as `flat_map` sees it. */
  function Flatten<V>(ws: seq<seq<V>>): seq<V>
    decreases |ws|
  {
    if ws == [] then [] else Flatten(ws[..|ws| - 1]) + ws[|ws| - 1]
  }

  /** One event. A completed window never changes again, and nothing
      changes once the source has ended except that a tick then ends the
      signal loop. */
  function Feed<V>(s: State<V>, ev: Event<V>): (r: State<V>)
    requires Wf(s)
    ensures Wf(r) && |r.windows| >= |s.windows|
    ensures forall i :: 0 <= i < s.completed ==> r.windows[i] == s.windows[i]
    ensures s.finished ==> r.windows == s.windows && r.finished
    ensures ev.Item? && !s.finished ==>
      r.windows[..|s.windows| - 1] == s.windows[..|s.windows| - 1] && r.windows[|s.windows| - 1] == s.windows[|s.windows| - 1] + [ev.value]
    ensures ev.Tick? && !s.finished && !s.signalDone ==>
      r.windows == s.windows + [[]] && r.completed == s.completed + 1 && !r.finished && !r.signalDone
    ensures ev.Tick? && s.signalDone ==> r == s
    ensures ev.SourceEnd? && !s.finished ==> r.windows == s.windows && r.finished && r.completed == |s.windows|
    ensures ev.SignalEnd? ==> r.windows == s.windows && r.finished == s.finished && r.signalDone
  {
    match ev
    case Item(v) =>
      if s.finished then s
      else
        var n := |s.windows| - 1;
        s.(windows := s.windows[..n] + [s.windows[n] + [v]])
    case Tick =>
      if s.signalDone then s
      else if s.finished then s.(signalDone := true)
      else s.(windows := s.windows + [[]], completed := s.completed + 1)
    case SourceEnd =>
      if s.finished then s else s.(finished := true, completed := |s.windows|)
    case SignalEnd =>
      s.(signalDone := true)
  }

  function FeedAll<V>(s: State<V>, evs: seq<Event<V>>): (r: State<V>)
    requires Wf(s)
    ensures Wf(r)
    decreases |evs|
  {
    if evs == [] then s else FeedAll(Feed(s, evs[0]), evs[1..])
  }

  // ---------------------------------------------------------------------------
  // Reference definitions

  /** The events before the source ends. */
  function BeforeEnd<V>(evs: seq<Event<V>>): seq<Event<V>> {
    if evs == [] || evs[0].SourceEnd? then [] else [evs[0]] + BeforeEnd(evs[1..])
  }

  /** The item values among `evs`, in order. */
  function Items<V>(evs: seq<Event<V>>): seq<V> {
    if evs == [] then [] else (if evs[0].Item? then [evs[0].value] else []) + Items(evs[1..])
  }

  /** The ticks that arrive while both the source and the signal are live. */
  function LiveTicks<V>(evs: seq<Event<V>>): nat {
    if evs == [] || evs[0].SourceEnd? || evs[0].SignalEnd? then 0
    else (if evs[0].Tick? then 1 else 0) + LiveTicks(evs[1..])
  }

  /** The reference split: the windows a timeline produces from an open,
      empty window, read from the front. An item joins the first window; a
      tick while the signal is live starts a new one; after the signal ends
      ticks start nothing; the source's end closes the run. */
  function Split<V>(evs: seq<Event<V>>, live: bool): (ws: seq<seq<V>>)
    ensures |ws| >= 1
  {
    if evs == [] || evs[0].SourceEnd? then [[]]
    else
      var rest := Split(evs[1..], live && !evs[0].SignalEnd?);
      match evs[0]
      case Item(v) => [[v] + rest[0]] + rest[1..]
      case Tick => if live then [[]] + rest else rest
      case SignalEnd => rest
  }

  /** The windows `ws` (the last one open) followed by what a split adds:
      its first part grows the open window, the rest are new windows. */
  function Attach<V>(ws: seq<seq<V>>, c: seq<seq<V>>): seq<seq<V>>
    requires |ws| >= 1 && |c| >= 1
  {
    ws[..|ws| - 1] + [ws[|ws| - 1] + c[0]] + c[1..]
  }

  // ---------------------------------------------------------------------------
  // Properties

  lemma FlattenGrowLast<V>(ws: seq<seq<V>>, v: V)
    requires |ws| >= 1
    ensures Flatten(ws[..|ws| - 1] + [ws[|ws| - 1] + [v]]) == Flatten(ws) + [v]
  {
    var n := |ws| - 1;
    var ws' := ws[..n] + [ws[n] + [v]];
    assert ws'[..n] == ws[..n];
  }

  lemma FlattenOpen<V>(ws: seq<seq<V>>)
    ensures Flatten(ws + [[]]) == Flatten(ws)
  {
    assert (ws + [[]])[..|ws|] == ws;
  }

  lemma ItemsCons<V>(e: Event<V>, t: seq<Event<V>>)
    ensures Items([e] + t) == (if e.Item? then [e.value] else []) + Items(t)
  {
    assert ([e] + t)[0] == e && ([e] + t)[1..] == t;
  }

  /** One event adds its item, if it is one and the source is live, to the
      end of the flattened windows. */
  lemma FeedKeepsItems<V>(s: State<V>, e: Event<V>)
    requires Wf(s)
    ensures Flatten(Feed(s, e).windows) == Flatten(s.windows) + (if !s.finished && e.Item? then [e.value] else [])
  {
    if !s.finished {
      match e
      case Item(v) => FlattenGrowLast(s.windows, v);
      case Tick => if !s.signalDone { FlattenOpen(s.windows); }
      case SourceEnd =>
      case SignalEnd =>
    }
  }

  /** What is left to deliver after one event: its item, then what the
      rest delivers from the state it leaves. */
  lemma LiveItemsStep<V>(s: State<V>, evs: seq<Event<V>>)
    requires Wf(s) && evs != []
    ensures (if s.finished then [] else Items(BeforeEnd(evs)))
         == (if !s.finished && evs[0].Item? then [evs[0].value] else [])
          + (if Feed(s, evs[0]).finished then [] else Items(BeforeEnd(evs[1..])))
  {
    var e := evs[0];
    if !s.finished && !e.SourceEnd? {
      assert BeforeEnd(evs) == [e] + BeforeEnd(evs[1..]);
      ItemsCons(e, BeforeEnd(evs[1..]));
    }
  }

  lemma Join<V>(x: seq<V>, y: seq<V>, z: seq<V>, now: seq<V>, later: seq<V>, whole: seq<V>)
    requires x == y + later && y == z + now && whole == now + later
    ensures x == z + whole
  {
  }

  /** Every item that arrives before the source ends goes to exactly one
      window, in order: from any well-formed state, the flattened windows
      gain exactly those items. */
  lemma {:induction false} FeedAllKeepsItems<V>(s: State<V>, evs: seq<Event<V>>)
    requires Wf(s)
    ensures Flatten(FeedAll(s, evs).windows) == Flatten(s.windows) + (if s.finished then [] else Items(BeforeEnd(evs)))
    decreases |evs|
  {
    if evs != [] {
      var s' := Feed(s, evs[0]);
      var now := if !s.finished && evs[0].Item? then [evs[0].value] else [];
      var later := if s'.finished then [] else Items(BeforeEnd(evs[1..]));
      assert FeedAll(s, evs) == FeedAll(s', evs[1..]);
      FeedAllKeepsItems(s', evs[1..]);
      FeedKeepsItems(s, evs[0]);
      LiveItemsStep(s, evs);
      Join(Flatten(FeedAll(s, evs).windows), Flatten(s'.windows), Flatten(s.windows), now, later,
           if s.finished then [] else Items(BeforeEnd(evs)));
    }
  }

  /** One window opens at the start and one more for every tick that
      arrives while the source and the signal are both live; ticks after
      either end open nothing. */
  lemma {:induction false} FeedAllCountsWindows<V>(s: State<V>, evs: seq<Event<V>>)
    requires Wf(s)
    ensures |FeedAll(s, evs).windows| == |s.windows| + (if s.finished || s.signalDone then 0 else LiveTicks(evs))
    decreases |evs|
  {
    if evs != [] {
      var s' := Feed(s, evs[0]);
      FeedAllCountsWindows(s', evs[1..]);
      if s.signalDone {
        assert s'.signalDone && |s'.windows| == |s.windows|;
      }
    }
  }

  lemma AttachNothing<V>(ws: seq<seq<V>>)
    requires |ws| >= 1
    ensures Attach(ws, [[]]) == ws
  {
    assert ws[|ws| - 1] + [] == ws[|ws| - 1];
  }

  lemma AttachItem<V>(ws: seq<seq<V>>, v: V, c: seq<seq<V>>)
    requires |ws| >= 1 && |c| >= 1
    ensures Attach(ws[..|ws| - 1] + [ws[|ws| - 1] + [v]], c) == Attach(ws, [[v] + c[0]] + c[1..])
  {
    var n := |ws| - 1;
    var ws' := ws[..n] + [ws[n] + [v]];
    assert ws'[..n] == ws[..n] && ws'[n] == ws[n] + [v];
    assert ws[n] + [v] + c[0] == ws[n] + ([v] + c[0]);
    assert ([[v] + c[0]] + c[1..])[1..] == c[1..];
  }

  lemma AttachTick<V>(ws: seq<seq<V>>, c: seq<seq<V>>)
    requires |ws| >= 1 && |c| >= 1
    ensures Attach(ws + [[]], c) == Attach(ws, [[]] + c)
  {
    var n := |ws| - 1;
    assert (ws + [[]])[..n + 1] == ws;
    assert ws[n] + [] == ws[n] && ws[..n] + [ws[n]] == ws;
    assert ([[]] + c)[1..] == c && ([[]] + c)[0] == [];
    assert [] + c[0] == c[0] && [c[0]] + c[1..] == c;
  }

  lemma AttachStart<V>(c: seq<seq<V>>)
    requires |c| >= 1
    ensures Attach([[]], c) == c
  {
    assert [] + c[0] == c[0] && [c[0]] + c[1..] == c;
  }

  /** Where the windows split: from any well-formed state the run adds what
      the reference split of the timeline adds, and nothing once the source
      has ended. */
  lemma {:induction false} FeedAllSplits<V>(s: State<V>, evs: seq<Event<V>>)
    requires Wf(s)
    ensures FeedAll(s, evs).windows == (if s.finished then s.windows else Attach(s.windows, Split(evs, !s.signalDone)))
    decreases |evs|
  {
    if evs == [] {
      if !s.finished {
        AttachNothing(s.windows);
      }
    } else {
      var e := evs[0];
      var s' := Feed(s, e);
      FeedAllSplits(s', evs[1..]);
      if !s.finished {
        var live := !s.signalDone;
        var rest := Split(evs[1..], live && !e.SignalEnd?);
        match e
        case Item(v) => AttachItem(s.windows, v, rest);
        case Tick => if live { AttachTick(s.windows, rest); }
        case SourceEnd => AttachNothing(s.windows);
        case SignalEnd =>
      }
    }
  }

  /** A whole `window` run: the windows concatenate to the items the source
      produced, there are one more of them than live ticks, and once the
      source has ended every window is completed. */
  method Windows<V>(evs: seq<Event<V>>) returns (windows: seq<seq<V>>, completed: nat)
    ensures windows == Split(evs, true)
    ensures Flatten(windows) == Items(BeforeEnd(evs))
    ensures |windows| == 1 + LiveTicks(evs)
    ensures completed == |windows| || completed == |windows| - 1
    ensures (exists i :: 0 <= i < |evs| && evs[i].SourceEnd?) ==> completed == |windows|
  {
    var s := FeedAll(Start(), evs);
    FeedAllKeepsItems(Start(), evs);
    FeedAllCountsWindows(Start(), evs);
    EndedFinishes(Start(), evs);
    FeedAllSplits(Start(), evs);
    AttachStart(Split(evs, true));
    windows, completed := s.windows, s.completed;
  }

  /** A source end anywhere in the timeline leaves the source finished. */
  lemma {:induction false} EndedFinishes<V>(s: State<V>, evs: seq<Event<V>>)
    requires Wf(s)
    ensures (s.finished || exists i :: 0 <= i < |evs| && evs[i].SourceEnd?) ==> FeedAll(s, evs).finished
    decreases |evs|
  {
    if evs != [] {
      EndedFinishes(Feed(s, evs[0]), evs[1..]);
      if exists i :: 0 <= i < |evs| && evs[i].SourceEnd? {
        var i :| 0 <= i < |evs| && evs[i].SourceEnd?;
        if i > 0 {
          assert evs[1..][i - 1].SourceEnd?;
        }
      }
    }
  }
}
