/** A value loaded from a store and kept in memory until it changes. */
module ReloadCache {
  import opened Wrappers

  datatype CacheView<T> = CacheView(changes: nat, kept: Option<T>)

  /** The lock before a load: the value in memory, else the changes so far. */
  function Looked<T>(c: CacheView<T>): (Option<T>, nat) {
    (c.kept, c.changes)
  }

  /** The lock after a load that began when there were `changes`. */
  function Loaded<T>(c: CacheView<T>, changes: nat, value: T): CacheView<T> {
    if c.changes == changes then c.(kept := Some(value)) else c
  }

  function Invalidated<T>(c: CacheView<T>): CacheView<T> {
    CacheView(c.changes + 1, None)
  }

  class ReloadCache<T> {
    var changes: nat
    var kept: Option<T>

    constructor ()
      ensures View() == CacheView(0, None)
    {
      changes, kept := 0, None;
    }

    ghost function View(): CacheView<T>
      reads this
    {
      CacheView(changes, kept)
    }

    method Look() returns (hit: Option<T>, seen: nat)
      ensures (hit, seen) == Looked(View())
    {
      hit, seen := kept, changes;
    }

    method Load(seen: nat, value: T)
      modifies this`kept
      ensures View() == Loaded(old(View()), seen, value)
    {
      if changes == seen {
        kept := Some(value);
      }
    }

    method Changed()
      modifies this
      ensures View() == Invalidated(old(View()))
    {
      changes := changes + 1;
      kept := None;
    }
  }

  // --------------------------------------------------------------------- runs

  /** What a load yields, with the version of the store it was read from. */
  datatype Stamped<T> = Stamped(value: T, version: nat)

  /** `floor` is the version stored at the last change announced before the call began. */
  datatype Call<T> =
    | Begun(floor: nat)
    | Loading(floor: nat, seen: nat)
    | Read(floor: nat, seen: nat, got: Stamped<T>)
    | Returned(floor: nat, got: Stamped<T>)

  /** `history` holds every value the store had, the last being there now; `unannounced` the
      versions whose writers stored them but did not call `changed` yet; `announced` is the version
      stored at the last call of `changed`. */
  datatype World<T> = World(
    history: seq<T>,
    announced: nat,
    unannounced: map<nat, nat>,
    cache: CacheView<Stamped<T>>,
    calls: map<nat, Call<T>>)

  datatype Event<T> =
    | Store(writer: nat, value: T)
    | Announce(writer: nat)
    | Begin(call: nat)
    | Look(call: nat)
    | ReadStore(call: nat)
    | FailLoad(call: nat)
    | Finish(call: nat)

  function Version<T>(w: World<T>): nat
    requires w.history != []
  {
    |w.history| - 1
  }

  function Do<T>(w: World<T>, ev: Event<T>): Option<World<T>>
    requires w.history != []
  {
    match ev
    case Store(writer, value) =>
      if writer in w.unannounced then None
      else Some(w.(history := w.history + [value], unannounced := w.unannounced[writer := |w.history|]))
    case Announce(writer) =>
      if writer !in w.unannounced then None
      else Some(w.(cache := Invalidated(w.cache), announced := Version(w),
                   unannounced := w.unannounced - {writer}))
    case Begin(call) =>
      if call in w.calls then None
      else Some(w.(calls := w.calls[call := Begun(w.announced)]))
    case Look(call) =>
      if call in w.calls && w.calls[call].Begun? then
        var floor := w.calls[call].floor;
        Some(w.(calls := w.calls[call := match Looked(w.cache)
                                         case (Some(got), _) => Returned(floor, got)
                                         case (None, seen) => Loading(floor, seen)]))
      else None
    case ReadStore(call) =>
      if call in w.calls && w.calls[call].Loading? then
        var got := Stamped(w.history[Version(w)], Version(w));
        Some(w.(calls := w.calls[call := Read(w.calls[call].floor, w.calls[call].seen, got)]))
      else None
    case FailLoad(call) =>
      if call in w.calls && w.calls[call].Loading? then Some(w.(calls := w.calls - {call})) else None
    case Finish(call) =>
      if call in w.calls && w.calls[call].Read? then
        var Read(floor, seen, got) := w.calls[call];
        Some(w.(cache := Loaded(w.cache, seen, got), calls := w.calls[call := Returned(floor, got)]))
      else None
  }

  function Start<T>(stored: T): World<T> {
    World([stored], 0, map[], CacheView(0, None), map[])
  }

  /** The world after the events, when they can happen in this order. */
  function Run<T>(stored: T, events: seq<Event<T>>): (w: Option<World<T>>)
    ensures w.Some? ==> w.value.history != []
  {
    if events == [] then Some(Start(stored))
    else
      match Run(stored, events[..|events| - 1])
      case None => None
      case Some(w) => Do(w, events[|events| - 1])
  }

  ghost predicate Genuine<T>(w: World<T>, got: Stamped<T>, floor: nat) {
    floor <= got.version < |w.history| && w.history[got.version] == got.value
  }

  ghost predicate CallOk<T>(w: World<T>, c: Call<T>) {
    && c.floor <= w.announced
    && match c
       case Begun(_) => true
       case Loading(_, seen) => seen <= w.cache.changes
       case Read(floor, seen, got) =>
         seen <= w.cache.changes && Genuine(w, got, if seen == w.cache.changes then w.announced else floor)
       case Returned(floor, got) => Genuine(w, got, floor)
  }

  ghost predicate Inv<T>(w: World<T>) {
    && w.history != [] && w.announced <= Version(w)
    && (forall v: nat :: w.announced < v <= Version(w) ==> v in w.unannounced.Values)
    && (w.cache.kept.Some? ==> Genuine(w, w.cache.kept.value, w.announced))
    && (forall c :: c in w.calls ==> CallOk(w, w.calls[c]))
  }

  lemma StepInv<T>(w: World<T>, ev: Event<T>, w': World<T>)
    requires Inv(w) && Do(w, ev) == Some(w')
    ensures Inv(w')
  {
    if ev.Store? {
      forall v: nat | w'.announced < v <= Version(w') ensures v in w'.unannounced.Values {
        if v == Version(w') {
          assert w'.unannounced[ev.writer] == v;
        } else {
          assert v in w.unannounced.Values;
          var x :| x in w.unannounced && w.unannounced[x] == v;
          assert w'.unannounced[x] == v;
        }
      }
    }
    forall c | c in w'.calls ensures CallOk(w', w'.calls[c]) {
      StepCallOk(w, ev, w', c);
    }
  }

  lemma StepCallOk<T>(w: World<T>, ev: Event<T>, w': World<T>, c: nat)
    requires Inv(w) && Do(w, ev) == Some(w') && c in w'.calls
    ensures CallOk(w', w'.calls[c])
  {
    if c in w.calls { assert CallOk(w, w.calls[c]); }
  }

  lemma {:induction false} RunInv<T>(stored: T, events: seq<Event<T>>)
    requires Run(stored, events).Some?
    ensures Inv(Run(stored, events).value)
  {
    if events != [] {
      var init := events[..|events| - 1];
      RunInv(stored, init);
      StepInv(Run(stored, init).value, events[|events| - 1], Run(stored, events).value);
    }
  }

  /** Whatever runs at the same time, a value kept in memory is one the store held at or after the
      last announced change; with every stored change announced it is what the store holds. */
  lemma KeptIsFresh<T>(stored: T, events: seq<Event<T>>, w: World<T>)
    requires Run(stored, events) == Some(w) && w.cache.kept.Some?
    ensures var got := w.cache.kept.value;
            && w.announced <= got.version < |w.history| && w.history[got.version] == got.value
            && (w.unannounced == map[] ==> got.value == w.history[|w.history| - 1])
  {
    RunInv(stored, events);
    assert w.announced < Version(w) ==> Version(w) in w.unannounced.Values;
  }

  lemma ReturnedIsGenuine<T>(w: World<T>, call: nat)
    requires Inv(w) && call in w.calls && w.calls[call].Returned?
    ensures Genuine(w, w.calls[call].got, w.calls[call].floor)
  {
    assert CallOk(w, w.calls[call]);
  }

  /** A call never returns a value older than a change announced before it began. */
  lemma NeverOlderThanChange<T>(stored: T, before: seq<Event<T>>, after: seq<Event<T>>, call: nat,
                                w: World<T>, w': World<T>)
    requires Run(stored, before) == Some(w) && call !in w.calls
    requires Run(stored, before + [Begin(call)] + after) == Some(w')
    requires call in w'.calls && w'.calls[call].Returned?
    requires forall i :: 0 <= i < |after| ==> after[i] != Begin(call)
    ensures var got := w'.calls[call].got;
            w.announced <= got.version < |w'.history| && w'.history[got.version] == got.value
  {
    var events := before + [Begin(call)] + after;
    assert Inv(w') by { RunInv(stored, events); }
    FloorStays(stored, before, after, call, w, w');
    ReturnedIsGenuine(w', call);
  }

  lemma {:induction false} FloorStays<T>(stored: T, before: seq<Event<T>>, after: seq<Event<T>>, call: nat,
                                         w: World<T>, w': World<T>)
    requires Run(stored, before) == Some(w) && call !in w.calls
    requires Run(stored, before + [Begin(call)] + after) == Some(w')
    requires forall i :: 0 <= i < |after| ==> after[i] != Begin(call)
    ensures call in w'.calls ==> w'.calls[call].floor == w.announced
  {
    var all := before + [Begin(call)] + after;
    if after == [] {
      assert all == before + [Begin(call)];
      assert all[..|all| - 1] == before;
    } else {
      var init := after[..|after| - 1];
      assert all[..|all| - 1] == before + [Begin(call)] + init;
      FloorStays(stored, before, init, call, w, Run(stored, before + [Begin(call)] + init).value);
      assert after[|after| - 1] != Begin(call);
    }
  }

  ghost predicate NoChange<T>(events: seq<Event<T>>) {
    forall i :: 0 <= i < |events| ==> !events[i].Announce?
  }

  lemma RunSplit<T>(stored: T, before: seq<Event<T>>, ev: Event<T>)
    ensures Run(stored, before + [ev]) ==
            match Run(stored, before) case None => None case Some(w) => Do(w, ev)
  {
    assert (before + [ev])[..|before|] == before;
  }

  /** Until a change is announced a value stays in memory, and a call that looks returns one without a load. */
  lemma {:induction false} KeptUntilChange<T>(stored: T, before: seq<Event<T>>, mid: seq<Event<T>>, w: World<T>,
                                              w': World<T>)
    requires Run(stored, before) == Some(w) && w.cache.kept.Some?
    requires Run(stored, before + mid) == Some(w') && NoChange(mid)
    ensures w'.cache.kept.Some?
    ensures forall call :: call in w'.calls && w'.calls[call].Begun? ==>
              var next := Do(w', Look(call));
              next.Some? && next.value.calls[call].Returned? && next.value.calls[call].got == w'.cache.kept.value
  {
    if mid == [] {
      assert before + mid == before;
    } else {
      var init, last := mid[..|mid| - 1], mid[|mid| - 1];
      assert before + mid == (before + init) + [last];
      RunSplit(stored, before + init, last);
      KeptUntilChange(stored, before, init, w, Run(stored, before + init).value);
    }
  }

  /** A call that loads has seen every change, or is over. */
  ghost predicate UpToDate<T>(w: World<T>, call: nat) {
    call in w.calls ==>
      match w.calls[call]
      case Begun(_) => false
      case Loading(_, seen) => seen == w.cache.changes
      case Read(_, seen, _) => seen == w.cache.changes
      case Returned(_, _) => true
  }

  ghost predicate NotBegun<T>(events: seq<Event<T>>, call: nat) {
    forall i :: 0 <= i < |events| ==> events[i] != Begin(call)
  }

  lemma {:induction false} StaysUpToDate<T>(stored: T, before: seq<Event<T>>, mid: seq<Event<T>>, call: nat,
                                            w: World<T>, w': World<T>)
    requires Run(stored, before) == Some(w) && UpToDate(w, call)
    requires Run(stored, before + mid) == Some(w') && NoChange(mid) && NotBegun(mid, call)
    ensures UpToDate(w', call)
  {
    if mid == [] {
      assert before + mid == before;
    } else {
      var init, last := mid[..|mid| - 1], mid[|mid| - 1];
      assert before + mid == (before + init) + [last];
      RunSplit(stored, before + init, last);
      StaysUpToDate(stored, before, init, call, w, Run(stored, before + init).value);
      assert last != Begin(call) && !last.Announce?;
    }
  }

  /** A value that was loaded is kept, unless a change was announced since the load began. */
  lemma LoadIsKept<T>(stored: T, before: seq<Event<T>>, mid: seq<Event<T>>, call: nat, w: World<T>, w': World<T>)
    requires Run(stored, before) == Some(w) && NoChange(mid) && NotBegun(mid, call)
    requires Run(stored, before + [Look(call)] + mid) == Some(w') && Do(w', Finish(call)).Some?
    ensures call in w'.calls && w'.calls[call].Read?
    ensures Do(w', Finish(call)).value.cache.kept == Some(w'.calls[call].got)
  {
    RunSplit(stored, before, Look(call));
    RunPrefix(stored, before + [Look(call)], mid);
    StaysUpToDate(stored, before + [Look(call)], mid, call, Run(stored, before + [Look(call)]).value, w');
  }

  lemma {:induction false} RunPrefix<T>(stored: T, before: seq<Event<T>>, mid: seq<Event<T>>)
    requires Run(stored, before + mid).Some?
    ensures Run(stored, before).Some?
  {
    if mid == [] {
      assert before + mid == before;
    } else {
      var init := mid[..|mid| - 1];
      assert before + mid == (before + init) + [mid[|mid| - 1]];
      RunSplit(stored, before + init, mid[|mid| - 1]);
      RunPrefix(stored, before, init);
    }
  }
}
