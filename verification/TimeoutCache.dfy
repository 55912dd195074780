/** One entry per key, whose lock its callers run the key's action under. */
module TimeoutCache {
  import opened Wrappers

  type Key = nat

  /** `strong` and `weak` count the references to the entry, the map's included. */
  class Entry {
    var lastTs: int
    var strong: nat
    var weak: nat

    constructor (strong: nat)
      ensures lastTs == 0 && this.strong == strong && weak == 0
    {
      lastTs, this.strong, weak := 0, strong, 0;
    }

    predicate IsHeld()
      reads this
    {
      strong > 1 || weak > 0
    }
  }

  class TimeoutCache {
    var entries: map<Key, Entry>

    constructor ()
      ensures Valid() && entries == map[]
    {
      entries := map[];
    }

    function Entries(): set<Entry>
      reads this
    {
      set k | k in entries :: entries[k]
    }

    ghost predicate Valid()
      reads this, Entries()
    {
      && (forall k :: k in entries ==> entries[k].strong >= 1)
      && (forall k, k' :: k in entries && k' in entries && entries[k] == entries[k'] ==> k == k')
    }

    /** The entry of the key, a new one the first time. */
    method GetLock(key: Key) returns (entry: Entry)
      requires Valid()
      modifies this, Entries()`strong
      ensures Valid() && entries.Keys == old(entries.Keys) + {key} && entries[key] == entry
      ensures forall k :: k in old(entries) ==> entries[k] == old(entries[k])
      ensures key !in old(entries) ==> fresh(entry) && entry.lastTs == 0
      ensures forall k :: k in old(entries) && k != key ==> entries[k].strong == old(entries[k].strong)
      ensures entry.IsHeld()
    {
      if key !in entries {
        entry := new Entry(2);
        entries := entries[key := entry];
      } else {
        entry := entries[key];
        entry.strong := entry.strong + 1;
      }
    }

    method Remove(key: Key) returns (removed: bool)
      requires Valid()
      modifies this
      ensures Valid()
      ensures removed <==> key in old(entries) && !old(entries[key]).IsHeld()
      ensures entries == if removed then old(entries) - {key} else old(entries)
    {
      removed := key in entries && !entries[key].IsHeld();
      if removed {
        entries := entries - {key};
      }
    }

    /** The entries somebody holds, or last set at `olderThan` or later, and how many others there were. */
    static method Retain(all: map<Key, Entry>, olderThan: int) returns (kept: map<Key, Entry>, removed: nat)
      ensures kept == map k | k in all && (all[k].IsHeld() || all[k].lastTs >= olderThan) :: all[k]
      ensures removed + |kept| == |all|
    {
      kept, removed := all, 0;
      var left := all.Keys;
      while left != {}
        invariant left <= all.Keys
        invariant kept == map k | k in all && (k in left || all[k].IsHeld() || all[k].lastTs >= olderThan) :: all[k]
        invariant removed + |kept| == |all|
        decreases left
      {
        var k :| k in left;
        if !all[k].IsHeld() && all[k].lastTs < olderThan {
          assert kept.Keys == (kept - {k}).Keys + {k};
          kept := kept - {k};
          removed := removed + 1;
        }
        left := left - {k};
      }
    }

    /** Removes the entries nobody holds that were last set before `olderThan`. */
    method Prune(olderThan: int) returns (removed: nat)
      requires Valid()
      modifies this
      ensures Valid()
      ensures entries == map k | k in old(entries) &&
                (old(entries[k]).IsHeld() || old(entries[k]).lastTs >= olderThan) :: old(entries)[k]
      ensures removed + |entries| == |old(entries)|
    {
      entries, removed := Retain(entries, olderThan);
    }
  }

  // --------------------------------------------------------------------- runs

  type EntryId = nat
  type TaskId = nat

  datatype State = Holding | Running | Downgraded

  /** A caller's handle for a key, and whether it runs the action under the entry's lock. */
  datatype Task = Task(key: Key, e: EntryId, state: State)

  datatype World = World(table: map<Key, EntryId>, stamps: map<EntryId, int>, tasks: map<TaskId, Task>)

  datatype Event =
    | Take(t: TaskId, k: Key, spare: EntryId)
    | Lock(t: TaskId)
    | Unlock(t: TaskId, ts: Option<int>)
    | Downgrade(t: TaskId)
    | Upgrade(t: TaskId)
    | Drop(t: TaskId)
    | Forget(k: Key)

  predicate Held(w: World, e: EntryId) {
    exists t :: t in w.tasks && w.tasks[t].e == e
  }

  predicate Locked(w: World, e: EntryId) {
    exists t :: t in w.tasks && w.tasks[t].e == e && w.tasks[t].state == Running
  }

  function Become(w: World, t: TaskId, from: State, to: State): Option<World> {
    if t in w.tasks && w.tasks[t].state == from
    then Some(w.(tasks := w.tasks[t := w.tasks[t].(state := to)])) else None
  }

  /** `Forget` is any removal: only of an entry nobody holds, by `remove`, `retain` or `prune`. */
  function Do(w: World, ev: Event): Option<World> {
    match ev
    case Take(t, k, spare) =>
      if t in w.tasks || spare in w.stamps then None
      else if k in w.table then Some(w.(tasks := w.tasks[t := Task(k, w.table[k], Holding)]))
      else Some(World(w.table[k := spare], w.stamps[spare := 0], w.tasks[t := Task(k, spare, Holding)]))
    case Lock(t) =>
      if t in w.tasks && !Locked(w, w.tasks[t].e) then Become(w, t, Holding, Running) else None
    case Unlock(t, ts) =>
      (match Become(w, t, Running, Holding)
       case None => None
       case Some(w1) => Some(if ts.Some? then w1.(stamps := w.stamps[w.tasks[t].e := ts.value]) else w1))
    case Downgrade(t) => Become(w, t, Holding, Downgraded)
    case Upgrade(t) => Become(w, t, Downgraded, Holding)
    case Drop(t) =>
      if t in w.tasks && w.tasks[t].state != Running then Some(w.(tasks := w.tasks - {t})) else None
    case Forget(k) =>
      if k in w.table && !Held(w, w.table[k])
      then Some(w.(table := w.table - {k}, stamps := w.stamps - {w.table[k]})) else None
  }

  function Run(events: seq<Event>): Option<World> {
    if events == [] then Some(World(map[], map[], map[]))
    else
      match Run(events[..|events| - 1])
      case None => None
      case Some(w) => Do(w, events[|events| - 1])
  }

  predicate Owns(w: World, k: Key, e: EntryId) {
    k in w.table && w.table[k] == e
  }

  ghost predicate Coherent(w: World) {
    && (forall k :: k in w.table ==> w.table[k] in w.stamps)
    && (forall k, k' :: k in w.table && k' in w.table && w.table[k] == w.table[k'] ==> k == k')
    && (forall t :: t in w.tasks ==> Owns(w, w.tasks[t].key, w.tasks[t].e))
  }

  ghost predicate Exclusive(w: World) {
    forall t, t' | t in w.tasks && t' in w.tasks && w.tasks[t].e == w.tasks[t'].e ::
      w.tasks[t].state == Running && w.tasks[t'].state == Running ==> t == t'
  }

  lemma StepCoherent(w: World, ev: Event, w': World)
    requires Coherent(w) && Do(w, ev) == Some(w')
    ensures Coherent(w')
  {
    forall t | t in w'.tasks ensures Owns(w', w'.tasks[t].key, w'.tasks[t].e) {
      if t in w.tasks {
        assert Owns(w, w.tasks[t].key, w.tasks[t].e);
        assert Held(w, w.tasks[t].e);
      }
    }
  }

  lemma StepExclusive(w: World, ev: Event, w': World)
    requires Exclusive(w) && Do(w, ev) == Some(w')
    ensures Exclusive(w')
  {
  }

  lemma {:induction false} RunInv(events: seq<Event>)
    requires Run(events).Some?
    ensures Coherent(Run(events).value) && Exclusive(Run(events).value)
  {
    if events != [] {
      var init := events[..|events| - 1];
      RunInv(init);
      StepCoherent(Run(init).value, events[|events| - 1], Run(events).value);
      StepExclusive(Run(init).value, events[|events| - 1], Run(events).value);
    }
  }

  /** Through any interleaving of lookups, removals and handle drops, all handles for a key are the
      one entry on the map for it, so no two callers run the key's action at the same time. */
  lemma ActionsAreExclusive(events: seq<Event>, w: World, t: TaskId, t': TaskId)
    requires Run(events) == Some(w) && t in w.tasks && t' in w.tasks && w.tasks[t].key == w.tasks[t'].key
    ensures w.tasks[t].e == w.tasks[t'].e && Owns(w, w.tasks[t].key, w.tasks[t].e)
    ensures w.tasks[t].state == Running && w.tasks[t'].state == Running ==> t == t'
  {
    RunInv(events);
    assert Owns(w, w.tasks[t].key, w.tasks[t].e);
  }
}
