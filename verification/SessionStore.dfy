/** A bounded in-memory session store, against the unbounded map it stands for. */
module SessionStore {
  import opened Wrappers
  import opened Selection

  type Id = nat

  datatype Record = Record(id: Id, data: nat, expiry: int)

  type Records = map<Id, Record>

  predicate Active(r: Record, now: int) {
    r.expiry > now
  }

  function Swept(m: Records, now: int): Records {
    map id | id in m && Active(m[id], now) :: m[id]
  }

  function Expiries(m: Records): map<Id, int> {
    map id | id in m :: m[id].expiry
  }

  function Max(a: nat, b: nat): nat { if a >= b then a else b }

  function Min(a: nat, b: nat): nat { if a <= b then a else b }

  /** How many sessions a full swept store of this size evicts. */
  function EvictCount(size: nat, max: nat): nat {
    if size + 1 <= max then 0 else Min(Max(size + 1 - max, max / 10), size)
  }

  /** `make_room` evicting the sessions `gone`. */
  predicate Evictable(m: Records, max: nat, now: int, gone: set<Id>) {
    if |m| < max then gone == {}
    else
      var left := Swept(m, now);
      gone <= left.Keys && |gone| == EvictCount(|left|, max) &&
      LowestFirst(Expiries(left), gone, left.Keys - gone)
  }

  function Room(m: Records, max: nat, now: int, gone: set<Id>): Records {
    if |m| < max then m else Swept(m, now) - gone
  }

  /** The fields of the store: `sweepInterval` and `lastSweep` in the monotonic clock. */
  datatype StoreView = StoreView(records: Records, max: nat, sweepInterval: nat, lastSweep: nat)

  function Sweep(s: StoreView, now: int, tick: nat): StoreView {
    s.(records := Swept(s.records, now), lastSweep := tick)
  }

  function MaybeSweep(s: StoreView, now: int, tick: nat): StoreView {
    if tick >= s.lastSweep && tick - s.lastSweep >= s.sweepInterval then Sweep(s, now, tick) else s
  }

  /** `make_room`, with the sweep it begins with. */
  function MadeRoom(s: StoreView, now: int, tick: nat, gone: set<Id>): StoreView {
    s.(records := Room(s.records, s.max, now, gone),
       lastSweep := if |s.records| < s.max then s.lastSweep else tick)
  }

  lemma RoomFits(m: Records, max: nat, now: int, gone: set<Id>)
    requires max >= 1 && |m| <= max && Evictable(m, max, now, gone)
    ensures |Room(m, max, now, gone)| < max
    ensures |gone| == if |Swept(m, now)| < max then 0 else Max(1, max / 10)
    ensures forall a, b :: a in gone && b in Room(m, max, now, gone) ==>
              a in m && b in m && m[a].expiry <= m[b].expiry && Active(m[a], now)
  {
    var left := Swept(m, now);
    SizeOfSubset(left.Keys, m.Keys);
    if |m| >= max {
      assert (left - gone).Keys == left.Keys - gone;
    }
  }

  // ------------------------------------------------------------ the store itself

  class MemoryStore {
    var records: Records
    const maxSessions: nat
    const sweepInterval: nat
    var lastSweep: nat

    constructor (maxSessions: nat, sweepInterval: nat, tick: nat)
      ensures Valid() && View() == StoreView(map[], Max(maxSessions, 1), sweepInterval, tick)
    {
      records := map[];
      this.maxSessions := Max(maxSessions, 1);
      this.sweepInterval := sweepInterval;
      lastSweep := tick;
    }

    ghost predicate Valid()
      reads this
    {
      maxSessions >= 1 && |records| <= maxSessions
    }

    ghost function View(): StoreView
      reads this
    {
      StoreView(records, maxSessions, sweepInterval, lastSweep)
    }

    method DoSweep(now: int, tick: nat)
      requires Valid()
      modifies this
      ensures Valid() && View() == Sweep(old(View()), now, tick)
    {
      SizeOfSubset(Swept(records, now).Keys, records.Keys);
      records := map id | id in records && Active(records[id], now) :: records[id];
      lastSweep := tick;
    }

    method DoMaybeSweep(now: int, tick: nat)
      requires Valid()
      modifies this
      ensures Valid() && View() == MaybeSweep(old(View()), now, tick)
    {
      if tick >= lastSweep && tick - lastSweep >= sweepInterval {
        DoSweep(now, tick);
      }
    }

    method MakeRoom(now: int, tick: nat) returns (ghost gone: set<Id>)
      requires Valid()
      modifies this
      ensures Valid() && |records| < maxSessions
      ensures Evictable(old(records), maxSessions, now, gone)
      ensures View() == MadeRoom(old(View()), now, tick, gone)
    {
      ghost var before := records;
      gone := {};
      if |records| < maxSessions {
        return;
      }
      DoSweep(now, tick);
      if |records| + 1 > maxSessions {
        var count := Min(Max(|records| + 1 - maxSessions, maxSessions / 10), |records|);
        var soonest := SelectLowest(Expiries(records), records.Keys, count);
        gone := soonest;
        records := records - soonest;
      } else {
        assert records - {} == records;
      }
      RoomFits(before, maxSessions, now, gone);
    }

    /** Under the record's id, or another one when it is taken. */
    method Create(record: Record, now: int, tick: nat) returns (id: Id, ghost gone: set<Id>)
      requires Valid()
      modifies this
      ensures Valid()
      ensures var s := MaybeSweep(old(View()), now, tick);
              var room := MadeRoom(s, now, tick, gone);
              && Evictable(s.records, maxSessions, now, gone)
              && id !in room.records && (record.id !in room.records ==> id == record.id)
              && View() == room.(records := room.records[id := record.(id := id)])
    {
      DoMaybeSweep(now, tick);
      gone := MakeRoom(now, tick);
      id := record.id;
      if id in records {
        FreeId(records.Keys);
        id :| id !in records;
      }
      records := records[id := record.(id := id)];
    }

    method Save(record: Record, now: int, tick: nat) returns (ghost gone: set<Id>)
      requires Valid()
      modifies this
      ensures Valid()
      ensures var s := MaybeSweep(old(View()), now, tick);
              && (if record.id in s.records then gone == {} else Evictable(s.records, maxSessions, now, gone))
              && var room := if record.id in s.records then s else MadeRoom(s, now, tick, gone);
                 View() == room.(records := room.records[record.id := record])
    {
      DoMaybeSweep(now, tick);
      gone := {};
      if record.id !in records {
        gone := MakeRoom(now, tick);
      } else {
        assert records[record.id := record].Keys == records.Keys;
      }
      records := records[record.id := record];
    }

    method Load(id: Id, now: int) returns (found: Option<Record>)
      requires Valid()
      modifies this`records
      ensures Valid()
      ensures found == if id in old(records) && old(records)[id].expiry > now
                       then Some(old(records)[id]) else None
      ensures records == if found.None? then old(records) - {id} else old(records)
    {
      found := None;
      if id in records {
        if Active(records[id], now) {
          found := Some(records[id]);
        } else {
          SizeOfSubset((records - {id}).Keys, records.Keys);
          records := records - {id};
        }
      } else {
        assert records - {id} == records;
      }
    }

    method Delete(id: Id)
      requires Valid()
      modifies this`records
      ensures Valid() && records == old(records) - {id}
    {
      SizeOfSubset((records - {id}).Keys, records.Keys);
      records := records - {id};
    }
  }

  lemma FreeId(taken: set<Id>)
    ensures exists id: Id :: id !in taken
  {
    var bound := Bound(taken);
    assert bound !in taken;
  }

  lemma {:induction false} Bound(taken: set<Id>) returns (b: nat)
    ensures forall id :: id in taken ==> id < b
  {
    if taken == {} {
      b := 0;
    } else {
      var some :| some in taken;
      var rest := Bound(taken - {some});
      b := Max(rest, some + 1);
      assert taken == (taken - {some}) + {some};
    }
  }

  // --------------------------------------------------------------------- runs

  /** The operations, with the clocks, the id a create ends with, and the evicted sessions. */
  datatype Op =
    | Create(record: Record, id: Id, gone: set<Id>)
    | Save(record: Record, gone: set<Id>)
    | Load(id: Id)
    | Delete(id: Id)
    | DeleteExpired

  /** The store beside the unbounded `ideal` map, which only writes and deletes change; `evicted`
      are the ids evicted since they were last written. */
  datatype World = World(store: StoreView, now: int, ideal: Records, evicted: set<Id>)

  function Write(w: World, s: StoreView, now: int, record: Record, gone: set<Id>): World {
    World(s.(records := s.records[record.id := record]), now,
          w.ideal[record.id := record], (w.evicted + gone) - {record.id})
  }

  /** One operation at `now`, a time no earlier than the last; `None` when it does not match. */
  function Do(w: World, op: Op, now: int, tick: nat): Option<World> {
    if now < w.now then None
    else
      match op
      case Create(record, id, gone) =>
        var s := MaybeSweep(w.store, now, tick);
        if !Evictable(s.records, s.max, now, gone) then None
        else
          var room := MadeRoom(s, now, tick, gone);
          if id in room.records || (record.id !in room.records && id != record.id) then None
          else Some(Write(w, room, now, record.(id := id), gone))
      case Save(record, gone) =>
        var s := MaybeSweep(w.store, now, tick);
        if record.id in s.records then
          if gone == {} then Some(Write(w, s, now, record, {})) else None
        else if !Evictable(s.records, s.max, now, gone) then None
        else Some(Write(w, MadeRoom(s, now, tick, gone), now, record, gone))
      case Load(id) =>
        Some(w.(now := now,
                store := if id in w.store.records && !Active(w.store.records[id], now)
                         then w.store.(records := w.store.records - {id}) else w.store))
      case Delete(id) =>
        Some(w.(now := now, store := w.store.(records := w.store.records - {id}),
                ideal := w.ideal - {id}, evicted := w.evicted - {id}))
      case DeleteExpired => Some(w.(now := now, store := Sweep(w.store, now, tick)))
  }

  datatype Call = Call(op: Op, now: int, tick: nat)

  function Run(start: World, calls: seq<Call>): Option<World> {
    if calls == [] then Some(start)
    else
      match Run(start, calls[..|calls| - 1])
      case None => None
      case Some(w) => var c := calls[|calls| - 1]; Do(w, c.op, c.now, c.tick)
  }

  function Start(max: nat, sweepInterval: nat, now: int, tick: nat): World {
    World(StoreView(map[], Max(max, 1), sweepInterval, tick), now, map[], {})
  }

  /** What is held is what was last written; what was written, is unexpired and was not evicted is
      held. */
  ghost predicate Faithful(held: Records, now: int, ideal: Records, evicted: set<Id>) {
    && (forall id :: id in held ==> id in ideal && ideal[id] == held[id] && id !in evicted)
    && (forall id :: id in ideal && id !in evicted && Active(ideal[id], now) ==> id in held)
  }

  ghost predicate Inv(w: World) {
    && w.store.max >= 1 && |w.store.records| <= w.store.max
    && Faithful(w.store.records, w.now, w.ideal, w.evicted)
  }

  lemma SweepFaithful(s: StoreView, now: int, tick: nat, ideal: Records, evicted: set<Id>)
    requires Faithful(s.records, now, ideal, evicted) && |s.records| <= s.max
    ensures Faithful(Swept(s.records, now), now, ideal, evicted) && |Swept(s.records, now)| <= s.max
    ensures Faithful(MaybeSweep(s, now, tick).records, now, ideal, evicted)
    ensures |MaybeSweep(s, now, tick).records| <= s.max
  {
    SizeOfSubset(Swept(s.records, now).Keys, s.records.Keys);
  }

  lemma RoomFaithful(m: Records, max: nat, now: int, gone: set<Id>, ideal: Records, evicted: set<Id>)
    requires Faithful(m, now, ideal, evicted) && max >= 1 && |m| <= max && Evictable(m, max, now, gone)
    ensures Faithful(Room(m, max, now, gone), now, ideal, evicted + gone)
    ensures |Room(m, max, now, gone)| < max
  {
    RoomFits(m, max, now, gone);
  }

  lemma WriteInv(w: World, s: StoreView, now: int, record: Record, gone: set<Id>)
    requires s.max >= 1 && Faithful(s.records, now, w.ideal, w.evicted + gone)
    requires |s.records| < s.max || (record.id in s.records && |s.records| <= s.max)
    ensures Inv(Write(w, s, now, record, gone))
  {
    if record.id in s.records {
      assert s.records[record.id := record].Keys == s.records.Keys;
    } else {
      assert s.records[record.id := record].Keys == s.records.Keys + {record.id};
    }
  }

  lemma CreateInv(w: World, record: Record, id: Id, gone: set<Id>, now: int, tick: nat, w': World)
    requires Inv(w) && Do(w, Create(record, id, gone), now, tick) == Some(w')
    ensures Inv(w')
  {
    SweepFaithful(w.store, now, tick, w.ideal, w.evicted);
    var s := MaybeSweep(w.store, now, tick);
    RoomFaithful(s.records, s.max, now, gone, w.ideal, w.evicted);
    WriteInv(w, MadeRoom(s, now, tick, gone), now, record.(id := id), gone);
  }

  lemma SaveInv(w: World, record: Record, gone: set<Id>, now: int, tick: nat, w': World)
    requires Inv(w) && Do(w, Save(record, gone), now, tick) == Some(w')
    ensures Inv(w')
  {
    SweepFaithful(w.store, now, tick, w.ideal, w.evicted);
    var s := MaybeSweep(w.store, now, tick);
    if record.id in s.records {
      assert w.evicted + {} == w.evicted;
      WriteInv(w, s, now, record, {});
    } else {
      RoomFaithful(s.records, s.max, now, gone, w.ideal, w.evicted);
      WriteInv(w, MadeRoom(s, now, tick, gone), now, record, gone);
    }
  }

  lemma StepInv(w: World, op: Op, now: int, tick: nat, w': World)
    requires Inv(w) && Do(w, op, now, tick) == Some(w')
    ensures Inv(w')
  {
    match op
    case Create(record, id, gone) => CreateInv(w, record, id, gone, now, tick, w');
    case Save(record, gone) => SaveInv(w, record, gone, now, tick, w');
    case Load(id) => SizeOfSubset((w.store.records - {id}).Keys, w.store.records.Keys);
    case Delete(id) => SizeOfSubset((w.store.records - {id}).Keys, w.store.records.Keys);
    case DeleteExpired => SweepFaithful(w.store, now, tick, w.ideal, w.evicted);
  }

  lemma {:induction false} RunInv(start: World, calls: seq<Call>)
    requires Inv(start) && Run(start, calls).Some?
    ensures Inv(Run(start, calls).value)
  {
    if calls != [] {
      var init, c := calls[..|calls| - 1], calls[|calls| - 1];
      RunInv(start, init);
      StepInv(Run(start, init).value, c.op, c.now, c.tick, Run(start, calls).value);
    }
  }

  /** What `load` finds. */
  function Found(m: Records, id: Id, now: int): Option<Record> {
    if id in m && Active(m[id], now) then Some(m[id]) else None
  }

  /** After every run the store holds at most its maximum, and a load at any later time finds
      exactly what it would in the unbounded map, except that it does not find sessions evicted
      since they were last written. */
  lemma StoreRefinesMap(max: nat, sweepInterval: nat, start: int, tick: nat, calls: seq<Call>, w: World,
                        id: Id, now: int)
    requires Run(Start(max, sweepInterval, start, tick), calls) == Some(w) && w.now <= now
    ensures |w.store.records| <= Max(max, 1)
    ensures Found(w.store.records, id, now) ==
            if id in w.evicted then None else Found(w.ideal, id, now)
    ensures Found(w.store.records, id, now).Some? <==>
            id in w.ideal && id !in w.evicted && w.ideal[id].expiry > now
  {
    RunInv(Start(max, sweepInterval, start, tick), calls);
    MaxStays(Start(max, sweepInterval, start, tick), calls);
  }

  lemma {:induction false} MaxStays(start: World, calls: seq<Call>)
    requires Run(start, calls).Some?
    ensures Run(start, calls).value.store.max == start.store.max
  {
    if calls != [] {
      MaxStays(start, calls[..|calls| - 1]);
    }
  }

  lemma SweptTwice(m: Records, now: int)
    ensures Swept(Swept(m, now), now) == Swept(m, now)
  {
  }

  lemma EvictsFairly(w: World, op: Op, now: int, tick: nat)
    requires Inv(w) && (op.Create? || op.Save?) && Do(w, op, now, tick).Some? && op.gone != {}
    ensures var held := Swept(w.store.records, now);
            && |held| == w.store.max && op.gone <= held.Keys
            && |op.gone| == Max(1, w.store.max / 10)
            && forall a, b :: a in op.gone && b in held.Keys - op.gone ==> held[a].expiry <= held[b].expiry
  {
    SweepFaithful(w.store, now, tick, w.ideal, w.evicted);
    SweptTwice(w.store.records, now);
    var s := MaybeSweep(w.store, now, tick);
    RoomFits(s.records, s.max, now, op.gone);
  }

  /** A write evicts only when the store is full of unexpired sessions after a sweep, then one or a
      tenth of it, and no session it evicts expires later than one it keeps. */
  lemma EvictionIsFair(max: nat, sweepInterval: nat, start: int, tick0: nat, calls: seq<Call>, w: World,
                       op: Op, now: int, tick: nat)
    requires Run(Start(max, sweepInterval, start, tick0), calls) == Some(w)
    requires op.Create? || op.Save?
    requires Do(w, op, now, tick).Some? && op.gone != {}
    ensures var held := Swept(w.store.records, now);
            && |held| == w.store.max && op.gone <= held.Keys
            && |op.gone| == Max(1, w.store.max / 10)
            && forall a, b :: a in op.gone && b in held.Keys - op.gone ==> held[a].expiry <= held[b].expiry
  {
    RunInv(Start(max, sweepInterval, start, tick0), calls);
    EvictsFairly(w, op, now, tick);
  }

  /** A write once the interval has passed since the last sweep leaves no expired session but what it writes. */
  lemma SweepsInTime(w: World, op: Op, now: int, tick: nat, w': World)
    requires (op.Create? || op.Save?) && Do(w, op, now, tick) == Some(w')
    requires tick >= w.store.lastSweep + w.store.sweepInterval
    ensures w'.store.lastSweep == tick
    ensures forall id :: id in w'.store.records && w'.store.records[id].expiry <= now ==>
              id == if op.Create? then op.id else op.record.id
  {
  }
}
