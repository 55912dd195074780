/** Every interleaving of strict attempts, best effort attempts, cleanup, eviction and the clock.

    A step is one critical section: a lookup or insertion under the map lock, one lock of a
    client's attempts, one `notify_waiters`, or the removal of one entry under the map lock.
    Removals are taken one entry at a time, so handles may be dropped in between; the map
    writers of the source interleave no finer than that. */
module RateLimitRuns {
  import opened Wrappers
  import opened RateLimitSpec

  type Key = nat
  type EntryId = nat
  type TaskId = nat

  /** `notified` counts the calls to `notify_waiters` so far. */
  datatype EntryState = EntryState(attempts: AttemptsView, notified: nat)

  /** `failed` is when the attempt that is about to notify failed, if it did. */
  datatype Phase =
    | Looked(e: EntryId)                                          // at the top of the strict loop
    | Armed(e: EntryId, seen: nat)                                // holds a `notified()` future
    | Asleep(e: EntryId, seen: nat, expiry: Option<Instant>)      // awaits it, or the expiry
    | Running(e: EntryId)                                         // holds a reservation
    | Notifying(e: EntryId, failed: Option<Instant>)              // unlocked, about to notify
    | BestLooked(held: Option<EntryId>)                           // looked up without inserting
    | BestRunning(held: Option<EntryId>)                          // passed the check
    | BestFailing(held: Option<EntryId>, e: EntryId)              // about to record its failure

  datatype Task = Task(key: Key, phase: Phase)

  /** `log` holds the failures of strict attempts of each client since its entry was last evicted,
      `mixed` the clients that recorded a best effort failure since then. */
  datatype World = World(
    clock: Instant,
    table: map<Key, EntryId>,
    entries: map<EntryId, EntryState>,
    tasks: map<TaskId, Task>,
    log: map<Key, seq<Instant>>,
    mixed: set<Key>)

  /** What a task does to the entry it works on. */
  datatype Move =
    | Arm                       // strict: `released.notified()`
    | Reserve(now: Instant)     // strict: `reserve`, with the `now` it read before the lock
    | Wake                      // strict: notified, or the expiry passed
    | Fail                      // strict: the lock of `Reservation::fail`
    | Release                   // strict: the lock of the drop, after a success, cancel or panic
    | Notify                    // strict: `notify_waiters`
    | Check(now: Instant)       // best effort: `check`
    | Record                    // best effort: `record_failure`

  datatype Event =
    | Tick(to: Instant)
    | Begin(t: TaskId, k: Key, spare: EntryId)    // strict: `get_or_insert`
    | Peek(t: TaskId, k: Key)                     // best effort: `get`
    | CheckAbsent(t: TaskId)                      // best effort: `check` without an entry
    | Insert(t: TaskId, spare: EntryId)           // best effort: `get_or_insert` after a failure
    | Act(t: TaskId, move: Move)
    | Leave(t: TaskId)                            // a sleeper is cancelled, a best effort run ends well
    | Forget(k: Key, now: Instant)                // removal of a stale entry
    | Evict(k: Key)                               // removal to make room

  function Opt(h: Option<EntryId>): set<EntryId> {
    match h case None => {} case Some(e) => {e}
  }

  /** The handles (`Arc<Entry>`) a task holds. */
  function Holds(p: Phase): set<EntryId> {
    match p
    case Looked(e) => {e}
    case Armed(e, _) => {e}
    case Asleep(e, _, _) => {e}
    case Running(e) => {e}
    case Notifying(e, _) => {e}
    case BestLooked(h) => Opt(h)
    case BestRunning(h) => Opt(h)
    case BestFailing(h, e) => Opt(h) + {e}
  }

  /** The entry a task works on. */
  function Subject(p: Phase): Option<EntryId> {
    match p
    case Looked(e) => Some(e)
    case Armed(e, _) => Some(e)
    case Asleep(e, _, _) => Some(e)
    case Running(e) => Some(e)
    case Notifying(e, _) => Some(e)
    case BestLooked(h) => h
    case BestRunning(h) => None
    case BestFailing(_, e) => Some(e)
  }

  /** One move of an attempt in phase `p` on its entry: its next phase (`None` once it is over)
      and the entry afterwards, or `None` when the move does not apply. */
  function Moved(c: Config, clock: Instant, p: Phase, s: EntryState, move: Move)
    : Option<(Option<Phase>, EntryState)>
  {
    match (p, move)
    case (Looked(e), Arm) => Some((Some(Armed(e, s.notified)), s))
    case (Armed(e, seen), Reserve(now)) =>
      if now > clock then None
      else
        var (a, r) := Reserving(c, s.attempts, now);
        var next := match r
                    case Refused(_) => None
                    case Wait(expiry) => Some(Asleep(e, seen, expiry))
                    case Reserved => Some(Running(e));
        Some((next, s.(attempts := a)))
    case (Asleep(e, seen, expiry), Wake) =>
      if s.notified != seen || (expiry.Some? && expiry.value <= clock)
      then Some((Some(Looked(e)), s)) else None
    case (Running(e), Fail) =>
      Some((Some(Notifying(e, Some(clock))), s.(attempts := Failed(c, s.attempts, clock))))
    case (Running(e), Release) => Some((Some(Notifying(e, None)), s.(attempts := Released(s.attempts))))
    case (Notifying(e, _), Notify) => Some((None, s.(notified := s.notified + 1)))
    case (BestLooked(Some(e)), Check(now)) =>
      if now > clock then None
      else
        var (a, refusal) := Checked(c, s.attempts, now);
        Some((if refusal.Some? then None else Some(BestRunning(Some(e))), s.(attempts := a)))
    case (BestFailing(_, e), Record) => Some((None, s.(attempts := Pushed(c, s.attempts, clock))))
    case _ => None
  }

  const Empty := AttemptsView([], 0)

  /** Whether `Arc::strong_count` is above one. */
  predicate Held(w: World, e: EntryId) {
    exists t :: t in w.tasks && e in Holds(w.tasks[t].phase)
  }

  function Log(w: World, k: Key): seq<Instant> {
    if k in w.log then w.log[k] else []
  }

  /** The attempts of a client, none without an entry. */
  function AttemptsOf(w: World, k: Key): AttemptsView {
    if k in w.table && w.table[k] in w.entries then w.entries[w.table[k]].attempts else Empty
  }

  function SetTask(w: World, t: TaskId, key: Key, next: Option<Phase>): World {
    w.(tasks := match next case None => w.tasks - {t} case Some(p) => w.tasks[t := Task(key, p)])
  }

  function SetEntry(w: World, e: EntryId, s: EntryState): World {
    w.(entries := w.entries[e := s])
  }

  /** `get_or_insert`: the entry on the map, or a new one. */
  function Enter(w: World, k: Key, spare: EntryId): World {
    if k in w.table then w
    else w.(table := w.table[k := spare], entries := w.entries[spare := EntryState(Empty, 0)])
  }

  function Remove(w: World, k: Key): World
    requires k in w.table
  {
    w.(table := w.table - {k}, entries := w.entries - {w.table[k]})
  }

  /** Keeps the records about the failures of client `k`. */
  function Noted(w: World, k: Key, move: Move): World {
    match move
    case Fail => w.(log := w.log[k := Log(w, k) + [w.clock]])
    case Record => w.(mixed := w.mixed + {k})
    case _ => w
  }

  function Acted(c: Config, w: World, t: TaskId, move: Move): Option<World> {
    if t !in w.tasks then None
    else
      var task := w.tasks[t];
      match Subject(task.phase)
      case None => None
      case Some(e) =>
        if e !in w.entries then None
        else
          match Moved(c, w.clock, task.phase, w.entries[e], move)
          case None => None
          case Some((next, s)) => Some(Noted(SetTask(SetEntry(w, e, s), t, task.key, next), task.key, move))
  }

  predicate Removable(w: World, k: Key) {
    k in w.table && w.table[k] in w.entries && !Held(w, w.table[k])
  }

  /** The world after the event, or `None` when it cannot happen. */
  function Do(c: Config, w: World, ev: Event): Option<World> {
    match ev
    case Tick(to) =>
      if w.clock <= to <= c.farthest then Some(w.(clock := to)) else None
    case Begin(t, k, spare) =>
      if t in w.tasks || spare in w.entries then None
      else
        var w1 := Enter(w, k, spare);
        Some(SetTask(w1, t, k, Some(Looked(w1.table[k]))))
    case Peek(t, k) =>
      if t in w.tasks then None
      else Some(SetTask(w, t, k, Some(BestLooked(if k in w.table then Some(w.table[k]) else None))))
    case CheckAbsent(t) =>
      if t in w.tasks && w.tasks[t].phase == BestLooked(None) then
        Some(SetTask(w, t, w.tasks[t].key, if c.maxAttempts == 0 then None else Some(BestRunning(None))))
      else None
    case Insert(t, spare) =>
      if t in w.tasks && w.tasks[t].phase.BestRunning? && spare !in w.entries then
        var Task(k, p) := w.tasks[t];
        var w1 := Enter(w, k, spare);
        Some(SetTask(w1, t, k, Some(BestFailing(p.held, w1.table[k]))))
      else None
    case Act(t, move) => Acted(c, w, t, move)
    case Leave(t) =>
      if t in w.tasks && (w.tasks[t].phase.Asleep? || w.tasks[t].phase.BestRunning?)
      then Some(SetTask(w, t, w.tasks[t].key, None)) else None
    case Forget(k, now) =>
      if Removable(w, k) && now <= w.clock && Idle(c, w.entries[w.table[k]].attempts, now)
      then Some(Remove(w, k)) else None
    case Evict(k) =>
      if Removable(w, k) && w.entries[w.table[k]].attempts.inFlight == 0
      then Some(Remove(w, k).(log := w.log - {k}, mixed := w.mixed - {k})) else None
  }

  const Start := World(0, map[], map[], map[], map[], {})

  function Run(c: Config, w: World, events: seq<Event>): Option<World> {
    if events == [] then Some(w)
    else
      match Run(c, w, events[..|events| - 1])
      case None => None
      case Some(w1) => Do(c, w1, events[|events| - 1])
  }

  // ---------------------------------------------------------- handle coherence

  predicate Owns(w: World, k: Key, e: EntryId) {
    k in w.table && w.table[k] == e
  }

  /** Every handle a task holds for its client is the entry on the map for that client. */
  ghost predicate Coherent(w: World) {
    && (forall k :: k in w.table ==> w.table[k] in w.entries)
    && (forall k, k' :: k in w.table && k' in w.table && w.table[k] == w.table[k'] ==> k == k')
    && (forall t, e :: t in w.tasks && e in Holds(w.tasks[t].phase) ==> Owns(w, w.tasks[t].key, e))
  }

  lemma TaskCoherent(w: World, t: TaskId, k: Key, next: Option<Phase>)
    requires Coherent(w)
    requires next.Some? ==> forall e :: e in Holds(next.value) ==> Owns(w, k, e)
    ensures Coherent(SetTask(w, t, k, next))
  {
    var w1 := SetTask(w, t, k, next);
    forall t', e | t' in w1.tasks && e in Holds(w1.tasks[t'].phase)
      ensures Owns(w1, w1.tasks[t'].key, e)
    {
      assert t' != t ==> Owns(w, w.tasks[t'].key, e);
    }
  }

  lemma EnterCoherent(w: World, k: Key, spare: EntryId)
    requires Coherent(w) && spare !in w.entries
    ensures Coherent(Enter(w, k, spare)) && k in Enter(w, k, spare).table
    ensures forall e :: Owns(w, k, e) ==> Owns(Enter(w, k, spare), k, e)
  {
  }

  lemma RemoveCoherent(w: World, k: Key)
    requires Coherent(w) && k in w.table && !Held(w, w.table[k])
    ensures Coherent(Remove(w, k))
  {
  }

  lemma MovedHolds(c: Config, clock: Instant, p: Phase, s: EntryState, move: Move)
    requires Moved(c, clock, p, s, move).Some?
    ensures var next := Moved(c, clock, p, s, move).value.0;
            next.Some? ==> Holds(next.value) <= Holds(p) && Subject(p).Some? && Subject(p).value in Holds(p)
  {
  }

  /** Coherence depends on the map, the entries there are and the attempts only. */
  lemma SameCoherent(w: World, w': World)
    requires Coherent(w)
    requires w'.table == w.table && w'.entries.Keys == w.entries.Keys && w'.tasks == w.tasks
    ensures Coherent(w')
  {
  }

  lemma ActCoherent(c: Config, w: World, t: TaskId, move: Move, w': World)
    requires Coherent(w) && Acted(c, w, t, move) == Some(w')
    ensures Coherent(w')
  {
    var Task(k, p) := w.tasks[t];
    var e := Subject(p).value;
    var (next, s) := Moved(c, w.clock, p, w.entries[e], move).value;
    MovedHolds(c, w.clock, p, w.entries[e], move);
    forall e' | next.Some? && e' in Holds(next.value) ensures Owns(w, k, e') {}
    TaskCoherent(w, t, k, next);
    SameCoherent(SetTask(w, t, k, next), w');
  }

  lemma InsertCoherent(c: Config, w: World, t: TaskId, spare: EntryId, w': World)
    requires Coherent(w) && Do(c, w, Insert(t, spare)) == Some(w')
    ensures Coherent(w')
  {
    var Task(k, p) := w.tasks[t];
    EnterCoherent(w, k, spare);
    forall e | e in Opt(p.held) ensures Owns(w, k, e) {}
    TaskCoherent(Enter(w, k, spare), t, k, Some(w'.tasks[t].phase));
  }

  lemma StepKeepsCoherent(c: Config, w: World, ev: Event, w': World)
    requires Coherent(w) && Do(c, w, ev) == Some(w')
    ensures Coherent(w')
  {
    match ev
    case Tick(_) => SameCoherent(w, w');
    case Begin(t, k, spare) =>
      EnterCoherent(w, k, spare);
      TaskCoherent(Enter(w, k, spare), t, k, Some(w'.tasks[t].phase));
    case Peek(t, k) => TaskCoherent(w, t, k, Some(w'.tasks[t].phase));
    case CheckAbsent(t) =>
      TaskCoherent(w, t, w.tasks[t].key, if c.maxAttempts == 0 then None else Some(BestRunning(None)));
    case Insert(t, spare) => InsertCoherent(c, w, t, spare, w');
    case Act(t, move) => ActCoherent(c, w, t, move, w');
    case Leave(t) => TaskCoherent(w, t, w.tasks[t].key, None);
    case Forget(k, _) => RemoveCoherent(w, k);
    case Evict(k) =>
      RemoveCoherent(w, k);
      SameCoherent(Remove(w, k), w');
  }
}
