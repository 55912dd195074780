/** What every run of the limiter keeps: conservation of reservations, the strict budget, and no
    lost wake-up. */
module RateLimitSafety {
  import opened Wrappers
  import opened RateLimitSpec
  import opened RateLimitRuns

  // ---------------------------------------------- one client's attempts and log

  /** How many failures were recorded in the interval of length `window` from `lo`. */
  function CountFrom(log: seq<Instant>, lo: Instant, window: nat): nat {
    if log == [] then 0
    else
      var last := log[|log| - 1];
      CountFrom(log[..|log| - 1], lo, window) + (if lo <= last < lo + window then 1 else 0)
  }

  /** No interval as long as the window holds more failures than the budget. */
  ghost predicate Spread(c: Config, log: seq<Instant>) {
    forall lo: Instant :: CountFrom(log, lo, c.window) <= c.maxAttempts
  }

  /** From `clock` on, at least as many of `failures` are in the window as of `log`. */
  ghost predicate Covers(c: Config, clock: Instant, failures: seq<Instant>, log: seq<Instant>) {
    forall t: Instant :: clock <= t ==> |Pruned(log, t, c.window)| <= |Pruned(failures, t, c.window)|
  }

  ghost predicate Fine(c: Config, clock: Instant, a: AttemptsView, log: seq<Instant>, mixed: bool) {
    && Ordered(a.failures) && NoneAfter(a.failures, clock)
    && Ordered(log) && NoneAfter(log, clock)
    && Covers(c, clock, a.failures, log)
    && |Pruned(log, clock, c.window)| + a.inFlight <= c.maxAttempts
    && Spread(c, log)
    && (!mixed ==> Covers(c, clock, log, a.failures))
  }

  lemma CountAppend(log: seq<Instant>, x: Instant, lo: Instant, window: nat)
    ensures CountFrom(log + [x], lo, window) ==
            CountFrom(log, lo, window) + (if lo <= x < lo + window then 1 else 0)
  {
  }

  /** What an interval ending after `x` holds up to `x` is still in the window at `x`. */
  lemma {:induction false} CountWithinWindow(log: seq<Instant>, x: Instant, lo: Instant, window: nat)
    requires NoneAfter(log, x) && lo <= x < lo + window
    ensures CountFrom(log, lo, window) <= |Pruned(log, x, window)|
  {
    if log != [] {
      CountWithinWindow(log[..|log| - 1], x, lo, window);
    }
  }

  lemma SpreadAppend(c: Config, log: seq<Instant>, x: Instant)
    requires Spread(c, log) && NoneAfter(log, x)
    requires |Pruned(log + [x], x, c.window)| <= c.maxAttempts
    ensures Spread(c, log + [x])
  {
    forall lo: Instant ensures CountFrom(log + [x], lo, c.window) <= c.maxAttempts {
      CountAppend(log, x, lo, c.window);
      if lo <= x < lo + c.window {
        CountWithinWindow(log + [x], x, lo, c.window);
      }
    }
  }

  lemma TickFine(c: Config, clock: Instant, later: Instant, a: AttemptsView, log: seq<Instant>, mixed: bool)
    requires Fine(c, clock, a, log, mixed) && clock <= later
    ensures Fine(c, later, a, log, mixed)
  {
    PrunedShrinks(log, clock, later, c.window);
  }

  /** Pruning at a `now` read before does not change what is in the window from `clock` on. */
  lemma PruneFine(c: Config, clock: Instant, a: AttemptsView, log: seq<Instant>, mixed: bool, now: Instant)
    requires Fine(c, clock, a, log, mixed) && now <= clock
    ensures Fine(c, clock, a.(failures := Pruned(a.failures, now, c.window)), log, mixed)
  {
    PrunedKeepsOrder(a.failures, now, clock, c.window);
    forall t: Instant | clock <= t
      ensures |Pruned(Pruned(a.failures, now, c.window), t, c.window)| == |Pruned(a.failures, t, c.window)|
    {
      PrunedTwice(a.failures, now, t, c.window);
    }
  }

  /** A reservation made with a `now` that may be old still fits the budget at `clock`. */
  lemma ReserveFine(c: Config, clock: Instant, a: AttemptsView, log: seq<Instant>, mixed: bool, now: Instant)
    requires Fine(c, clock, a, log, mixed) && now <= clock
    ensures Fine(c, clock, Reserving(c, a, now).0, log, mixed)
  {
    PruneFine(c, clock, a, log, mixed, now);
    PrunedShrinks(a.failures, now, clock, c.window);
    assert |Pruned(log, clock, c.window)| <= |Pruned(a.failures, clock, c.window)|;
  }

  lemma OrderedMore(f: seq<Instant>, x: Instant)
    requires Ordered(f) && NoneAfter(f, x)
    ensures Ordered(f + [x]) && NoneAfter(f + [x], x)
  {
  }

  lemma PushCovers(c: Config, clock: Instant, f: seq<Instant>, g: seq<Instant>, both: bool)
    requires Covers(c, clock, f, g)
    ensures Covers(c, clock, f + [clock], if both then g + [clock] else g)
  {
  }

  lemma PushFine(c: Config, clock: Instant, a: AttemptsView, log: seq<Instant>, mixed: bool)
    requires Fine(c, clock, a, log, mixed)
    ensures Fine(c, clock, Pushed(c, a, clock), log, true)
  {
    PruneFine(c, clock, a, log, mixed, clock);
    PushCovers(c, clock, Pruned(a.failures, clock, c.window), log, false);
  }

  /** The budget passes from the reservation to the failure. */
  lemma FailFine(c: Config, clock: Instant, a: AttemptsView, log: seq<Instant>, mixed: bool)
    requires Fine(c, clock, a, log, mixed) && a.inFlight > 0
    ensures Fine(c, clock, Failed(c, a, clock), log + [clock], mixed)
  {
    PruneFine(c, clock, a, log, mixed, clock);
    var kept := Pruned(a.failures, clock, c.window);
    assert Failed(c, a, clock) == AttemptsView(kept + [clock], a.inFlight - 1);
    OrderedMore(kept, clock);
    OrderedMore(log, clock);
    PushCovers(c, clock, kept, log, true);
    if !mixed {
      PushCovers(c, clock, log, kept, true);
    }
    PrunedAppend(log, clock, clock, c.window);
    SpreadAppend(c, log, clock);
  }

  /** Forgetting an idle client loses nothing: none of its failures is in the window any more. */
  lemma ForgetFine(c: Config, clock: Instant, a: AttemptsView, log: seq<Instant>, mixed: bool, now: Instant)
    requires Fine(c, clock, a, log, mixed) && now <= clock && Idle(c, a, now)
    ensures Fine(c, clock, Empty, log, mixed)
  {
    forall t: Instant | clock <= t ensures Pruned(a.failures, t, c.window) == [] {
      IdleHasNoneLive(c, a, now, t);
    }
  }

  // ------------------------------------------------------------- one sleeper

  /** The last instant at which a sleeper with this expiry goes on sleeping. */
  function Until(c: Config, expiry: Option<Instant>): Instant {
    match expiry
    case None => c.farthest
    case Some(at) => if at == 0 then 0 else at - 1
  }

  /** Until its expiry the failures in the window and the reservations use up the budget, and
      some reservation is out. */
  ghost predicate Blocked(c: Config, clock: Instant, a: AttemptsView, expiry: Option<Instant>) {
    && a.inFlight > 0
    && (clock <= Until(c, expiry) ==>
          |Pruned(a.failures, Until(c, expiry), c.window)| + a.inFlight >= c.maxAttempts)
  }

  lemma WaitBlocks(c: Config, clock: Instant, a: AttemptsView, now: Instant)
    requires Ordered(a.failures) && NoneAfter(a.failures, clock) && now <= clock <= c.farthest
    requires Reserving(c, a, now).1.Wait?
    ensures Blocked(c, clock, Reserving(c, a, now).0, Reserving(c, a, now).1.expiry)
  {
    var kept := Pruned(a.failures, now, c.window);
    var until := Until(c, Expiry(c, kept));
    PrunedKeepsOrder(a.failures, now, clock, c.window);
    if kept != [] {
      assert Live(kept[0], now, c.window);
      forall i | 0 <= i < |kept| ensures Live(kept[i], until, c.window) {
        assert kept[0] <= kept[i];
      }
    }
    PrunedAll(kept, until, c.window);
  }

  lemma PruneBlocked(c: Config, clock: Instant, a: AttemptsView, now: Instant, expiry: Option<Instant>)
    requires Blocked(c, clock, a, expiry) && now <= clock
    ensures Blocked(c, clock, a.(failures := Pruned(a.failures, now, c.window)), expiry)
  {
    if clock <= Until(c, expiry) {
      PrunedTwice(a.failures, now, Until(c, expiry), c.window);
    }
  }

  lemma PushBlocked(c: Config, clock: Instant, a: AttemptsView, expiry: Option<Instant>)
    requires Blocked(c, clock, a, expiry)
    ensures Blocked(c, clock, Pushed(c, a, clock), expiry)
  {
    PruneBlocked(c, clock, a, clock, expiry);
    PrunedAppend(Pruned(a.failures, clock, c.window), clock, Until(c, expiry), c.window);
  }

  /** A move that gives no reservation back leaves a sleeper blocked. */
  lemma MoveBlocked(c: Config, clock: Instant, p: Phase, s: EntryState, move: Move, expiry: Option<Instant>)
    requires Moved(c, clock, p, s, move).Some? && !move.Fail? && !move.Release?
    requires Blocked(c, clock, s.attempts, expiry)
    ensures Blocked(c, clock, Moved(c, clock, p, s, move).value.1.attempts, expiry)
  {
    match move
    case Reserve(now) => PruneBlocked(c, clock, s.attempts, now, expiry);
    case Check(now) => PruneBlocked(c, clock, s.attempts, now, expiry);
    case Record => PushBlocked(c, clock, s.attempts, expiry);
    case _ =>
  }

  lemma MoveFine(c: Config, clock: Instant, p: Phase, s: EntryState, move: Move,
                 log: seq<Instant>, mixed: bool)
    requires Moved(c, clock, p, s, move).Some? && (move.Fail? ==> s.attempts.inFlight > 0)
    requires Fine(c, clock, s.attempts, log, mixed)
    ensures Fine(c, clock, Moved(c, clock, p, s, move).value.1.attempts,
                 if move.Fail? then log + [clock] else log, mixed || move.Record?)
  {
    match move
    case Reserve(now) => ReserveFine(c, clock, s.attempts, log, mixed, now);
    case Check(now) => PruneFine(c, clock, s.attempts, log, mixed, now);
    case Record => PushFine(c, clock, s.attempts, log, mixed);
    case Fail => FailFine(c, clock, s.attempts, log, mixed);
    case _ =>
  }

  // ---------------------------------------------------------------- the world

  function Runners(tasks: map<TaskId, Task>, e: EntryId): set<TaskId> {
    set t | t in tasks && tasks[t].phase == Running(e)
  }

  /** `in_flight` is the number of reservations alive. */
  ghost predicate Conserved(w: World) {
    forall k :: k in w.table && w.table[k] in w.entries ==>
      w.entries[w.table[k]].attempts.inFlight == |Runners(w.tasks, w.table[k])|
  }

  ghost predicate Within(c: Config, w: World) {
    forall k :: FineAt(c, w, k)
  }

  predicate IsNotifying(p: Phase, e: EntryId) {
    p.Notifying? && p.e == e
  }

  /** Some task gave a reservation back and is about to notify. */
  predicate NotifyPending(w: World, e: EntryId) {
    exists t :: t in w.tasks && IsNotifying(w.tasks[t].phase, e)
  }

  ghost predicate SleepsWell(c: Config, w: World, p: Phase) {
    match p
    case Armed(e, seen) => e in w.entries && seen <= w.entries[e].notified
    case Asleep(e, seen, expiry) =>
      && e in w.entries && seen <= w.entries[e].notified
      && (seen == w.entries[e].notified && !NotifyPending(w, e) ==>
            Blocked(c, w.clock, w.entries[e].attempts, expiry))
    case _ => true
  }

  ghost predicate Awake(c: Config, w: World) {
    forall t :: t in w.tasks ==> SleepsWell(c, w, w.tasks[t].phase)
  }

  ghost predicate Inv(c: Config, w: World) {
    Coherent(w) && w.clock <= c.farthest && Conserved(w) && Within(c, w) && Awake(c, w)
  }

  // ------------------------------------------------------ conservation, by step

  lemma RunnersOfTask(w: World, t: TaskId, k: Key, next: Option<Phase>, e: EntryId)
    requires t in w.tasks ==> w.tasks[t].phase != Running(e)
    ensures |Runners(SetTask(w, t, k, next).tasks, e)| ==
            |Runners(w.tasks, e)| + (if next == Some(Running(e)) then 1 else 0)
  {
    var after := Runners(SetTask(w, t, k, next).tasks, e);
    if next == Some(Running(e)) {
      assert after == Runners(w.tasks, e) + {t};
    } else {
      assert after == Runners(w.tasks, e);
    }
  }

  lemma RunnersWithout(w: World, t: TaskId, k: Key, next: Option<Phase>, e: EntryId)
    requires t in w.tasks && w.tasks[t].phase == Running(e) && next != Some(Running(e))
    ensures |Runners(SetTask(w, t, k, next).tasks, e)| + 1 == |Runners(w.tasks, e)|
  {
    assert Runners(w.tasks, e) == Runners(SetTask(w, t, k, next).tasks, e) + {t};
  }

  /** A move changes `in_flight` exactly as it takes or gives back the attempt's reservation. */
  lemma MovedReservation(c: Config, clock: Instant, p: Phase, s: EntryState, move: Move)
    requires Moved(c, clock, p, s, move).Some? && (p.Running? ==> s.attempts.inFlight > 0)
    ensures var (next, s') := Moved(c, clock, p, s, move).value;
            var e := Subject(p).value;
            && Subject(p).Some?
            && (next.Some? && next.value.Running? ==> next.value.e == e)
            && s'.attempts.inFlight == s.attempts.inFlight
               - (if p == Running(e) then 1 else 0) + (if next == Some(Running(e)) then 1 else 0)
            && !(p == Running(e) && next == Some(Running(e)))
            && s.notified <= s'.notified
  {
  }

  lemma RunnerCounts(w: World, t: TaskId, e: EntryId)
    requires Coherent(w) && Conserved(w) && t in w.tasks && w.tasks[t].phase == Running(e)
    ensures e in w.entries && w.entries[e].attempts.inFlight > 0
  {
    assert e in Holds(w.tasks[t].phase);
    assert Owns(w, w.tasks[t].key, e);
    assert t in Runners(w.tasks, e);
  }

  lemma ActConserved(c: Config, w: World, t: TaskId, move: Move, w': World)
    requires Coherent(w) && Conserved(w) && Acted(c, w, t, move) == Some(w')
    ensures Conserved(w')
  {
    var Task(key, p) := w.tasks[t];
    var e := Subject(p).value;
    if p.Running? { RunnerCounts(w, t, e); }
    var (next, s) := Moved(c, w.clock, p, w.entries[e], move).value;
    MovedReservation(c, w.clock, p, w.entries[e], move);
    forall k | k in w'.table && w'.table[k] in w'.entries
      ensures w'.entries[w'.table[k]].attempts.inFlight == |Runners(w'.tasks, w'.table[k])|
    {
      var e' := w.table[k];
      assert w'.tasks == SetTask(w, t, key, next).tasks;
      if p == Running(e') {
        RunnersWithout(w, t, key, next, e');
      } else {
        RunnersOfTask(w, t, key, next, e');
      }
    }
  }

  lemma EnterConserved(w: World, k: Key, spare: EntryId)
    requires Coherent(w) && Conserved(w) && spare !in w.entries
    ensures Conserved(Enter(w, k, spare))
  {
    forall t | t in w.tasks ensures w.tasks[t].phase != Running(spare) {
      if w.tasks[t].phase == Running(spare) { RunnerCounts(w, t, spare); }
    }
    assert Runners(w.tasks, spare) == {};
  }

  /** Adding, ending or changing a task that neither had nor gets a reservation. */
  lemma TaskConserved(w: World, t: TaskId, k: Key, next: Option<Phase>)
    requires Conserved(w) && !(t in w.tasks && w.tasks[t].phase.Running?)
    requires !(next.Some? && next.value.Running?)
    ensures Conserved(SetTask(w, t, k, next))
  {
    forall k' | k' in w.table && w.table[k'] in w.entries
      ensures |Runners(SetTask(w, t, k, next).tasks, w.table[k'])| == |Runners(w.tasks, w.table[k'])|
    {
      RunnersOfTask(w, t, k, next, w.table[k']);
    }
  }

  lemma StepConserved(c: Config, w: World, ev: Event, w': World)
    requires Coherent(w) && Conserved(w) && Do(c, w, ev) == Some(w')
    ensures Conserved(w')
  {
    match ev
    case Begin(t, k, spare) =>
      EnterConserved(w, k, spare);
      TaskConserved(Enter(w, k, spare), t, k, Some(w'.tasks[t].phase));
    case Peek(t, k) => TaskConserved(w, t, k, Some(w'.tasks[t].phase));
    case CheckAbsent(t) =>
      TaskConserved(w, t, w.tasks[t].key, if c.maxAttempts == 0 then None else Some(BestRunning(None)));
    case Insert(t, spare) =>
      EnterConserved(w, w.tasks[t].key, spare);
      TaskConserved(Enter(w, w.tasks[t].key, spare), t, w.tasks[t].key, Some(w'.tasks[t].phase));
    case Act(t, move) => ActConserved(c, w, t, move, w');
    case Leave(t) => TaskConserved(w, t, w.tasks[t].key, None);
    case _ =>
  }

  // ------------------------------------------------------------ budget, by step

  /** A move touches the attempts and the records of its own client only. */
  lemma ActFrame(c: Config, w: World, t: TaskId, move: Move, w': World, k: Key)
    requires Coherent(w) && Acted(c, w, t, move) == Some(w')
    ensures w'.clock == w.clock
    ensures var Task(key, p) := w.tasks[t];
            if k != key then AttemptsOf(w', k) == AttemptsOf(w, k) && Log(w', k) == Log(w, k)
                             && (k in w'.mixed <==> k in w.mixed)
            else
              && Subject(p).Some? && Owns(w, k, Subject(p).value) && Subject(p).value in w.entries
              && AttemptsOf(w, k) == w.entries[Subject(p).value].attempts
              && Moved(c, w.clock, p, w.entries[Subject(p).value], move).Some?
              && AttemptsOf(w', k) ==
                   Moved(c, w.clock, p, w.entries[Subject(p).value], move).value.1.attempts
              && Log(w', k) == (if move.Fail? then Log(w, k) + [w.clock] else Log(w, k))
              && (k in w'.mixed <==> k in w.mixed || move.Record?)
  {
    var Task(key, p) := w.tasks[t];
    var e := Subject(p).value;
    MovedHolds(c, w.clock, p, w.entries[e], move);
    assert e in Holds(p);
    assert Owns(w, key, e);
  }

  ghost predicate FineAt(c: Config, w: World, k: Key) {
    Fine(c, w.clock, AttemptsOf(w, k), Log(w, k), k in w.mixed)
  }

  lemma ActFineAt(c: Config, w: World, t: TaskId, move: Move, w': World, k: Key)
    requires Coherent(w) && Conserved(w) && Acted(c, w, t, move) == Some(w')
    requires FineAt(c, w, k)
    ensures FineAt(c, w', k)
  {
    ActFrame(c, w, t, move, w', k);
    var Task(key, p) := w.tasks[t];
    if k == key {
      if p.Running? { RunnerCounts(w, t, p.e); }
      MoveFine(c, w.clock, p, w.entries[Subject(p).value], move, Log(w, k), k in w.mixed);
    }
  }

  lemma OtherFrame(c: Config, w: World, ev: Event, w': World, k: Key)
    requires Coherent(w) && Do(c, w, ev) == Some(w') && !ev.Act?
    ensures !(ev.Evict? && ev.k == k) ==> Log(w', k) == Log(w, k) && (k in w'.mixed <==> k in w.mixed)
    ensures w'.clock == if ev.Tick? then ev.to else w.clock
    ensures AttemptsOf(w', k) == if (ev.Forget? || ev.Evict?) && ev.k == k then Empty else AttemptsOf(w, k)
    ensures ev.Forget? && ev.k == k ==> ev.now <= w.clock && Idle(c, AttemptsOf(w, k), ev.now)
    ensures ev.Evict? && ev.k == k ==> Log(w', k) == [] && k !in w'.mixed
  {
  }

  lemma StepFineAt(c: Config, w: World, ev: Event, w': World, k: Key)
    requires Coherent(w) && Conserved(w) && Do(c, w, ev) == Some(w')
    requires FineAt(c, w, k)
    ensures FineAt(c, w', k)
  {
    if ev.Act? {
      ActFineAt(c, w, ev.t, ev.move, w', k);
    } else {
      OtherFrame(c, w, ev, w', k);
      if ev.Tick? {
        TickFine(c, w.clock, ev.to, AttemptsOf(w, k), Log(w, k), k in w.mixed);
      } else if ev.Forget? && ev.k == k {
        ForgetFine(c, w.clock, AttemptsOf(w, k), Log(w, k), k in w.mixed, ev.now);
      }
    }
  }

  lemma StepWithin(c: Config, w: World, ev: Event, w': World)
    requires Coherent(w) && Conserved(w) && Within(c, w) && Do(c, w, ev) == Some(w')
    ensures Within(c, w')
  {
    forall k ensures FineAt(c, w', k) { StepFineAt(c, w, ev, w', k); }
  }

  // ---------------------------------------------------------- wake-ups, by step

  /** A pending notification is only ever resolved by notifying. */
  lemma PendingStays(c: Config, w: World, ev: Event, w': World, e: EntryId)
    requires Do(c, w, ev) == Some(w') && NotifyPending(w, e)
    ensures NotifyPending(w', e) ||
            (ev.Act? && ev.move == Notify && ev.t in w.tasks && IsNotifying(w.tasks[ev.t].phase, e))
  {
    var n :| n in w.tasks && IsNotifying(w.tasks[n].phase, e);
    assert (n in w'.tasks && w'.tasks[n] == w.tasks[n]) || (ev.Act? && ev.t == n);
  }

  /** What a move of task `t` means for the entry a sleeper `e` waits on. */
  lemma ActOnEntry(c: Config, w: World, t: TaskId, move: Move, w': World, e: EntryId)
    requires Acted(c, w, t, move) == Some(w') && e in w.entries
    ensures e in w'.entries && w'.clock == w.clock
    ensures w.entries[e].notified <= w'.entries[e].notified
    ensures Subject(w.tasks[t].phase) != Some(e) ==> w'.entries[e] == w.entries[e]
    ensures Subject(w.tasks[t].phase) == Some(e) ==>
              && Moved(c, w.clock, w.tasks[t].phase, w.entries[e], move).Some?
              && w'.entries[e] == Moved(c, w.clock, w.tasks[t].phase, w.entries[e], move).value.1
              && (move.Notify? ==> w.entries[e].notified < w'.entries[e].notified)
              && (move.Fail? || move.Release? ==> NotifyPending(w', e))
  {
    if Subject(w.tasks[t].phase) == Some(e) && (move.Fail? || move.Release?) {
      assert t in w'.tasks && IsNotifying(w'.tasks[t].phase, e);
    }
  }

  /** A sleeper stays well through what the other tasks do. */
  lemma ActSleeper(c: Config, w: World, t: TaskId, move: Move, w': World, p: Phase)
    requires Acted(c, w, t, move) == Some(w') && SleepsWell(c, w, p)
    ensures SleepsWell(c, w', p)
  {
    match p
    case Armed(e, seen) => ActOnEntry(c, w, t, move, w', e);
    case Asleep(e, seen, expiry) =>
      ActOnEntry(c, w, t, move, w', e);
      if seen == w'.entries[e].notified && !NotifyPending(w', e) {
        if NotifyPending(w, e) { PendingStays(c, w, Act(t, move), w', e); }
        if Subject(w.tasks[t].phase) == Some(e) {
          MoveBlocked(c, w.clock, w.tasks[t].phase, w.entries[e], move, expiry);
        }
      }
    case _ =>
  }

  /** The attempt that moves goes to sleep only when it is blocked. */
  lemma ActSelf(c: Config, w: World, t: TaskId, move: Move, w': World)
    requires Coherent(w) && Within(c, w) && w.clock <= c.farthest
    requires Acted(c, w, t, move) == Some(w') && SleepsWell(c, w, w.tasks[t].phase)
    ensures t in w'.tasks ==> SleepsWell(c, w', w'.tasks[t].phase)
  {
    var Task(key, p) := w.tasks[t];
    if p.Armed? && move.Reserve? {
      assert p.e in Holds(p);
      assert Owns(w, key, p.e);
      assert FineAt(c, w, key);
      if Reserving(c, w.entries[p.e].attempts, move.now).1.Wait? {
        WaitBlocks(c, w.clock, w.entries[p.e].attempts, move.now);
      }
    }
  }

  lemma OtherSleeper(c: Config, w: World, ev: Event, w': World, t: TaskId)
    requires Coherent(w) && Do(c, w, ev) == Some(w') && !ev.Act?
    requires t in w.tasks ==> SleepsWell(c, w, w.tasks[t].phase)
    ensures t in w'.tasks ==> SleepsWell(c, w', w'.tasks[t].phase)
  {
    if t in w'.tasks && (w'.tasks[t].phase.Armed? || w'.tasks[t].phase.Asleep?) {
      var p := w'.tasks[t].phase;
      assert t in w.tasks && w.tasks[t].phase == p;
      assert p.e in Holds(p);
      if ev.Forget? || ev.Evict? { assert Held(w, p.e); }
      assert w'.entries[p.e] == w.entries[p.e];
      if NotifyPending(w, p.e) { PendingStays(c, w, ev, w', p.e); }
    }
  }

  lemma StepAwake(c: Config, w: World, ev: Event, w': World)
    requires Inv(c, w) && Do(c, w, ev) == Some(w')
    ensures Awake(c, w')
  {
    forall t | t in w'.tasks ensures SleepsWell(c, w', w'.tasks[t].phase) {
      if !ev.Act? {
        OtherSleeper(c, w, ev, w', t);
      } else if ev.t == t {
        ActSelf(c, w, t, ev.move, w');
      } else {
        assert t in w.tasks && w'.tasks[t] == w.tasks[t];
        ActSleeper(c, w, ev.t, ev.move, w', w.tasks[t].phase);
      }
    }
  }

  // ------------------------------------------------------------- over all runs

  lemma StartInv(c: Config)
    ensures Inv(c, Start)
  {
    forall k ensures FineAt(c, Start, k) {
      assert forall lo: Instant :: CountFrom([], lo, c.window) == 0;
    }
  }

  lemma StepInv(c: Config, w: World, ev: Event, w': World)
    requires Inv(c, w) && Do(c, w, ev) == Some(w')
    ensures Inv(c, w')
  {
    StepKeepsCoherent(c, w, ev, w');
    StepConserved(c, w, ev, w');
    StepWithin(c, w, ev, w');
    StepAwake(c, w, ev, w');
    assert w'.clock <= c.farthest by {
      if ev.Act? { ActFrame(c, w, ev.t, ev.move, w', 0); } else { OtherFrame(c, w, ev, w', 0); }
    }
  }

  lemma {:induction false} RunInv(c: Config, events: seq<Event>, w: World)
    requires Run(c, Start, events) == Some(w)
    ensures Inv(c, w)
  {
    if events == [] {
      StartInv(c);
    } else {
      var w1 := Run(c, Start, events[..|events| - 1]).value;
      RunInv(c, events[..|events| - 1], w1);
      StepInv(c, w1, events[|events| - 1], w);
    }
  }

  /** In every run, with strict and best effort attempts, cleanup and re-insertion mixed: the
      strict failures in the window plus the reservations out stay within the budget, and no
      interval as long as the window holds more strict failures than the budget, counting from
      the client's last eviction. Without best effort failures, that holds of all failures. */
  lemma BudgetIsNeverExceeded(c: Config, events: seq<Event>, w: World, k: Key)
    requires Run(c, Start, events) == Some(w)
    ensures |Pruned(Log(w, k), w.clock, c.window)| + AttemptsOf(w, k).inFlight <= c.maxAttempts
    ensures forall lo: Instant :: CountFrom(Log(w, k), lo, c.window) <= c.maxAttempts
    ensures k !in w.mixed ==>
              |Pruned(AttemptsOf(w, k).failures, w.clock, c.window)| + AttemptsOf(w, k).inFlight
              <= c.maxAttempts
  {
    RunInv(c, events, w);
    assert FineAt(c, w, k);
  }

  /** In every run `in_flight` is the number of reservations alive, and the failures are in order
      and none is later than the clock. */
  lemma ReservationsAreConserved(c: Config, events: seq<Event>, w: World, k: Key)
    requires Run(c, Start, events) == Some(w) && k in w.table
    ensures AttemptsOf(w, k).inFlight == |set t | t in w.tasks && w.tasks[t].phase == Running(w.table[k])|
    ensures Ordered(AttemptsOf(w, k).failures) && NoneAfter(AttemptsOf(w, k).failures, w.clock)
  {
    RunInv(c, events, w);
    assert FineAt(c, w, k);
    assert Runners(w.tasks, w.table[k]) ==
           set t | t in w.tasks && w.tasks[t].phase == Running(w.table[k]);
  }

  /** In every run, every handle a task holds is the entry on the map for its client. */
  lemma HandlesAreCoherent(c: Config, events: seq<Event>, w: World, t: TaskId, e: EntryId)
    requires Run(c, Start, events) == Some(w) && t in w.tasks && e in Holds(w.tasks[t].phase)
    ensures Owns(w, w.tasks[t].key, e) && e in w.entries
    ensures forall k :: Owns(w, k, e) ==> k == w.tasks[t].key
  {
    RunInv(c, events, w);
    assert Owns(w, w.tasks[t].key, e);
  }

  /** So a failure, strict or best effort, is recorded on the entry on the map. */
  lemma NoFailureIsLost(c: Config, events: seq<Event>, w: World, t: TaskId, move: Move, w': World)
    requires Run(c, Start, events) == Some(w)
    requires Do(c, w, Act(t, move)) == Some(w') && (move.Fail? || move.Record?)
    ensures var k := w.tasks[t].key;
            k in w'.table && w'.table[k] in w'.entries &&
            AttemptsOf(w', k).failures ==
              Pruned(AttemptsOf(w, k).failures, w.clock, c.window) + [w.clock]
  {
    RunInv(c, events, w);
    StepKeepsCoherent(c, w, Act(t, move), w');
    ActFrame(c, w, t, move, w', w.tasks[t].key);
  }

  predicate Expired(w: World, expiry: Option<Instant>) {
    expiry.Some? && expiry.value <= w.clock
  }

  /** No lost wake-up: while a strict attempt sleeps, was not notified since it created its
      `notified()` future, and its expiry has not passed, either a task that freed an attempt is
      about to notify, or no attempt of the client can reserve and some attempt is in flight,
      whose end will notify. A notification about to be sent does not mean that an attempt can
      reserve: after a failure it may find that none can. */
  lemma NoLostWakeUp(c: Config, events: seq<Event>, w: World, t: TaskId, now: Instant)
    requires Run(c, Start, events) == Some(w)
    requires t in w.tasks && w.tasks[t].phase.Asleep? && w.tasks[t].phase.e in w.entries
    requires w.tasks[t].phase.seen == w.entries[w.tasks[t].phase.e].notified
    requires !Expired(w, w.tasks[t].phase.expiry) && now <= w.clock
    ensures var e := w.tasks[t].phase.e;
            || NotifyPending(w, e)
            || (&& !Reserving(c, w.entries[e].attempts, now).1.Reserved?
                && exists r :: r in w.tasks && w.tasks[r].phase == Running(e))
  {
    RunInv(c, events, w);
    var Asleep(e, seen, expiry) := w.tasks[t].phase;
    if !NotifyPending(w, e) {
      assert SleepsWell(c, w, w.tasks[t].phase);
      var a := w.entries[e].attempts;
      PrunedShrinks(a.failures, now, Until(c, expiry), c.window);
      assert e in Holds(w.tasks[t].phase);
      assert Owns(w, w.tasks[t].key, e);
      assert |Runners(w.tasks, e)| > 0;
      var r :| r in Runners(w.tasks, e);
    }
  }

  const One := Config(1, 10, 1, 1000)

  /** A first attempt of client 5 takes the only reservation there is. */
  lemma FirstReserves() returns (events: seq<Event>, w: World)
    ensures Run(One, Start, events) == Some(w) && w.tasks.Keys == {1} && w.tasks[1] == Task(5, Running(7))
    ensures w.table == map[5 := 7] && w.entries.Keys == {7}
    ensures w.entries[7] == EntryState(AttemptsView([], 1), 0) && w.clock == 0
  {
    var w1 := Do(One, Start, Begin(1, 5, 7)).value;
    RunStep(One, [], Begin(1, 5, 7), Start, w1);
    assert w1.tasks[1] == Task(5, Looked(7)) && w1.entries[7] == EntryState(Empty, 0);
    var w2 := Do(One, w1, Act(1, Arm)).value;
    RunStep(One, [] + [Begin(1, 5, 7)], Act(1, Arm), w1, w2);
    assert w2.tasks[1] == Task(5, Armed(7, 0)) && w2.entries[7] == EntryState(Empty, 0);
    w := Do(One, w2, Act(1, Reserve(0))).value;
    events := [] + [Begin(1, 5, 7)] + [Act(1, Arm)] + [Act(1, Reserve(0))];
    RunStep(One, [] + [Begin(1, 5, 7)] + [Act(1, Arm)], Act(1, Reserve(0)), w2, w);
  }

  /** A second attempt finds it taken and goes to sleep. */
  lemma SecondSleeps() returns (events: seq<Event>, w: World)
    ensures Run(One, Start, events) == Some(w) && w.tasks.Keys == {1, 2} && w.tasks[1] == Task(5, Running(7))
    ensures w.tasks[2] == Task(5, Asleep(7, 0, None)) && w.entries.Keys == {7}
    ensures w.entries[7] == EntryState(AttemptsView([], 1), 0) && w.clock == 0
  {
    var e3, w3 := FirstReserves();
    var w4 := Do(One, w3, Begin(2, 5, 8)).value;
    RunStep(One, e3, Begin(2, 5, 8), w3, w4);
    assert w4.tasks[2] == Task(5, Looked(7));
    var w5 := Do(One, w4, Act(2, Arm)).value;
    RunStep(One, e3 + [Begin(2, 5, 8)], Act(2, Arm), w4, w5);
    assert w5.tasks[2] == Task(5, Armed(7, 0)) && w5.entries[7] == w3.entries[7];
    w := Do(One, w5, Act(2, Reserve(0))).value;
    events := e3 + [Begin(2, 5, 8)] + [Act(2, Arm)] + [Act(2, Reserve(0))];
    RunStep(One, e3 + [Begin(2, 5, 8)] + [Act(2, Arm)], Act(2, Reserve(0)), w5, w);
  }

  /** The gap is real: between giving the reservation back and notifying, a sleeper that was not
      notified yet could reserve. */
  lemma GapBeforeNotify()
    ensures exists events, w ::
              && Run(One, Start, events) == Some(w)
              && 2 in w.tasks && w.tasks[2].phase == Asleep(7, 0, None) && 7 in w.entries
              && w.entries[7].notified == 0
              && Reserving(One, w.entries[7].attempts, w.clock).1 == Reserved
              && NotifyPending(w, 7)
  {
    var e6, w6 := SecondSleeps();
    var w7 := Do(One, w6, Act(1, Release)).value;
    RunStep(One, e6, Act(1, Release), w6, w7);
    assert w7.tasks[2] == w6.tasks[2] && w7.tasks[1].phase == Notifying(7, None);
    assert w7.entries[7] == EntryState(Empty, 0);
    assert NotifyPending(w7, 7);
  }

  /** A best effort attempt looks up the entry at 5, before the strict one in flight fails at 7. */
  lemma LooksBeforeFailure() returns (events: seq<Event>, w: World)
    ensures Run(One, Start, events) == Some(w) && w.clock == 7 && w.tasks.Keys == {1, 2}
    ensures w.tasks[1] == Task(5, Running(7)) && w.tasks[2] == Task(5, BestLooked(Some(7)))
    ensures w.entries.Keys == {7} && w.entries[7] == EntryState(AttemptsView([], 1), 0)
  {
    var e3, w3 := FirstReserves();
    var w4 := Do(One, w3, Tick(5)).value;
    RunStep(One, e3, Tick(5), w3, w4);
    var w5 := Do(One, w4, Peek(2, 5)).value;
    RunStep(One, e3 + [Tick(5)], Peek(2, 5), w4, w5);
    assert w5.tasks[2] == Task(5, BestLooked(Some(7)));
    w := Do(One, w5, Tick(7)).value;
    events := e3 + [Tick(5)] + [Peek(2, 5)] + [Tick(7)];
    RunStep(One, e3 + [Tick(5)] + [Peek(2, 5)], Tick(7), w5, w);
  }

  lemma FailsAtSeven() returns (events: seq<Event>, w: World)
    ensures Run(One, Start, events) == Some(w) && w.clock == 7
    ensures 2 in w.tasks && w.tasks[2] == Task(5, BestLooked(Some(7)))
    ensures 7 in w.entries && w.entries[7].attempts == AttemptsView([7], 0)
  {
    var e6, w6 := LooksBeforeFailure();
    w := Do(One, w6, Act(1, Fail)).value;
    events := e6 + [Act(1, Fail)];
    RunStep(One, e6, Act(1, Fail), w6, w);
    assert w.entries[7].attempts == Failed(One, AttemptsView([], 1), 7);
  }

  lemma CheckRefuses(w: World) returns (w': World)
    requires w.clock == 7 && 2 in w.tasks && w.tasks[2] == Task(5, BestLooked(Some(7)))
    requires 7 in w.entries && Checked(One, w.entries[7].attempts, 5).1.Some?
    ensures Do(One, w, Act(2, Check(5))) == Some(w') && 2 !in w'.tasks
  {
    w' := Do(One, w, Act(2, Check(5))).value;
  }

  /** An attempt that read `now` before it took the lock is told to come back too early in a run: at 7 it is
      refused with the delay as of 5, and would be refused at the end of that delay too. */
  lemma DelayTooShortInRun() returns (events: seq<Event>, w: World, w': World)
    ensures Run(One, Start, events) == Some(w) && w.clock == 7
    ensures 2 in w.tasks && w.tasks[2].phase == BestLooked(Some(7)) && 7 in w.entries
    ensures Do(One, w, Act(2, Check(5))) == Some(w') && 2 !in w'.tasks
    ensures Checked(One, w.entries[7].attempts, 5).1 == Some(10)
    ensures !DelayIsExact(One, w.entries[7].attempts, 5)
  {
    events, w := FailsAtSeven();
    DelayTooShort();
    w' := CheckRefuses(w);
  }

  lemma RunStep(c: Config, events: seq<Event>, ev: Event, w: World, w': World)
    requires Run(c, Start, events) == Some(w) && Do(c, w, ev) == Some(w')
    ensures Run(c, Start, events + [ev]) == Some(w')
  {
    assert (events + [ev])[..|events|] == events;
  }
}
