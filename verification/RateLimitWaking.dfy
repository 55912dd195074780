/** What a sleeping attempt may find before it is notified: nothing to reserve, unless an attempt was given
    back, or a failure has left the window, and the notification of that is still to come. */
module RateLimitWaking {
  import opened Wrappers
  import opened RateLimitSpec
  import opened RateLimitRuns
  import opened RateLimitSafety

  /** The budget is used up at `t`. */
  predicate Full(c: Config, a: AttemptsView, t: Instant) {
    |Pruned(a.failures, t, c.window)| + a.inFlight >= c.maxAttempts
  }

  /** Whoever is about to notify on the entry has failed, and that failure is in the window at `t`. */
  ghost predicate OnlyFailing(c: Config, w: World, e: EntryId, t: Instant) {
    forall n :: n in w.tasks && IsNotifying(w.tasks[n].phase, e) ==>
      w.tasks[n].phase.failed.Some? && Live(w.tasks[n].phase.failed.value, t, c.window)
  }

  /** A sleeper finds nothing to reserve at any time, now or later, at which nothing else is due than the
      notifications of failures in the window. */
  ghost predicate Shut(c: Config, w: World, p: Phase) {
    p.Asleep? && p.e in w.entries && p.seen == w.entries[p.e].notified ==>
      forall t: Instant :: w.clock <= t <= Until(c, p.expiry) && OnlyFailing(c, w, p.e, t) ==>
        Full(c, w.entries[p.e].attempts, t)
  }

  ghost predicate AllShut(c: Config, w: World) {
    forall t :: t in w.tasks ==> Shut(c, w, w.tasks[t].phase)
  }

  // ---------------------------------------------------------------- one client

  lemma PruneFull(c: Config, a: AttemptsView, now: Instant, t: Instant)
    requires Full(c, a, t) && now <= t
    ensures Full(c, a.(failures := Pruned(a.failures, now, c.window)), t)
  {
    PrunedTwice(a.failures, now, t, c.window);
  }

  /** The budget passes from the reservation to the failure, for as long as that is in the window. */
  lemma FailFull(c: Config, a: AttemptsView, clock: Instant, t: Instant)
    requires Full(c, a, t) && clock <= t && a.inFlight > 0 && Live(clock, t, c.window)
    ensures Full(c, Failed(c, a, clock), t)
  {
    PruneFull(c, a, clock, t);
    PrunedAppend(Pruned(a.failures, clock, c.window), clock, t, c.window);
  }

  lemma RecordFull(c: Config, a: AttemptsView, clock: Instant, t: Instant)
    requires Full(c, a, t) && clock <= t
    ensures Full(c, Pushed(c, a, clock), t)
  {
    PruneFull(c, a, clock, t);
    PrunedAppend(Pruned(a.failures, clock, c.window), clock, t, c.window);
  }

  lemma MoveFull(c: Config, clock: Instant, p: Phase, s: EntryState, move: Move, t: Instant)
    requires Moved(c, clock, p, s, move).Some? && !move.Release? && clock <= t && Full(c, s.attempts, t)
    requires move.Fail? ==> s.attempts.inFlight > 0 && Live(clock, t, c.window)
    ensures Full(c, Moved(c, clock, p, s, move).value.1.attempts, t)
  {
    match move
    case Reserve(now) => PruneFull(c, s.attempts, now, t);
    case Check(now) => PruneFull(c, s.attempts, now, t);
    case Record => RecordFull(c, s.attempts, clock, t);
    case Fail => FailFull(c, s.attempts, clock, t);
    case _ =>
  }

  // ------------------------------------------------------------------ by step

  /** Nobody else is no longer about to notify. */
  lemma OnlyFailingBefore(c: Config, w: World, t: TaskId, move: Move, w': World, e: EntryId, at: Instant)
    requires Acted(c, w, t, move) == Some(w') && OnlyFailing(c, w', e, at)
    requires Subject(w.tasks[t].phase) == Some(e) ==> !move.Notify?
    ensures OnlyFailing(c, w, e, at)
  {
    forall n | n in w.tasks && IsNotifying(w.tasks[n].phase, e)
      ensures w.tasks[n].phase.failed.Some? && Live(w.tasks[n].phase.failed.value, at, c.window)
    {
      assert n != t;
      assert w'.tasks[n] == w.tasks[n];
    }
  }

  lemma ActEndsShut(c: Config, w: World, t: TaskId, move: Move, w': World, e: EntryId, at: Instant)
    requires Acted(c, w, t, move) == Some(w') && Subject(w.tasks[t].phase) == Some(e)
    requires OnlyFailing(c, w', e, at)
    ensures !move.Release? && (move.Fail? ==> Live(w.clock, at, c.window))
  {
    if move.Release? || move.Fail? {
      assert t in w'.tasks && IsNotifying(w'.tasks[t].phase, e);
    }
  }

  lemma ActShut(c: Config, w: World, t: TaskId, move: Move, w': World, p: Phase)
    requires Inv(c, w) && Acted(c, w, t, move) == Some(w')
    requires p.Asleep? && p.e in w.entries && p.seen <= w.entries[p.e].notified && Shut(c, w, p)
    ensures Shut(c, w', p)
  {
    var e := p.e;
    ActOnEntry(c, w, t, move, w', e);
    if p.seen == w'.entries[e].notified {
      forall at: Instant | w'.clock <= at <= Until(c, p.expiry) && OnlyFailing(c, w', e, at)
        ensures Full(c, w'.entries[e].attempts, at)
      {
        ActKeepsFull(c, w, t, move, w', p, at);
      }
    }
  }

  lemma ActKeepsFull(c: Config, w: World, t: TaskId, move: Move, w': World, p: Phase, at: Instant)
    requires Inv(c, w) && Acted(c, w, t, move) == Some(w')
    requires p.Asleep? && p.e in w.entries && p.seen <= w.entries[p.e].notified && Shut(c, w, p)
    requires p.e in w'.entries && p.seen == w'.entries[p.e].notified
    requires w.clock <= at <= Until(c, p.expiry) && OnlyFailing(c, w', p.e, at)
    ensures Full(c, w'.entries[p.e].attempts, at)
  {
    var q := w.tasks[t].phase;
    ActOnEntry(c, w, t, move, w', p.e);
    OnlyFailingBefore(c, w, t, move, w', p.e, at);
    if Subject(q) == Some(p.e) {
      ActEndsShut(c, w, t, move, w', p.e, at);
      if q.Running? { RunnerCounts(w, t, p.e); }
      MoveFull(c, w.clock, q, w.entries[p.e], move, at);
    }
  }

  /** The attempt that goes to sleep finds the budget used up until its expiry. */
  lemma SelfShut(c: Config, w: World, t: TaskId, move: Move, w': World)
    requires Inv(c, w) && Acted(c, w, t, move) == Some(w') && t in w'.tasks
    ensures Shut(c, w', w'.tasks[t].phase)
  {
    var Task(key, p) := w.tasks[t];
    if p.Armed? && move.Reserve? && Reserving(c, w.entries[p.e].attempts, move.now).1.Wait? {
      var s := w.entries[p.e];
      assert p.e in Holds(p);
      assert Owns(w, key, p.e);
      assert FineAt(c, w, key);
      WaitBlocks(c, w.clock, s.attempts, move.now);
      var expiry := Reserving(c, s.attempts, move.now).1.expiry;
      var a := Reserving(c, s.attempts, move.now).0;
      forall at: Instant | w.clock <= at <= Until(c, expiry) ensures Full(c, a, at) {
        PrunedShrinks(a.failures, at, Until(c, expiry), c.window);
      }
    }
  }

  lemma OtherOnlyFailing(c: Config, w: World, ev: Event, w': World, e: EntryId, at: Instant)
    requires Do(c, w, ev) == Some(w') && !ev.Act? && OnlyFailing(c, w', e, at)
    ensures OnlyFailing(c, w, e, at)
  {
    forall n | n in w.tasks && IsNotifying(w.tasks[n].phase, e)
      ensures w.tasks[n].phase.failed.Some? && Live(w.tasks[n].phase.failed.value, at, c.window)
    {
      assert n in w'.tasks && w'.tasks[n] == w.tasks[n];
    }
  }

  lemma OtherShut(c: Config, w: World, ev: Event, w': World, t: TaskId)
    requires Inv(c, w) && AllShut(c, w) && Do(c, w, ev) == Some(w') && !ev.Act? && t in w'.tasks
    ensures Shut(c, w', w'.tasks[t].phase)
  {
    var p := w'.tasks[t].phase;
    if p.Asleep? && p.e in w'.entries && p.seen == w'.entries[p.e].notified {
      assert t in w.tasks && w.tasks[t].phase == p;
      assert p.e in Holds(p);
      if ev.Forget? || ev.Evict? { assert Held(w, p.e); }
      assert Owns(w, w.tasks[t].key, p.e);
      assert w'.entries[p.e] == w.entries[p.e] && w.clock <= w'.clock;
      forall at: Instant | w'.clock <= at <= Until(c, p.expiry) && OnlyFailing(c, w', p.e, at)
        ensures Full(c, w'.entries[p.e].attempts, at)
      {
        OtherOnlyFailing(c, w, ev, w', p.e, at);
      }
    }
  }

  lemma StepShut(c: Config, w: World, ev: Event, w': World)
    requires Inv(c, w) && AllShut(c, w) && Do(c, w, ev) == Some(w')
    ensures AllShut(c, w')
  {
    forall t | t in w'.tasks ensures Shut(c, w', w'.tasks[t].phase) {
      if !ev.Act? {
        OtherShut(c, w, ev, w', t);
      } else if ev.t == t {
        SelfShut(c, w, t, ev.move, w');
      } else {
        assert t in w.tasks && w'.tasks[t] == w.tasks[t];
        assert SleepsWell(c, w, w.tasks[t].phase);
        if w.tasks[t].phase.Asleep? { ActShut(c, w, ev.t, ev.move, w', w.tasks[t].phase); }
      }
    }
  }

  lemma {:induction false} RunShut(c: Config, events: seq<Event>, w: World)
    requires Run(c, Start, events) == Some(w)
    ensures AllShut(c, w)
  {
    if events != [] {
      var w1 := Run(c, Start, events[..|events| - 1]).value;
      RunInv(c, events[..|events| - 1], w1);
      RunShut(c, events[..|events| - 1], w1);
      StepShut(c, w1, events[|events| - 1], w);
    }
  }

  /** In every run, a strict attempt asleep that is not notified and not expired finds nothing to reserve, while
      nothing but failures in the window is about to notify. Only a reservation given back without a failure, or
      a failure that has left the window by then, may be an attempt free before its notification. */
  lemma FailuresFreeNothing(c: Config, events: seq<Event>, w: World, t: TaskId, now: Instant)
    requires Run(c, Start, events) == Some(w)
    requires t in w.tasks && w.tasks[t].phase.Asleep? && w.tasks[t].phase.e in w.entries
    requires w.tasks[t].phase.seen == w.entries[w.tasks[t].phase.e].notified
    requires !Expired(w, w.tasks[t].phase.expiry) && now <= w.clock
    requires OnlyFailing(c, w, w.tasks[t].phase.e, w.clock)
    ensures !Reserving(c, w.entries[w.tasks[t].phase.e].attempts, now).1.Reserved?
  {
    RunInv(c, events, w);
    RunShut(c, events, w);
    var p := w.tasks[t].phase;
    assert Shut(c, w, p);
    assert Full(c, w.entries[p.e].attempts, w.clock);
    PrunedShrinks(w.entries[p.e].attempts.failures, now, w.clock, c.window);
  }
}
