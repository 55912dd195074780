/** What an attempt is told, in terms of the failures and reservations there are: the failures of a client are
    recorded in order, so those that have left the window come first. */
module RateLimitAnswers {
  import opened Wrappers
  import opened RateLimitSpec

  /** A failure at `time` counts until a window later. */
  predicate Counts(c: Config, time: Instant, now: Instant) {
    0 < c.window && now < time + c.window
  }

  /** The first `gone` failures do not count any more, all others do. */
  ghost predicate LeftWindow(c: Config, failures: seq<Instant>, now: Instant, gone: nat) {
    && gone <= |failures|
    && (forall i :: 0 <= i < gone ==> !Counts(c, failures[i], now))
    && (forall i :: gone <= i < |failures| ==> Counts(c, failures[i], now))
  }

  /** When a failure stops counting, from `now` on; the whole window for one that is later than `now`. */
  function Remaining(c: Config, time: Instant, now: Instant): int {
    if time > now then c.window else time + c.window - now
  }

  /** Refused while the failures that count are as many as the budget, until the first that makes them so many
      stops counting. */
  ghost predicate TellsRefusal(c: Config, failures: seq<Instant>, now: Instant, gone: nat, refusal: Option<nat>)
    requires gone <= |failures|
  {
    && (refusal.Some? <==> |failures| - gone >= c.maxAttempts)
    && (refusal.Some? && 1 <= c.maxAttempts <= |failures| ==>
          refusal.value == Remaining(c, failures[|failures| - c.maxAttempts], now))
    && (c.maxAttempts == 0 ==> refusal == Some(c.window))
  }

  /** The answer to a best effort attempt. */
  ghost predicate TellsCheck(c: Config, a: AttemptsView, now: Instant, after: AttemptsView, refusal: Option<nat>) {
    exists gone: nat ::
      && LeftWindow(c, a.failures, now, gone) && TellsRefusal(c, a.failures, now, gone, refusal)
      && after == AttemptsView(a.failures[gone..], a.inFlight)
  }

  function Refusal(r: Reserve): Option<nat> {
    match r case Refused(retryIn) => Some(retryIn) case _ => None
  }

  /** The answer to a strict attempt: it reserves if the failures that count and the reservations leave one, and
      waits if they only might, until the first failure stops counting. */
  ghost predicate TellsReserve(c: Config, a: AttemptsView, now: Instant, after: AttemptsView, r: Reserve) {
    exists gone: nat ::
      && LeftWindow(c, a.failures, now, gone) && TellsRefusal(c, a.failures, now, gone, Refusal(r))
      && TellsReserved(c, a, gone, after, r)
  }

  ghost predicate TellsReserved(c: Config, a: AttemptsView, gone: nat, after: AttemptsView, r: Reserve)
    requires gone <= |a.failures|
  {
    && (r.Reserved? <==> |a.failures| - gone + a.inFlight < c.maxAttempts)
    && after == AttemptsView(a.failures[gone..], if r.Reserved? then a.inFlight + 1 else a.inFlight)
    && (r.Wait? ==>
          r.expiry == if gone < |a.failures| && a.failures[gone] + c.window <= c.farthest
                      then Some(a.failures[gone] + c.window) else None)
  }

  lemma CountsIsLive(c: Config, time: Instant, now: Instant)
    ensures Counts(c, time, now) <==> Live(time, now, c.window)
  {
  }

  lemma FirstCounts(c: Config, failures: seq<Instant>, now: Instant) returns (gone: nat)
    requires Ordered(failures)
    ensures LeftWindow(c, failures, now, gone)
  {
    gone := 0;
    while gone < |failures| && !Counts(c, failures[gone], now)
      invariant gone <= |failures| && forall i :: 0 <= i < gone ==> !Counts(c, failures[i], now)
    {
      gone := gone + 1;
    }
    forall i | gone <= i < |failures| ensures Counts(c, failures[i], now) {
      assert failures[gone] <= failures[i];
    }
  }

  /** Pruning drops the first failures, and keeps the others. */
  lemma PrunedIsRest(c: Config, failures: seq<Instant>, now: Instant, gone: nat)
    requires LeftWindow(c, failures, now, gone)
    ensures Pruned(failures, now, c.window) == failures[gone..]
  {
    var early, rest := failures[..gone], failures[gone..];
    assert failures == early + rest;
    PrunedNone(early, now, c.window);
    PrunedAll(rest, now, c.window);
    PrunedSplit(early, rest, now, c.window);
  }

  lemma RefusalIsTold(c: Config, failures: seq<Instant>, now: Instant, gone: nat)
    requires LeftWindow(c, failures, now, gone)
    ensures var kept := failures[gone..];
            TellsRefusal(c, failures, now, gone,
                         if |kept| >= c.maxAttempts then Some(RetryIn(c, kept, now)) else None)
  {
    var kept := failures[gone..];
    if 1 <= c.maxAttempts <= |kept| {
      assert kept[|kept| - c.maxAttempts] == failures[|failures| - c.maxAttempts];
    }
  }

  lemma CheckIsTold(c: Config, a: AttemptsView, now: Instant)
    ensures Ordered(a.failures) ==> TellsCheck(c, a, now, Checked(c, a, now).0, Checked(c, a, now).1)
  {
    if Ordered(a.failures) {
      var gone := FirstCounts(c, a.failures, now);
      PrunedIsRest(c, a.failures, now, gone);
      RefusalIsTold(c, a.failures, now, gone);
    }
  }

  lemma ReservedIsTold(c: Config, a: AttemptsView, now: Instant, gone: nat)
    requires gone <= |a.failures| && Pruned(a.failures, now, c.window) == a.failures[gone..]
    ensures var (after, r) := Reserving(c, a, now);
            && TellsReserved(c, a, gone, after, r)
            && Refusal(r) == if |a.failures[gone..]| >= c.maxAttempts then Some(RetryIn(c, a.failures[gone..], now))
                             else None
  {
  }

  lemma ReserveIsTold(c: Config, a: AttemptsView, now: Instant)
    ensures Ordered(a.failures) ==> TellsReserve(c, a, now, Reserving(c, a, now).0, Reserving(c, a, now).1)
  {
    if Ordered(a.failures) {
      var gone := FirstCounts(c, a.failures, now);
      PrunedIsRest(c, a.failures, now, gone);
      RefusalIsTold(c, a.failures, now, gone);
      ReservedIsTold(c, a, now, gone);
    }
  }

  /** Refused if and only if the failure the budget away from the last one counts. */
  lemma RefusedExactly(c: Config, a: AttemptsView, now: Instant, after: AttemptsView, r: Reserve)
    requires Ordered(a.failures) && 1 <= c.maxAttempts && TellsReserve(c, a, now, after, r)
    ensures r.Refused? <==>
            |a.failures| >= c.maxAttempts && Counts(c, a.failures[|a.failures| - c.maxAttempts], now)
  {
    var gone: nat :| LeftWindow(c, a.failures, now, gone) && TellsRefusal(c, a.failures, now, gone, Refusal(r));
  }

  /** The delay `retry` of a refusal at `now` is exact for strict attempts: refused before it, and not from it on. */
  ghost predicate ReserveDelayIsExact(c: Config, a: AttemptsView, now: Instant, retry: nat) {
    forall t :: now <= t ==> (Reserving(c, Reserving(c, a, now).0, t).1.Refused? <==> t < now + retry)
  }

  /** The delay told to a strict attempt is exact if and only if the failure it is computed from is not later than
      the `now` that was read. */
  lemma ReserveDelayExactness(c: Config, a: AttemptsView, now: Instant, clock: Instant)
    requires Ordered(a.failures) && NoneAfter(a.failures, clock) && 1 <= c.maxAttempts
    requires Reserving(c, a, now).1.Refused?
    ensures |a.failures| >= c.maxAttempts
    ensures ReserveDelayIsExact(c, a, now, Reserving(c, a, now).1.retryIn) <==>
            a.failures[|a.failures| - c.maxAttempts] <= now
  {
    var gone := FirstCounts(c, a.failures, now);
    PrunedIsRest(c, a.failures, now, gone);
    DelayExactness(c, a, now, clock);
    assert Checked(c, a, now).0 == Reserving(c, a, now).0;
    forall t | now <= t
      ensures RefusesAt(c, a, now, t) <==> Reserving(c, Reserving(c, a, now).0, t).1.Refused?
    {
    }
  }

  /** An entry is idle if and only if nothing is reserved and none of its failures counts. */
  lemma IdleExactly(c: Config, a: AttemptsView, now: Instant)
    requires Ordered(a.failures)
    ensures Idle(c, a, now) <==> a.inFlight == 0 && forall i :: 0 <= i < |a.failures| ==> !Counts(c, a.failures[i], now)
  {
    if a.failures != [] {
      var last := a.failures[|a.failures| - 1];
      assert forall i :: 0 <= i < |a.failures| ==> a.failures[i] <= last;
    }
  }
}
