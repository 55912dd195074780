/** What one critical section of the failure rate limiter does to the attempts of one client.

    `Instant` is a nonnegative integer, so `now.duration_since(time)` saturating to zero is
    `Since`. An attempt reads `now` before it takes the lock in `check` and `reserve`, so `now`
    may be older than the failures it finds. */
module RateLimitSpec {
  import opened Wrappers

  type Instant = nat

  /** `farthest` is the last instant the platform can represent (`Instant::checked_add`). */
  datatype Config = Config(maxAttempts: nat, window: nat, maxEntries: nat, farthest: Instant)

  datatype AttemptsView = AttemptsView(failures: seq<Instant>, inFlight: nat)

  datatype Reserve = Refused(retryIn: nat) | Reserved | Wait(expiry: Option<Instant>)

  function Since(now: Instant, time: Instant): nat {
    if now >= time then now - time else 0
  }

  predicate Live(time: Instant, now: Instant, window: nat) {
    Since(now, time) < window
  }

  /** The failures still in the window, in order (`Vec::retain`). */
  function Pruned(failures: seq<Instant>, now: Instant, window: nat): seq<Instant> {
    if failures == [] then []
    else
      var last := |failures| - 1;
      Pruned(failures[..last], now, window) +
      (if Live(failures[last], now, window) then [failures[last]] else [])
  }

  ghost predicate Ordered(failures: seq<Instant>) {
    forall i, j :: 0 <= i < j < |failures| ==> failures[i] <= failures[j]
  }

  ghost predicate NoneAfter(failures: seq<Instant>, clock: Instant) {
    forall i :: 0 <= i < |failures| ==> failures[i] <= clock
  }

  function SaturatingSub(a: nat, b: nat): nat {
    if a >= b then a - b else 0
  }

  /** `too_many_attempts`: the time until enough of the ordered failures leave the window. */
  function RetryIn(c: Config, failures: seq<Instant>, now: Instant): nat {
    if c.maxAttempts <= |failures| && 0 < c.maxAttempts
    then SaturatingSub(c.window, Since(now, failures[|failures| - c.maxAttempts]))
    else c.window
  }

  /** `check` on a client with an entry: the attempts afterwards, and the delay of a refusal. */
  function Checked(c: Config, a: AttemptsView, now: Instant): (AttemptsView, Option<nat>) {
    var failures := Pruned(a.failures, now, c.window);
    (a.(failures := failures),
     if |failures| >= c.maxAttempts then Some(RetryIn(c, failures, now)) else None)
  }

  function Expiry(c: Config, failures: seq<Instant>): Option<Instant> {
    if failures != [] && failures[0] + c.window <= c.farthest then Some(failures[0] + c.window)
    else None
  }

  function Reserving(c: Config, a: AttemptsView, now: Instant): (AttemptsView, Reserve) {
    var failures := Pruned(a.failures, now, c.window);
    if |failures| >= c.maxAttempts then
      (a.(failures := failures), Refused(RetryIn(c, failures, now)))
    else if |failures| + a.inFlight >= c.maxAttempts then
      (a.(failures := failures), Wait(Expiry(c, failures)))
    else
      (AttemptsView(failures, a.inFlight + 1), Reserved)
  }

  /** `push_failure`, which reads `now` under the lock. */
  function Pushed(c: Config, a: AttemptsView, now: Instant): AttemptsView {
    a.(failures := Pruned(a.failures, now, c.window) + [now])
  }

  /** What the drop of a reservation does under the lock. */
  function Released(a: AttemptsView): AttemptsView {
    a.(inFlight := SaturatingSub(a.inFlight, 1))
  }

  /** `Reservation::fail` under the lock: gives the reservation back and records the failure. */
  function Failed(c: Config, a: AttemptsView, now: Instant): AttemptsView {
    Pushed(c, Released(a), now)
  }

  /** The part of `is_stale` that looks at the attempts. */
  predicate Idle(c: Config, a: AttemptsView, now: Instant) {
    a.inFlight == 0 &&
    (a.failures == [] || Since(now, a.failures[|a.failures| - 1]) >= c.window)
  }

  // ------------------------------------------------------------------ pruning

  lemma PrunedAppend(failures: seq<Instant>, time: Instant, now: Instant, window: nat)
    ensures Pruned(failures + [time], now, window) ==
            Pruned(failures, now, window) + (if Live(time, now, window) then [time] else [])
  {
  }

  /** Pruning drops nothing that a later prune would keep. */
  lemma {:induction false} PrunedTwice(failures: seq<Instant>, now: Instant, later: Instant, window: nat)
    requires now <= later
    ensures Pruned(Pruned(failures, now, window), later, window) == Pruned(failures, later, window)
  {
    if failures != [] {
      var last := |failures| - 1;
      PrunedTwice(failures[..last], now, later, window);
      var kept := Pruned(failures[..last], now, window);
      if Live(failures[last], now, window) {
        PrunedAppend(kept, failures[last], later, window);
      } else {
        assert kept + [] == kept;
      }
    }
  }

  /** Fewer failures are in the window as time passes. */
  lemma {:induction false} PrunedShrinks(failures: seq<Instant>, now: Instant, later: Instant, window: nat)
    requires now <= later
    ensures |Pruned(failures, later, window)| <= |Pruned(failures, now, window)| <= |failures|
  {
    if failures != [] {
      PrunedShrinks(failures[..|failures| - 1], now, later, window);
    }
  }

  ghost predicate AllLive(failures: seq<Instant>, now: Instant, window: nat) {
    forall i :: 0 <= i < |failures| ==> Live(failures[i], now, window)
  }

  ghost predicate NoneLive(failures: seq<Instant>, now: Instant, window: nat) {
    forall i :: 0 <= i < |failures| ==> !Live(failures[i], now, window)
  }

  lemma {:induction false} PrunedKeepsOrder(failures: seq<Instant>, now: Instant, clock: Instant, window: nat)
    requires Ordered(failures) && NoneAfter(failures, clock)
    ensures Ordered(Pruned(failures, now, window)) && NoneAfter(Pruned(failures, now, window), clock)
    ensures AllLive(Pruned(failures, now, window), now, window)
  {
    if failures != [] {
      var last := failures[|failures| - 1];
      PrunedKeepsOrder(failures[..|failures| - 1], now, last, window);
    }
  }

  lemma {:induction false} PrunedAll(failures: seq<Instant>, now: Instant, window: nat)
    requires AllLive(failures, now, window)
    ensures Pruned(failures, now, window) == failures
  {
    if failures != [] {
      PrunedAll(failures[..|failures| - 1], now, window);
    }
  }

  lemma {:induction false} PrunedNone(failures: seq<Instant>, now: Instant, window: nat)
    requires NoneLive(failures, now, window)
    ensures Pruned(failures, now, window) == []
  {
    if failures != [] {
      PrunedNone(failures[..|failures| - 1], now, window);
    }
  }

  /** `is_stale` looks at the last failure only: the order makes that all of them. */
  lemma IdleHasNoneLive(c: Config, a: AttemptsView, now: Instant, later: Instant)
    requires Ordered(a.failures) && Idle(c, a, now) && now <= later
    ensures Pruned(a.failures, later, c.window) == []
  {
    PrunedNone(a.failures, later, c.window);
  }

  // -------------------------------------------------------------- retry delay

  lemma {:induction false} PrunedSplit(a: seq<Instant>, b: seq<Instant>, t: Instant, window: nat)
    ensures Pruned(a + b, t, window) == Pruned(a, t, window) + Pruned(b, t, window)
  {
    if b == [] {
      assert a + b == a;
    } else {
      var last := |b| - 1;
      PrunedSplit(a, b[..last], t, window);
      assert (a + b)[..|a + b| - 1] == a + b[..last];
    }
  }

  lemma PrunedBounds(early: seq<Instant>, rest: seq<Instant>, t: Instant, window: nat)
    ensures AllLive(rest, t, window) ==> |Pruned(early + rest, t, window)| >= |rest|
    ensures NoneLive(early, t, window) ==> |Pruned(early + rest, t, window)| <= |rest|
  {
    PrunedSplit(early, rest, t, window);
    PrunedShrinks(rest, t, t, window);
    if AllLive(rest, t, window) {
      PrunedAll(rest, t, window);
    }
    if NoneLive(early, t, window) {
      PrunedNone(early, t, window);
    }
  }

  lemma LiveFrom(failures: seq<Instant>, i: nat, t: Instant, window: nat)
    requires Ordered(failures) && i < |failures| && Live(failures[i], t, window)
    ensures AllLive(failures[i..], t, window)
  {
  }

  lemma GoneUpTo(failures: seq<Instant>, i: nat, t: Instant, window: nat)
    requires Ordered(failures) && i < |failures| && !Live(failures[i], t, window)
    ensures NoneLive(failures[..i + 1], t, window)
  {
  }

  /** How many failures of an ordered list a check at `t` still counts, against the budget. */
  lemma BudgetUsedUntil(failures: seq<Instant>, t: Instant, window: nat, max: nat)
    requires Ordered(failures) && 1 <= max <= |failures|
    ensures |Pruned(failures, t, window)| >= max <==> Live(failures[|failures| - max], t, window)
  {
    var pivot := |failures| - max;
    if Live(failures[pivot], t, window) {
      var early, rest := failures[..pivot], failures[pivot..];
      assert failures == early + rest && |rest| == max;
      LiveFrom(failures, pivot, t, window);
      PrunedBounds(early, rest, t, window);
    } else {
      var early, rest := failures[..pivot + 1], failures[pivot + 1..];
      assert failures == early + rest && |rest| == max - 1;
      GoneUpTo(failures, pivot, t, window);
      PrunedBounds(early, rest, t, window);
    }
  }

  /** The refusal of a check at `t` when nothing was recorded since one at `now` refused. */
  ghost predicate RefusesAt(c: Config, a: AttemptsView, now: Instant, t: Instant) {
    Checked(c, Checked(c, a, now).0, t).1.Some?
  }

  /** `retry_in` is exact for a refusal made at `now`: refused before it, accepted from it on. */
  ghost predicate DelayIsExact(c: Config, a: AttemptsView, now: Instant) {
    var retry := RetryIn(c, Pruned(a.failures, now, c.window), now);
    forall t :: now <= t ==> (RefusesAt(c, a, now, t) <==> t < now + retry)
  }

  /** The failure whose leaving the window makes room for the next attempt. */
  function Deciding(c: Config, a: AttemptsView, now: Instant): Instant
    requires 1 <= c.maxAttempts <= |Pruned(a.failures, now, c.window)|
  {
    var kept := Pruned(a.failures, now, c.window);
    kept[|kept| - c.maxAttempts]
  }

  /** The delay in a refusal is exact if and only if the deciding failure is not later than the
      `now` the refused attempt read before it took the lock; it holds however many failures
      best effort attempts recorded above the budget. */
  lemma DelayExactness(c: Config, a: AttemptsView, now: Instant, clock: Instant)
    requires Ordered(a.failures) && NoneAfter(a.failures, clock)
    requires 1 <= c.maxAttempts && Checked(c, a, now).1.Some?
    ensures DelayIsExact(c, a, now) <==> Deciding(c, a, now) <= now
  {
    var kept := Pruned(a.failures, now, c.window);
    var decides := Deciding(c, a, now);
    PrunedKeepsOrder(a.failures, now, clock, c.window);
    assert decides in kept;
    forall t: Instant | now <= t
      ensures RefusesAt(c, a, now, t) <==> Live(decides, t, c.window)
    {
      BudgetUsedUntil(kept, t, c.window, c.maxAttempts);
    }
    if decides > now {
      var t := now + c.window;
      assert RefusesAt(c, a, now, t) <==> Live(decides, t, c.window);
    }
  }

  lemma CheckedOne(c: Config, x: Instant, now: Instant)
    requires c.maxAttempts == 1 && Live(x, now, c.window)
    ensures var a := AttemptsView([x], 0);
            && Checked(c, a, now).1 == Some(RetryIn(c, [x], now))
            && Pruned(a.failures, now, c.window) == [x] && Deciding(c, a, now) == x
  {
    PrunedAppend([], x, now, c.window);
    assert [] + [x] == [x];
  }

  /** An attempt that read `now` just before a failure at a later instant is recorded is told
      to come back too early. */
  lemma DelayTooShort()
    ensures var c := Config(1, 10, 1, 1000);
            var a := AttemptsView([7], 0);
            Ordered(a.failures) && Checked(c, a, 5).1 == Some(10) && !DelayIsExact(c, a, 5)
  {
    var c := Config(1, 10, 1, 1000);
    var a := AttemptsView([7], 0);
    CheckedOne(c, 7, 5);
    assert NoneAfter(a.failures, 7);
    DelayExactness(c, a, 5, 7);
  }
}
