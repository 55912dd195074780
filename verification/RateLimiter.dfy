/** The rate limiter's objects, updated in place: each method is one critical section, and does to
    the fields what the specification functions say. */
module RateLimit {
  import opened Wrappers
  import opened RateLimitSpec
  import opened RateLimitAnswers
  import opened RateLimitRoom
  import opened Selection

  class Attempts {
    var failures: seq<Instant>
    var inFlight: nat

    constructor ()
      ensures View() == AttemptsView([], 0)
    {
      failures, inFlight := [], 0;
    }

    function View(): AttemptsView
      reads this
    {
      AttemptsView(failures, inFlight)
    }

    /** `Vec::retain`, which keeps the order. */
    method Prune(now: Instant, window: nat)
      modifies this`failures
      ensures failures == Pruned(old(failures), now, window)
    {
      var kept := [];
      for i := 0 to |failures|
        invariant failures == old(failures)
        invariant kept == Pruned(failures[..i], now, window)
      {
        assert failures[..i + 1][..i] == failures[..i];
        if Live(failures[i], now, window) {
          kept := kept + [failures[i]];
        }
      }
      assert failures[..|failures|] == failures;
      failures := kept;
    }
  }

  /** `notified` counts the calls to `released.notify_waiters()`, `strong` the references to the
      entry (`Arc::strong_count`). */
  class Entry {
    const attempts: Attempts
    var notified: nat
    var strong: nat

    /** A new entry, with this many references. */
    constructor (strong: nat)
      ensures fresh(attempts) && View() == EntryView(AttemptsView([], 0), strong)
      ensures notified == 0
    {
      attempts := new Attempts();
      notified, this.strong := 0, strong;
    }

    function View(): EntryView
      reads this, attempts
    {
      EntryView(attempts.View(), strong)
    }

    /** The drop of a handle. */
    method DropHandle()
      requires strong > 0
      modifies this`strong
      ensures strong == old(strong) - 1
    {
      strong := strong - 1;
    }
  }

  class RateLimiter {
    var attempts: map<Key, Entry>
    const maxAttempts: nat
    const window: nat
    const maxEntries: nat
    const farthest: Instant

    constructor (maxAttempts: nat, window: nat, maxEntries: nat, farthest: Instant)
      ensures Valid() && attempts == map[]
      ensures Settings() == Config(maxAttempts, window, Max(maxEntries, 1), farthest)
    {
      attempts := map[];
      this.maxAttempts := maxAttempts;
      this.window := window;
      this.maxEntries := Max(maxEntries, 1);
      this.farthest := farthest;
    }

    function Settings(): Config {
      Config(maxAttempts, window, maxEntries, farthest)
    }

    function Entries(): set<Entry>
      reads this
    {
      set k | k in attempts :: attempts[k]
    }

    function Repr(): set<object>
      reads this
    {
      {this} + Entries() + (set k | k in attempts :: attempts[k].attempts)
    }

    /** No two clients share an entry or its attempts, and the map holds a reference to each. */
    ghost predicate Valid()
      reads this, Entries()
    {
      && maxEntries >= 1
      && (forall k :: k in attempts ==> attempts[k].strong >= 1)
      && (forall k, k' :: k in attempts && k' in attempts && k != k' ==>
            attempts[k] != attempts[k'] && attempts[k].attempts != attempts[k'].attempts)
    }

    function View(): Table
      reads Repr()
    {
      map k | k in attempts :: attempts[k].View()
    }

    method Get(key: Key) returns (found: Option<Entry>)
      requires Valid()
      modifies Entries()`strong
      ensures Valid()
      ensures if key in attempts then found == Some(attempts[key]) else found == None
      ensures forall k :: k in attempts ==>
                attempts[k].strong == old(attempts[k].strong) + (if k == key then 1 else 0)
    {
      found := None;
      if key in attempts {
        var e := attempts[key];
        e.strong := e.strong + 1;
        found := Some(e);
      }
    }

    /** The `check` of a best effort attempt, refusing with the delay to come back after. */
    method Check(entry: Option<Entry>, now: Instant) returns (refusal: Option<nat>)
      modifies if entry.Some? then {entry.value.attempts} else {}
      ensures entry.None? ==>
                refusal == Checked(Settings(), AttemptsView([], 0), now).1
      ensures entry.Some? ==>
                (entry.value.attempts.View(), refusal) ==
                Checked(Settings(), old(entry.value.attempts.View()), now)
      ensures entry.Some? && Ordered(old(entry.value.attempts.failures)) ==>
                TellsCheck(Settings(), old(entry.value.attempts.View()), now, entry.value.attempts.View(), refusal)
    {
      match entry {
        case None =>
          refusal := if maxAttempts == 0 then Some(RetryIn(Settings(), [], now)) else None;
        case Some(e) =>
          var a := e.attempts;
          CheckIsTold(Settings(), a.View(), now);
          a.Prune(now, window);
          refusal := if |a.failures| >= maxAttempts
                     then Some(RetryIn(Settings(), a.failures, now)) else None;
      }
    }

    /** One turn of a strict attempt's loop. */
    method Reserve(entry: Entry, now: Instant) returns (r: Reserve)
      modifies entry.attempts
      ensures (entry.attempts.View(), r) == Reserving(Settings(), old(entry.attempts.View()), now)
      ensures Ordered(old(entry.attempts.failures)) ==>
                TellsReserve(Settings(), old(entry.attempts.View()), now, entry.attempts.View(), r)
    {
      var a := entry.attempts;
      ReserveIsTold(Settings(), a.View(), now);
      a.Prune(now, window);
      if |a.failures| >= maxAttempts {
        return Refused(RetryIn(Settings(), a.failures, now));
      }
      if |a.failures| + a.inFlight >= maxAttempts {
        return Wait(Expiry(Settings(), a.failures));
      }
      a.inFlight := a.inFlight + 1;
      return Reserved;
    }

    method PushFailure(a: Attempts, now: Instant) returns (remaining: nat)
      modifies a
      ensures a.View() == Pushed(Settings(), old(a.View()), now)
      ensures remaining == SaturatingSub(maxAttempts, |a.failures|)
    {
      a.Prune(now, window);
      a.failures := a.failures + [now];
      remaining := SaturatingSub(maxAttempts, |a.failures|);
    }

    /** `Reservation::fail`: the lock, then the notification. */
    method Fail(entry: Entry, now: Instant) returns (remaining: nat)
      modifies entry`notified, entry.attempts
      ensures entry.attempts.View() == Failed(Settings(), old(entry.attempts.View()), now)
      ensures entry.notified == old(entry.notified) + 1
      ensures remaining == SaturatingSub(maxAttempts, |entry.attempts.failures|)
    {
      var a := entry.attempts;
      a.inFlight := SaturatingSub(a.inFlight, 1);
      remaining := PushFailure(a, now);
      entry.notified := entry.notified + 1;
    }

    /** The drop of a reservation. */
    method Release(entry: Entry)
      modifies entry`notified, entry.attempts
      ensures entry.attempts.View() == Released(old(entry.attempts.View()))
      ensures entry.notified == old(entry.notified) + 1
    {
      entry.attempts.inFlight := SaturatingSub(entry.attempts.inFlight, 1);
      entry.notified := entry.notified + 1;
    }

    predicate IsStale(entry: Entry, now: Instant)
      reads entry, entry.attempts
      ensures IsStale(entry, now) <==> Stale(Settings(), entry.View(), now)
    {
      entry.strong <= 1 && entry.attempts.inFlight == 0 &&
      (entry.attempts.failures == [] ||
       Since(now, entry.attempts.failures[|entry.attempts.failures| - 1]) >= window)
    }

    /** `cleanup_at`, and the first pass of `make_room`. */
    method CleanupAt(now: Instant)
      requires Valid()
      modifies this`attempts
      ensures Valid() && View() == WithoutStale(Settings(), old(View()), now)
      ensures forall k :: k in attempts ==> k in old(attempts) && attempts[k] == old(attempts[k])
    {
      attempts := map k | k in attempts && !IsStale(attempts[k], now) :: attempts[k];
    }

    lemma SizeOfView()
      ensures |View()| == |attempts|
    {
      assert View().Keys == attempts.Keys;
    }

    /** The clients nothing uses, and how many of them have to go. */
    method Candidates() returns (removable: set<Key>, excess: nat)
      requires Valid()
      ensures removable == UnusedKeys(View()) && excess == Excess(Settings(), View())
    {
      removable := set k | k in attempts && attempts[k].strong == 1 &&
                           attempts[k].attempts.inFlight == 0;
      assert View().Keys == attempts.Keys;
      excess := Min(SaturatingSub(|attempts|, Target(Settings())), |removable|);
    }

    method RemoveAll(gone: set<Key>)
      requires Valid()
      modifies this`attempts
      ensures Valid() && View() == old(View()) - gone && attempts == old(attempts) - gone
    {
      attempts := attempts - gone;
    }

    /** The second pass of `make_room`, on a map `before` rid of its stale clients. */
    method RemoveOldest(now: Instant, ghost before: Table)
      requires Valid() && View() == WithoutStale(Settings(), before, now)
      modifies this`attempts
      ensures Valid() && RoomMade(Settings(), before, View(), now)
      ensures |attempts| + 1 <= Max(maxEntries, InUse(before) + 1)
      ensures forall k :: k in attempts ==> k in old(attempts) && attempts[k] == old(attempts[k])
    {
      ghost var rest := View();
      var removable, excess := Candidates();
      assert View() == rest;
      var gone := SelectLowest(LastFailures(View()), removable, excess);
      assert View() == rest;
      RemoveAll(gone);
      RoomMadeBy(Settings(), before, gone, View(), now);
      SizeOfView();
    }

    method MakeRoom(now: Instant)
      requires Valid()
      modifies this`attempts
      ensures Valid() && RoomMade(Settings(), old(View()), View(), now)
      ensures |attempts| + 1 <= Max(maxEntries, InUse(old(View())) + 1)
      ensures forall k :: k in attempts ==> k in old(attempts) && attempts[k] == old(attempts[k])
    {
      ghost var before := View();
      CleanupAt(now);
      RemoveOldest(now, before);
    }

    /** A new entry, referenced by the map and by the caller. */
    method Add(key: Key) returns (entry: Entry)
      requires Valid() && key !in attempts
      modifies this`attempts
      ensures Valid() && fresh(entry) && attempts == old(attempts)[key := entry]
      ensures entry.View() == EntryView(AttemptsView([], 0), 2)
      ensures View() - {key} == old(View())
    {
      entry := new Entry(2);
      attempts := attempts[key := entry];
    }

    /** `get_or_insert`: a client without an entry gets one, after making room when the map is
        full. */
    method GetOrInsert(key: Key, now: Instant) returns (entry: Entry)
      requires Valid()
      modifies this`attempts, Entries()`strong
      ensures Valid() && key in attempts && attempts[key] == entry
      ensures key in old(attempts) ==>
                attempts == old(attempts) && entry.strong == old(attempts[key].strong) + 1
      ensures key !in old(attempts) ==>
                && fresh(entry) && entry.View() == EntryView(AttemptsView([], 0), 2)
                && (if |old(attempts)| >= maxEntries
                    then RoomMade(Settings(), old(View()), View() - {key}, now)
                    else View() - {key} == old(View()))
      ensures key !in old(attempts) ==> |attempts| <= Max(maxEntries, InUse(old(View())) + 1)
    {
      if key in attempts {
        entry := attempts[key];
        entry.strong := entry.strong + 1;
      } else {
        if |attempts| >= maxEntries {
          MakeRoom(now);
        }
        entry := Add(key);
      }
    }
  }
}
