/** Which clients the rate limiter's map forgets to stay bounded. */
module RateLimitRoom {
  import opened RateLimitSpec
  import opened RateLimitAnswers
  import opened Selection

  type Key = nat

  /** An entry of the map, and how many references to it there are, the map's included. */
  datatype EntryView = EntryView(attempts: AttemptsView, strong: nat)

  type Table = map<Key, EntryView>

  predicate Stale(c: Config, v: EntryView, now: Instant) {
    v.strong <= 1 && Idle(c, v.attempts, now)
  }

  /** Stale is what nothing holds or has reserved, and none of whose failures counts. */
  lemma StaleExactly(c: Config, v: EntryView, now: Instant)
    requires Ordered(v.attempts.failures)
    ensures Stale(c, v, now) <==>
            && v.strong <= 1 && v.attempts.inFlight == 0
            && forall i :: 0 <= i < |v.attempts.failures| ==> !Counts(c, v.attempts.failures[i], now)
  {
    IdleExactly(c, v.attempts, now);
  }

  /** Not held by an attempt, and without attempts in flight. */
  predicate Unused(v: EntryView) {
    v.strong == 1 && v.attempts.inFlight == 0
  }

  function UnusedKeys(m: Table): set<Key> {
    set k | k in m && Unused(m[k])
  }

  function InUse(m: Table): nat {
    |m.Keys - UnusedKeys(m)|
  }

  function WithoutStale(c: Config, m: Table, now: Instant): Table {
    map k | k in m && !Stale(c, m[k], now) :: m[k]
  }

  /** How many clients to keep: 90% of the maximum. */
  function Target(c: Config): nat
    requires c.maxEntries >= 1
  {
    c.maxEntries - Max(c.maxEntries / 10, 1)
  }

  function Max(a: nat, b: nat): nat { if a >= b then a else b }

  function Min(a: nat, b: nat): nat { if a <= b then a else b }

  /** Clients by their last failure; no failure at all is the earliest. */
  function LastFailures(m: Table): map<Key, int> {
    map k | k in m ::
      var failures := m[k].attempts.failures;
      if failures == [] then -1 else failures[|failures| - 1]
  }

  function Excess(c: Config, m: Table): nat
    requires c.maxEntries >= 1
  {
    Min(SaturatingSub(|m|, Target(c)), |UnusedKeys(m)|)
  }

  /** `make_room` may leave `m'` of the map, the unused clients `gone` removed with the stale ones:
      which of the clients with equally old last failures go is up to the selection. */
  ghost predicate RoomBy(c: Config, m: Table, gone: set<Key>, m': Table, now: Instant)
    requires c.maxEntries >= 1
  {
    var rest := WithoutStale(c, m, now);
    && gone <= UnusedKeys(rest) && |gone| == Excess(c, rest)
    && LowestFirst(LastFailures(rest), gone, UnusedKeys(rest) - gone)
    && m' == rest - gone
  }

  ghost predicate RoomMade(c: Config, m: Table, m': Table, now: Instant)
    requires c.maxEntries >= 1
  {
    exists gone: set<Key> :: RoomBy(c, m, gone, m', now)
  }

  lemma RoomSize(c: Config, m: Table, gone: set<Key>, m': Table, now: Instant)
    requires c.maxEntries >= 1 && RoomBy(c, m, gone, m', now)
    ensures |m'| + 1 <= Max(c.maxEntries, InUse(m) + 1)
  {
    var rest := WithoutStale(c, m, now);
    assert m'.Keys == rest.Keys - gone && gone <= rest.Keys;
    assert |m'.Keys| == |rest.Keys| - |gone|;
    if |gone| == |UnusedKeys(rest)| {
      SizeOfSubset(gone, UnusedKeys(rest));
      SizeOfSubset(m'.Keys, m.Keys - UnusedKeys(m));
    }
  }

  lemma RoomMadeBy(c: Config, m: Table, gone: set<Key>, m': Table, now: Instant)
    requires c.maxEntries >= 1 && RoomBy(c, m, gone, m', now)
    ensures RoomMade(c, m, m', now) && |m'| + 1 <= Max(c.maxEntries, InUse(m) + 1)
  {
    RoomSize(c, m, gone, m', now);
  }

  lemma RoomOrder(c: Config, m: Table, gone: set<Key>, m': Table, now: Instant, k: Key)
    requires c.maxEntries >= 1 && RoomBy(c, m, gone, m', now)
    requires k in m && k !in m' && !Stale(c, m[k], now)
    ensures forall other :: other in m' ==> !Stale(c, m[other], now)
    ensures forall other :: other in m' && Unused(m[other]) ==> LastFailures(m)[k] <= LastFailures(m)[other]
  {
    var rest := WithoutStale(c, m, now);
    assert k in gone;
    forall other | other in m' && Unused(m[other]) ensures LastFailures(m)[k] <= LastFailures(m)[other] {
      assert other in UnusedKeys(rest) - gone;
    }
  }

  /** No stale client stays. Others are evicted only down to nine tenths of the maximum, and so far unless no unused
      client is left. */
  lemma RoomIsNoMore(c: Config, m: Table, m': Table, now: Instant)
    requires c.maxEntries >= 1 && RoomMade(c, m, m', now)
    ensures forall k :: k in m' ==> !Stale(c, m[k], now)
    ensures var tenth := if c.maxEntries < 20 then 1 else c.maxEntries / 10;
            && ((exists k :: k in m && k !in m' && !Stale(c, m[k], now)) ==> |m'| >= c.maxEntries - tenth)
            && (|m'| <= c.maxEntries - tenth || forall k :: k in m' ==> !Unused(m[k]))
  {
    var gone: set<Key> :| RoomBy(c, m, gone, m', now);
    var rest := WithoutStale(c, m, now);
    assert m'.Keys == rest.Keys - gone && gone <= rest.Keys;
    assert |m'.Keys| == |rest.Keys| - |gone|;
    if k :| k in m && k !in m' && !Stale(c, m[k], now) {
      assert k in gone;
    }
    if |gone| == |UnusedKeys(rest)| {
      SizeOfSubset(gone, UnusedKeys(rest));
      SameSize(gone, UnusedKeys(rest));
    }
  }

  lemma SameSize(a: set<Key>, b: set<Key>)
    requires a <= b && |a| == |b|
    ensures a == b
  {
    assert b == a + (b - a);
  }

  /** After making room, the map with one more client holds at most the maximum, or else no more
      than the clients in use and it. Clients in use stay as they are, stale ones go first, and no
      client that goes failed later than an unused one that stays. */
  lemma RoomIsEnough(c: Config, m: Table, m': Table, now: Instant)
    requires c.maxEntries >= 1 && RoomMade(c, m, m', now)
    ensures |m'| + 1 <= Max(c.maxEntries, InUse(m) + 1)
    ensures forall k :: k in m' ==> k in m && m'[k] == m[k]
    ensures forall k :: k in m && (m[k].strong > 1 || m[k].attempts.inFlight > 0) ==> k in m'
    ensures forall k :: k in m && k !in m' && !Stale(c, m[k], now) ==>
              && (forall other :: other in m' ==> !Stale(c, m[other], now))
              && (forall other :: other in m' && Unused(m[other]) ==> LastFailures(m)[k] <= LastFailures(m)[other])
  {
    var gone: set<Key> :| RoomBy(c, m, gone, m', now);
    RoomSize(c, m, gone, m', now);
    forall k | k in m && k !in m' && !Stale(c, m[k], now)
      ensures (forall other :: other in m' ==> !Stale(c, m[other], now)) &&
              (forall other :: other in m' && Unused(m[other]) ==> LastFailures(m)[k] <= LastFailures(m)[other])
    {
      RoomOrder(c, m, gone, m', now, k);
    }
  }
}
