/** The overview page (src/pages/dashboard/Dashboard.tsx): three counts over
    the user's keys that are not soft-deleted, taken relative to the
    instant the counts are computed. */
module Dashboard {
  import opened Wrappers
  import opened Seqs
  import opened Store

  /** One day in milliseconds. */
  const DayMs: int := 24 * 60 * 60 * 1000

  datatype Stats = Stats(totalKeys: nat, recentlyUsed: nat, expiringSoon: nat)

  /** The counts shown before the first fetch completes. */
  const InitialStats := Stats(0, 0, 0)

  /** Last used after the instant seven days before `now`. */
  predicate RecentlyUsed(k: ApiKeyRecord, now: Instant)
  {
    k.lastUsedAt.Some? && k.lastUsedAt.value > now - 7 * DayMs
  }

  /** Expiring strictly after `now` and strictly before thirty days after it. */
  predicate ExpiringSoon(k: ApiKeyRecord, now: Instant)
  {
    k.expiresAt.Some? && now < k.expiresAt.value < now + 30 * DayMs
  }

  function UsedFilter(now: Instant): ApiKeyRecord -> bool
  {
    (k: ApiKeyRecord) => RecentlyUsed(k, now)
  }

  function ExpiringFilter(now: Instant): ApiKeyRecord -> bool
  {
    (k: ApiKeyRecord) => ExpiringSoon(k, now)
  }

  /** The object passed to `setStats` for the fetched keys. */
  function ComputeStats(keys: seq<ApiKeyRecord>, now: Instant): (s: Stats)
    ensures s.totalKeys == |keys|
    ensures s.recentlyUsed <= s.totalKeys && s.expiringSoon <= s.totalKeys
    ensures s.recentlyUsed == |set i | 0 <= i < |keys| && RecentlyUsed(keys[i], now)|
    ensures s.expiringSoon == |set i | 0 <= i < |keys| && ExpiringSoon(keys[i], now)|
  {
    FilterLengthIsPositionCount(keys, UsedFilter(now));
    FilterLengthIsPositionCount(keys, ExpiringFilter(now));
    assert Positions(keys, UsedFilter(now)) == set i | 0 <= i < |keys| && RecentlyUsed(keys[i], now);
    assert Positions(keys, ExpiringFilter(now)) == set i | 0 <= i < |keys| && ExpiringSoon(keys[i], now);
    Stats(|keys|, |Filter(keys, UsedFilter(now))|, |Filter(keys, ExpiringFilter(now))|)
  }

  /** `fetchStats`: the user's rows that are not soft-deleted, counted at
      `now`; when the query returns no data (`fails`) the shown counts stay
      as they were. */
  function FetchStats(rows: seq<ApiKeyRecord>, userId: string, fails: bool, previous: Stats, now: Instant): (s: Stats)
    ensures fails ==> s == previous
    ensures !fails ==> s.totalKeys == |set i | 0 <= i < |rows| && IsActiveOf(userId, rows[i])|
    ensures !fails ==> s == ComputeStats(ActiveOf(rows, userId), now)
  {
    if fails then previous
    else
      FilterLengthIsPositionCount(rows, ActiveFilter(userId));
      assert Positions(rows, ActiveFilter(userId)) == set i | 0 <= i < |rows| && IsActiveOf(userId, rows[i]);
      ComputeStats(ActiveOf(rows, userId), now)
  }

  /** The counts shown before the first fetch are those of a user with no
      keys, and a successful fetch for a user whose rows are all someone
      else's or soft-deleted shows them again. */
  lemma InitialStatsAreEmptyCounts(rows: seq<ApiKeyRecord>, userId: string, previous: Stats, now: Instant)
    ensures InitialStats == ComputeStats([], now)
    ensures (forall i :: 0 <= i < |rows| ==> !IsActiveOf(userId, rows[i]))
            ==> FetchStats(rows, userId, false, previous, now) == InitialStats
  {
  }

  /** The total on the overview is the number of rows the key list shows. */
  lemma TotalMatchesKeyList(rows: seq<ApiKeyRecord>, userId: string, now: Instant)
    ensures ComputeStats(ActiveOf(rows, userId), now).totalKeys == |KeysQuery(rows, userId)|
  {
    assert |multiset(KeysQuery(rows, userId))| == |multiset(ActiveOf(rows, userId))|;
  }

  /** Both ends of the expiry window are excluded: a key expiring at `now`
      or exactly thirty days later is not counted, one expiring 29 days
      later is, one expiring 31 days later is not. */
  lemma ExpiryWindowBounds(k: ApiKeyRecord, now: Instant)
    ensures k.expiresAt == Some(now) ==> !ExpiringSoon(k, now)
    ensures k.expiresAt == Some(now + 29 * DayMs) ==> ExpiringSoon(k, now)
    ensures k.expiresAt == Some(now + 30 * DayMs) ==> !ExpiringSoon(k, now)
    ensures k.expiresAt == Some(now + 31 * DayMs) ==> !ExpiringSoon(k, now)
  {
  }

  /** The seven-day window excludes its start: a key last used exactly seven
      days ago is not counted, one used six days ago is. */
  lemma UsageWindowBounds(k: ApiKeyRecord, now: Instant)
    ensures k.lastUsedAt == Some(now - 7 * DayMs) ==> !RecentlyUsed(k, now)
    ensures k.lastUsedAt == Some(now - 6 * DayMs) ==> RecentlyUsed(k, now)
  {
  }

  /** A key without a last-use date adds nothing to the recently-used count,
      and one without an expiry date adds nothing to the expiring count,
      wherever it stands in the list. */
  lemma NullDatesDoNotCount(a: seq<ApiKeyRecord>, k: ApiKeyRecord, b: seq<ApiKeyRecord>, now: Instant)
    ensures k.lastUsedAt.None? ==> ComputeStats(a + [k] + b, now).recentlyUsed == ComputeStats(a + b, now).recentlyUsed
    ensures k.expiresAt.None? ==> ComputeStats(a + [k] + b, now).expiringSoon == ComputeStats(a + b, now).expiringSoon
  {
    FilterConcat(a + [k], b, UsedFilter(now));
    FilterConcat(a, [k], UsedFilter(now));
    FilterConcat(a, b, UsedFilter(now));
    FilterConcat(a + [k], b, ExpiringFilter(now));
    FilterConcat(a, [k], ExpiringFilter(now));
    FilterConcat(a, b, ExpiringFilter(now));
  }

  /** As time passes the recently-used count can only fall. */
  lemma RecentlyUsedFalls(keys: seq<ApiKeyRecord>, earlier: Instant, later: Instant)
    requires earlier <= later
    ensures ComputeStats(keys, later).recentlyUsed <= ComputeStats(keys, earlier).recentlyUsed
  {
    FilterWeaker(keys, UsedFilter(later), UsedFilter(earlier));
  }
}
