/**
 * The `Analytics` object as a pure state transform: `recordQuery` maps the
 * stored data to the next data, and the read-only queries summarise it.
 * Timestamps are milliseconds since the epoch; `toISOString` and
 * `new Date(...)` convert them to text and back without loss.
 */
module Analytics {
  import opened Wrappers
  import opened JsObject
  import opened StableSort

  /** The `topDiagnosis` argument: a disease's name, id and score. */
  datatype Diagnosis = Diagnosis(name: string, id: int, score: real)

  /** One recorded query. */
  datatype SessionEntry = SessionEntry(
    userEmail: string,
    timestamp: int,
    symptomsSelected: nat,
    symptoms: seq<int>,
    topDiagnosis: string,
    topDiagnosisId: Option<int>,
    topDiagnosisScore: real)

  /** Per-user counters. */
  datatype UserStat = UserStat(firstLogin: int, lastActive: int, queriesCount: nat, lastQuery: Option<SessionEntry>)

  /**
   * The stored analytics. The two trend tables are objects whose
   * enumeration order matters for ties, so they keep creation order;
   * `symptomTrends` is keyed by symptom id, `diagnosisTrends` by name.
   */
  datatype Data = Data(
    sessions: seq<SessionEntry>,
    symptomTrends: seq<(int, nat)>,
    diagnosisTrends: seq<(string, nat)>,
    userStats: map<string, UserStat>)

  /** What `getAnalytics` returns when nothing is stored. */
  const Empty: Data := Data([], [], [], map[])

  /** `analytics.sessions.slice(-1000)` keeps at most this many. */
  const MaxSessions: nat := 1000

  /** `getDetailedStats` shows this many recent sessions. */
  const RecentCount: nat := 50

  function Min(a: nat, b: nat): nat {
    if a <= b then a else b
  }

  /** `s.slice(-n)` for `n > 0`: the last `n` elements, or all of them. */
  function LastN<T>(s: seq<T>, n: nat): (r: seq<T>)
    ensures |r| == Min(|s|, n)
    ensures forall i :: 0 <= i < |r| ==> r[i] == s[|s| - |r| + i]
  {
    if |s| > n then s[|s| - n..] else s
  }

  /** The session object `recordQuery` builds, with its fallbacks for a missing diagnosis. */
  function EntryFor(email: string, ids: seq<int>, top: Option<Diagnosis>, now: int): (e: SessionEntry)
    ensures e.userEmail == email && e.timestamp == now
    ensures e.symptomsSelected == |ids| && e.symptoms == ids
    ensures top.None? ==> e.topDiagnosis == "None" && e.topDiagnosisId == None && e.topDiagnosisScore == 0.0
    ensures top.Some? ==> e.topDiagnosisScore == top.value.score
    ensures top.Some? && top.value.name != [] ==> e.topDiagnosis == top.value.name
    ensures top.Some? && top.value.name == [] ==> e.topDiagnosis == "None"
    ensures e.topDiagnosisId.Some? <==> top.Some? && top.value.id != 0
    ensures e.topDiagnosisId.Some? ==> e.topDiagnosisId.value == top.value.id
  {
    SessionEntry(email, now, |ids|, ids,
      if top.Some? && top.value.name != [] then top.value.name else "None",
      if top.Some? && top.value.id != 0 then Some(top.value.id) else None,
      if top.Some? then top.value.score else 0.0)
  }

  /** `trends[k] || 0`. */
  function Count<K(==)>(trends: seq<(K, nat)>, k: K): nat {
    Get(trends, k).GetOr(0)
  }

  /** `trends[k] = (trends[k] || 0) + 1`. */
  function Bump<K(==)>(trends: seq<(K, nat)>, k: K): seq<(K, nat)> {
    var v: nat := Count(trends, k) + 1;
    Put<K, nat>(trends, k, v)
  }

  /** One bump raises exactly the bumped key's count, by one. */
  lemma BumpCount<K>(trends: seq<(K, nat)>, k: K, k': K)
    ensures Count(Bump(trends, k), k') == Count(trends, k') + if k' == k then 1 else 0
  {
    var v: nat := Count(trends, k) + 1;
    GetAfterPut<K, nat>(trends, k, v, k');
  }

  /** The `forEach` over the selected ids. */
  function BumpAll(trends: seq<(int, nat)>, ids: seq<int>): seq<(int, nat)>
    decreases |ids|
  {
    if ids == [] then trends
    else
      var n := |ids| - 1;
      Bump(BumpAll(trends, ids[..n]), ids[n])
  }

  /** Every id's count rises by the number of times it was selected. */
  lemma {:induction false} BumpAllCount(trends: seq<(int, nat)>, ids: seq<int>, k: int)
    ensures Count(BumpAll(trends, ids), k) == Count(trends, k) + multiset(ids)[k]
    decreases |ids|
  {
    if ids != [] {
      var n := |ids| - 1;
      var prefix := BumpAll(trends, ids[..n]);
      BumpAllCount(trends, ids[..n], k);
      BumpCount(prefix, ids[n], k);
      LastOccurrence(ids, k);
    }
  }

  lemma LastOccurrence(ids: seq<int>, k: int)
    requires ids != []
    ensures multiset(ids)[k] == multiset(ids[..|ids| - 1])[k] + if ids[|ids| - 1] == k then 1 else 0
  {
    assert ids == ids[..|ids| - 1] + [ids[|ids| - 1]];
  }

  /** The trend tables keep one property per key. */
  lemma {:induction false} BumpAllUnique(trends: seq<(int, nat)>, ids: seq<int>)
    requires UniqueKeys(trends)
    ensures UniqueKeys(BumpAll(trends, ids))
    decreases |ids|
  {
    if ids != [] {
      var n := |ids| - 1;
      BumpAllUnique(trends, ids[..n]);
      BumpUnique(BumpAll(trends, ids[..n]), ids[n]);
    }
  }

  /** Counting one more occurrence keeps one entry per key. */
  lemma BumpUnique<K>(trends: seq<(K, nat)>, k: K)
    requires UniqueKeys(trends)
    ensures UniqueKeys(Bump(trends, k))
  {
    var v: nat := Count(trends, k) + 1;
    PutUnique<K, nat>(trends, k, v);
  }

  /** The user-stats update: create on first query, then count it and stamp it. */
  function Touch(stats: map<string, UserStat>, email: string, entry: SessionEntry, now: int): map<string, UserStat> {
    var base := if email in stats then stats[email] else UserStat(now, now, 0, None);
    stats[email := base.(lastActive := now, queriesCount := base.queriesCount + 1, lastQuery := Some(entry))]
  }

  /** `recordQuery(userEmail, selectedSymptomIds, topDiagnosis)` at time `now`. */
  function RecordQuery(data: Data, email: string, ids: seq<int>, top: Option<Diagnosis>, now: int): Data {
    var entry := EntryFor(email, ids, top, now);
    var diagnoses := if top.Some? then Bump(data.diagnosisTrends, top.value.name) else data.diagnosisTrends;
    var sessions := data.sessions + [entry];
    Data(
      if |sessions| > MaxSessions then LastN(sessions, MaxSessions) else sessions,
      BumpAll(data.symptomTrends, ids),
      diagnoses,
      Touch(data.userStats, email, entry, now))
  }

  /**
   * The session list afterwards is the most recent part of the old list
   * followed by the new entry, at most 1000 long.
   */
  lemma RecordQuerySessions(data: Data, email: string, ids: seq<int>, top: Option<Diagnosis>, now: int)
    ensures var s := RecordQuery(data, email, ids, top, now).sessions;
      var all := data.sessions + [EntryFor(email, ids, top, now)];
      && |s| == Min(|data.sessions| + 1, MaxSessions)
      && s[|s| - 1] == EntryFor(email, ids, top, now)
      && forall i :: 0 <= i < |s| ==> s[i] == all[|all| - |s| + i]
  {
  }

  /**
   * Each selected symptom's count rises by its number of occurrences in the
   * selection, the top diagnosis's name gains one when there is one, and
   * nothing else changes.
   */
  lemma RecordQueryTrends(data: Data, email: string, ids: seq<int>, top: Option<Diagnosis>, now: int, k: int, name: string)
    ensures var d := RecordQuery(data, email, ids, top, now);
      && Count(d.symptomTrends, k) == Count(data.symptomTrends, k) + multiset(ids)[k]
      && Count(d.diagnosisTrends, name) ==
         Count(data.diagnosisTrends, name) + if top.Some? && top.value.name == name then 1 else 0
  {
    BumpAllCount(data.symptomTrends, ids, k);
    if top.Some? {
      BumpCount(data.diagnosisTrends, top.value.name, name);
    }
  }

  /**
   * The querying user gets one more query and `lastActive == now`; the first
   * query sets `firstLogin`, later ones keep it; other users are untouched.
   */
  lemma RecordQueryUserStats(data: Data, email: string, ids: seq<int>, top: Option<Diagnosis>, now: int)
    ensures var stats := RecordQuery(data, email, ids, top, now).userStats;
      && stats.Keys == data.userStats.Keys + {email}
      && stats[email].lastActive == now
      && stats[email].queriesCount == (if email in data.userStats then data.userStats[email].queriesCount else 0) + 1
      && stats[email].firstLogin == (if email in data.userStats then data.userStats[email].firstLogin else now)
      && stats[email].lastQuery == Some(EntryFor(email, ids, top, now))
      && forall e :: e in data.userStats && e != email ==> stats[e] == data.userStats[e]
  {
  }

  /** The shape `recordQuery` keeps: at most 1000 sessions, one property per trend key. */
  ghost predicate Valid(data: Data) {
    && |data.sessions| <= MaxSessions
    && UniqueKeys(data.symptomTrends)
    && UniqueKeys(data.diagnosisTrends)
  }

  lemma RecordQueryPreservesValid(data: Data, email: string, ids: seq<int>, top: Option<Diagnosis>, now: int)
    requires Valid(data)
    ensures Valid(RecordQuery(data, email, ids, top, now))
  {
    var d := RecordQuery(data, email, ids, top, now);
    BumpAllUnique(data.symptomTrends, ids);
    if top.Some? {
      BumpUnique(data.diagnosisTrends, top.value.name);
    }
    assert |d.sessions| <= MaxSessions;
  }

  function ByCount<K>(e: (K, nat)): real {
    e.1 as real
  }

  /** `Object.entries(items)`. */
  function EntriesOf<K>(items: seq<(K, nat)>, index: K -> Option<nat>): (es: seq<(K, nat)>)
    ensures multiset(es) == multiset(items)
  {
    OwnEntries<K, nat>(items, index)
  }

  /** The entries sorted by count, most frequent first; ties keep enumeration order. */
  function ByFrequency<K>(items: seq<(K, nat)>, index: K -> Option<nat>): (sorted: seq<(K, nat)>)
    ensures |sorted| == |items|
    ensures NonIncreasing(sorted, ByCount)
    ensures multiset(sorted) == multiset(items)
  {
    var es := EntriesOf(items, index);
    var sorted := SortDesc<(K, nat)>(es, ByCount);
    SortDescNonIncreasing<(K, nat)>(es, ByCount);
    sorted
  }

  /**
   * `getTopItems(items, limit)`: the entries in enumeration order, sorted
   * by count, most frequent first (ties keep enumeration order), cut to
   * `limit`.
   */
  function TopItems<K>(items: seq<(K, nat)>, index: K -> Option<nat>, limit: nat): (top: seq<(K, nat)>)
    ensures |top| == Min(|items|, limit)
    ensures NonIncreasing(top, ByCount)
    ensures multiset(top) <= multiset(items)
  {
    var sorted := ByFrequency(items, index);
    var top := sorted[..Min(|sorted|, limit)];
    PrefixOfSorted(sorted, ByCount, |top|);
    top
  }

  /**
   * The cut keeps the most frequent: an entry counted strictly more often
   * than the last one returned is returned, and with at most `limit`
   * entries all are.
   */
  lemma TopItemsKeepBest<K>(items: seq<(K, nat)>, index: K -> Option<nat>, limit: nat, k: nat)
    requires k < |items| && limit > 0
    ensures var top := TopItems(items, index, limit);
      |items| <= limit || items[k].1 > top[|top| - 1].1 ==> items[k] in top
  {
    var sorted := ByFrequency(items, index);
    var top := TopItems(items, index, limit);
    assert top == sorted[..|top|];
    if |items| <= limit || items[k].1 > top[|top| - 1].1 {
      CutOfFrequencies(items, sorted, top, k);
    }
  }

  /** The same cut, for any reordering of the entries sorted by count. */
  lemma CutOfFrequencies<K>(items: seq<(K, nat)>, sorted: seq<(K, nat)>, top: seq<(K, nat)>, k: nat)
    requires NonIncreasing(sorted, ByCount) && multiset(sorted) == multiset(items)
    requires 0 < |top| <= |sorted| && top == sorted[..|top|] && k < |items|
    requires |top| == |sorted| || items[k].1 > top[|top| - 1].1
    ensures items[k] in top
  {
    var x := items[k];
    assert x in multiset(sorted);
    CutKeepsBest(sorted, ByCount, |top|, x);
  }

  /** The users with more than one query. */
  function Returning(stats: map<string, UserStat>): set<string> {
    set e | e in stats && stats[e].queriesCount > 1
  }

  lemma {:induction false} SubsetCard<T>(a: set<T>, b: set<T>)
    requires a <= b
    ensures |a| <= |b|
    decreases |b|
  {
    if a != {} {
      var x :| x in a;
      SubsetCard(a - {x}, b - {x});
    }
  }

  /**
   * `calculateRetention`: the share of users with more than one query, as
   * a whole percentage rounded half up, and 0 with no users.
   */
  function Retention(stats: map<string, UserStat>): (r: nat)
    ensures r <= 100
    ensures |stats| == 0 ==> r == 0
    ensures |stats| > 0 ==>
              var pct := 100.0 * (|Returning(stats)| as real) / (|stats| as real);
              (r as real) - 0.5 <= pct < (r as real) + 0.5
  {
    var total := |stats|;
    var multi := |Returning(stats)|;
    SubsetCard(Returning(stats), stats.Keys);
    if total == 0 then 0
    else
      var r := (200 * multi + total) / (2 * total);
      RoundHalfUp(multi, total, r);
      r
  }

  lemma RoundHalfUp(multi: nat, total: nat, r: int)
    requires 0 < total && multi <= total && r == (200 * multi + total) / (2 * total)
    ensures 0 <= r <= 100
    ensures (r as real) - 0.5 <= 100.0 * (multi as real) / (total as real) < (r as real) + 0.5
  {
    DivisionBounds(200 * multi + total, 2 * total, r);
    assert r * (2 * total) == 2 * r * total;
    RoundReal(multi, total, r);
  }

  lemma DivisionBounds(a: nat, b: nat, q: int)
    requires b > 0 && q == a / b
    ensures q * b <= a < q * b + b
  {
    assert a == q * b + a % b;
  }

  lemma RoundReal(multi: nat, total: nat, r: int)
    requires 0 < total && multi <= total
    requires 2 * r * total - total <= 200 * multi < 2 * r * total + total
    ensures 0 <= r <= 100
    ensures (r as real) - 0.5 <= 100.0 * (multi as real) / (total as real) < (r as real) + 0.5
  {
    RoundRange(multi, total, r);
    ScaledBounds(multi, total, r);
    DivideBounds((r as real) - 0.5, (r as real) + 0.5, 100.0 * (multi as real), total as real);
  }

  /** The rounded percentage lies in [0, 100]. */
  lemma RoundRange(multi: nat, total: nat, r: int)
    requires 0 < total && multi <= total
    requires 2 * r * total - total <= 200 * multi < 2 * r * total + total
    ensures 0 <= r <= 100
  {
    assert 0 < (2 * r + 1) * total;
    FactorPositive(2 * r + 1, total);
    assert (2 * r - 1) * total <= 200 * total;
    FactorAtMost(2 * r - 1, 200, total);
  }

  lemma FactorPositive(a: int, t: int)
    requires t > 0 && a * t > 0
    ensures a > 0
  {
  }

  lemma FactorAtMost(a: int, b: int, t: int)
    requires t > 0 && a * t <= b * t
    ensures a <= b
  {
  }

  /** The integer bounds on `200 * multi`, read over the reals. */
  lemma ScaledBounds(multi: nat, total: nat, r: int)
    requires 2 * r * total - total <= 200 * multi < 2 * r * total + total
    ensures var t := total as real;
      ((r as real) - 0.5) * t <= 100.0 * (multi as real) < ((r as real) + 0.5) * t
  {
    var t := total as real;
    var x := r * total;
    CastProduct(r, total);
    assert 2 * x - total <= 200 * multi < 2 * x + total;
    assert 2.0 * (x as real) - t <= 200.0 * (multi as real) < 2.0 * (x as real) + t;
    assert ((r as real) - 0.5) * t == (x as real) - 0.5 * t;
    assert ((r as real) + 0.5) * t == (x as real) + 0.5 * t;
  }

  /** Dividing bounds on `y` by a positive `t`. */
  lemma DivideBounds(lo: real, hi: real, y: real, t: real)
    requires t > 0.0 && lo * t <= y < hi * t
    ensures lo <= y / t < hi
  {
    QuotientTimesDivisor(y, t);
    var q := y / t;
    assert t * lo <= q * t;
    assert q * t < t * hi;
    ScaleDown(t, lo, q);
    ScaleDownStrict(t, q, hi);
  }

  lemma CastProduct(a: int, b: int)
    ensures (a * b) as real == (a as real) * (b as real)
  {
  }

  lemma QuotientTimesDivisor(x: real, t: real)
    requires t > 0.0
    ensures (x / t) * t == x
  {
  }

  lemma ScaleDown(c: real, x: real, y: real)
    requires c > 0.0 && c * x <= y * c
    ensures x <= y
  {
  }

  lemma ScaleDownStrict(c: real, x: real, y: real)
    requires c > 0.0 && x * c < c * y
    ensures x < y
  {
  }

  const DayMs: int := 24 * 60 * 60 * 1000

  /** `sessions.filter(s => s.timestamp > since).length`. */
  function CountAfter(sessions: seq<SessionEntry>, since: int): (n: nat)
    ensures n <= |sessions|
    decreases |sessions|
  {
    if sessions == [] then 0
    else
      var n := |sessions| - 1;
      CountAfter(sessions[..n], since) + if sessions[n].timestamp > since then 1 else 0
  }

  /** A later cut-off counts no more sessions. */
  lemma {:induction false} CountAfterAntitone(sessions: seq<SessionEntry>, early: int, late: int)
    requires early <= late
    ensures CountAfter(sessions, late) <= CountAfter(sessions, early)
    decreases |sessions|
  {
    if sessions != [] {
      CountAfterAntitone(sessions[..|sessions| - 1], early, late);
    }
  }

  datatype Summary = Summary(
    totalSessions: nat,
    totalUsers: nat,
    last7Days: nat,
    last30Days: nat,
    topSymptoms: seq<(int, nat)>,
    topDiagnoses: seq<(string, nat)>,
    userRetention: nat)

  /** `getSummary()` at time `now`. */
  function GetSummary(data: Data, now: int): (s: Summary)
    ensures s.last7Days <= s.last30Days <= s.totalSessions == |data.sessions|
    ensures s.totalUsers == |data.userStats| && s.userRetention <= 100
    ensures |s.topSymptoms| == Min(|data.symptomTrends|, 10)
    ensures |s.topDiagnoses| == Min(|data.diagnosisTrends|, 10)
  {
    CountAfterAntitone(data.sessions, now - 30 * DayMs, now - 7 * DayMs);
    Summary(
      |data.sessions|,
      |data.userStats|,
      CountAfter(data.sessions, now - 7 * DayMs),
      CountAfter(data.sessions, now - 30 * DayMs),
      TopItems(data.symptomTrends, IntIndex, 10),
      TopItems(data.diagnosisTrends, StringIndex, 10),
      Retention(data.userStats))
  }

  /** The `recentSessions` of `getDetailedStats`: the last 50, oldest first. */
  function RecentSessions(data: Data): seq<SessionEntry> {
    LastN(data.sessions, RecentCount)
  }

  /** Right after a query, it is the newest of the recent sessions. */
  lemma RecordedIsMostRecent(data: Data, email: string, ids: seq<int>, top: Option<Diagnosis>, now: int)
    ensures var recent := RecentSessions(RecordQuery(data, email, ids, top, now));
      |recent| > 0 && recent[|recent| - 1] == EntryFor(email, ids, top, now)
  {
    RecordQuerySessions(data, email, ids, top, now);
  }
}
