/** The leaderboard route (src/app/api/leaderboard/route.ts): recomputing a
    user's row for a period from their activities, and ranking the rows of
    a period. */
module Leaderboard {
  import opened Base
  import opened Records
  import opened Scoring
  import opened Database

  // ---------------------------------------------------------------- POST

  /** The JSON body of a POST. The period defaults to ALL_TIME only when it
      is absent; an empty period is kept (and upper-cased to itself). */
  datatype RecomputeRequest = RecomputeRequest(userId: Id, period: Option<string>)

  /** The POST body's `period = 'ALL_TIME'` default, then `toUpperCase()`. */
  function PeriodKey(period: Option<string>): (p: string)
    ensures period.None? ==> p == ALL_TIME
    ensures period.Some? ==> p == ToUpper(period.value)
  {
    ToUpper(period.GetOr(ALL_TIME))
  }

  /** The leaderboard with row `e` upserted on its key (userId, period):
      the row with that key is replaced, or `e` is appended when none has it. */
  function Upserted(lb: seq<Entry>, e: Entry): (r: seq<Entry>)
    ensures HasEntry(r, e.userId, e.period)
    ensures |r| == if HasEntry(lb, e.userId, e.period) then |lb| else |lb| + 1
    ensures forall i :: 0 <= i < |lb| && (lb[i].userId != e.userId || lb[i].period != e.period) ==> r[i] == lb[i]
    ensures forall i :: |lb| <= i < |r| ==> r[i] == e
    ensures OneEntryPerKey(lb) ==>
      && OneEntryPerKey(r)
      && forall i :: 0 <= i < |r| && r[i].userId == e.userId && r[i].period == e.period ==> r[i] == e
  {
    match FindEntry(lb, e.userId, e.period)
    case Some(k) =>
      assert lb[k := e][k] == e;
      lb[k := e]
    case None =>
      assert (lb + [e])[|lb|] == e;
      lb + [e]
  }

  /** Upserting the same row twice is upserting it once. */
  lemma UpsertIdempotent(lb: seq<Entry>, e: Entry)
    requires OneEntryPerKey(lb)
    ensures Upserted(Upserted(lb, e), e) == Upserted(lb, e)
  {
  }

  /** Upserting a row for an existing user, whose ALL_TIME row (if that is
      its period) holds the stats of the user's activities, keeps the store
      consistent. */
  lemma UpsertingKeepsConsistent(users: seq<User>, acts: seq<Activity>, credits: seq<Credit>,
                                 orders: seq<Order>, lb: seq<Entry>, badges: seq<Badge>,
                                 grants: seq<UserBadge>, e: Entry)
    requires Consistent(users, acts, credits, orders, lb, badges, grants)
    requires e.userId < |users|
    requires e.period == ALL_TIME ==> e.stats == StatsOf(ActivitiesOf(acts, e.userId))
    ensures Consistent(users, acts, credits, orders, Upserted(lb, e), badges, grants)
  {
    var lb' := Upserted(lb, e);
    forall u | 0 <= u < |users|
      ensures HasEntry(lb', u, ALL_TIME)
    {
      assert HasEntry(lb, u, ALL_TIME);
      var i :| 0 <= i < |lb| && lb[i].userId == u && lb[i].period == ALL_TIME;
      if lb[i].userId != e.userId || lb[i].period != e.period {
        assert lb'[i] == lb[i];
      }
    }
  }

  /** In a consistent store, recomputing a user's ALL_TIME row changes
      nothing: the activities handler's running update agrees with the
      fold. */
  lemma RecomputeAllTimeIsNoOp(users: seq<User>, acts: seq<Activity>, lb: seq<Entry>, u: Id)
    requires StatsInSync(users, acts, lb) && u < |users|
    ensures Upserted(lb, Entry(u, ALL_TIME, StatsOf(ActivitiesOf(acts, u)))) == lb
  {
  }

  /** POST: for an existing user, run the stats loop over all of the user's
      activities (whatever their verification status) and upsert the row
      (userId, upper-cased period) with the result. */
  method Recompute(db: Store, req: RecomputeRequest) returns (r: Outcome<Entry>)
    requires db.Valid()
    modifies db
    ensures db.Valid()
    ensures r.Rejected? <==> req.userId >= |old(db.users)|
    ensures r.Rejected? ==> r.reason == UserNotFound && unchanged(db)
    ensures r.Created? ==>
      && r.value == Entry(req.userId, PeriodKey(req.period), StatsOf(ActivitiesOf(db.activities, req.userId)))
      && db.leaderboard == Upserted(old(db.leaderboard), r.value)
    ensures db.users == old(db.users) && db.activities == old(db.activities) && db.credits == old(db.credits)
    ensures db.orders == old(db.orders) && db.badges == old(db.badges) && db.userBadges == old(db.userBadges)
  {
    if req.userId >= |db.users| {
      return Rejected(UserNotFound);
    }
    var acts := ActivitiesOf(db.activities, req.userId);
    var stats := ComputeStats(acts);
    var entry := Entry(req.userId, PeriodKey(req.period), stats);
    UpsertingKeepsConsistent(db.users, db.activities, db.credits, db.orders, db.leaderboard,
                             db.badges, db.userBadges, entry);
    var found := FindEntry(db.leaderboard, entry.userId, entry.period);
    if found.Some? {
      db.leaderboard := db.leaderboard[found.value := entry];
    } else {
      db.leaderboard := db.leaderboard + [entry];
    }
    r := Created(entry);
  }

  /** The POST sent twice in a row: the second answer equals the first,
      and the leaderboard is left as the first call left it. */
  method RecomputeIdempotent(db: Store, req: RecomputeRequest) returns (first: Outcome<Entry>, second: Outcome<Entry>)
    requires db.Valid()
    modifies db
    ensures db.Valid()
    ensures first == second
    ensures db.leaderboard == if first.Created? then Upserted(old(db.leaderboard), first.value) else old(db.leaderboard)
    ensures db.users == old(db.users) && db.activities == old(db.activities) && db.credits == old(db.credits)
    ensures db.orders == old(db.orders) && db.badges == old(db.badges) && db.userBadges == old(db.userBadges)
  {
    first := Recompute(db, req);
    second := Recompute(db, req);
    if first.Created? {
      UpsertIdempotent(old(db.leaderboard), first.value);
    }
  }

  // ----------------------------------------------------------------- GET

  /** The sort order: descending impactScore, then totalCarbonOffset, then
      treesPlanted, then plasticRecycled. `x` ranks at least as high as `y`. */
  predicate RanksAtLeast(x: Stats, y: Stats) {
    if x.impactScore != y.impactScore then x.impactScore > y.impactScore
    else if x.totalCarbonOffset != y.totalCarbonOffset then x.totalCarbonOffset > y.totalCarbonOffset
    else if x.treesPlanted != y.treesPlanted then x.treesPlanted > y.treesPlanted
    else x.plasticRecycled >= y.plasticRecycled
  }

  /** Any two rows are comparable, and the order is transitive. */
  lemma RanksTotalAndTransitive(x: Stats, y: Stats, z: Stats)
    ensures RanksAtLeast(x, y) || RanksAtLeast(y, x)
    ensures RanksAtLeast(x, y) && RanksAtLeast(y, z) ==> RanksAtLeast(x, z)
  {
  }

  predicate SortedByRank(s: seq<Entry>) {
    forall i, j :: 0 <= i < j < |s| ==> RanksAtLeast(s[i].stats, s[j].stats)
  }

  /** `x` inserted before the first row it ranks at least as high as. */
  function Insert(x: Entry, s: seq<Entry>): (r: seq<Entry>)
    ensures multiset(r) == multiset(s) + multiset{x}
  {
    if s == [] then [x]
    else if RanksAtLeast(x.stats, s[0].stats) then [x] + s
    else
      assert s == [s[0]] + s[1..];
      [s[0]] + Insert(x, s[1..])
  }

  lemma {:induction false} InsertSorted(x: Entry, s: seq<Entry>)
    requires SortedByRank(s)
    ensures SortedByRank(Insert(x, s))
  {
    if s == [] {
    } else if RanksAtLeast(x.stats, s[0].stats) {
      forall j | 0 <= j < |s|
        ensures RanksAtLeast(x.stats, s[j].stats)
      {
        RanksTotalAndTransitive(x.stats, s[0].stats, s[j].stats);
      }
    } else {
      var t := Insert(x, s[1..]);
      InsertSorted(x, s[1..]);
      RanksTotalAndTransitive(x.stats, s[0].stats, x.stats);
      forall j | 0 <= j < |t|
        ensures RanksAtLeast(s[0].stats, t[j].stats)
      {
        assert t[j] in multiset(t);
        if t[j] != x {
          assert t[j] in multiset(s[1..]);
          var m :| 0 <= m < |s[1..]| && s[1..][m] == t[j];
          assert s[m + 1] == t[j];
        }
      }
      var r := [s[0]] + t;
      forall i, j | 0 <= i < j < |r|
        ensures RanksAtLeast(r[i].stats, r[j].stats)
      {
        if i > 0 {
          assert r[i] == t[i - 1] && r[j] == t[j - 1];
        }
      }
    }
  }

  /** The entries in sort order, by insertion. */
  function SortByRank(s: seq<Entry>): (r: seq<Entry>)
    ensures multiset(r) == multiset(s)
    ensures |r| == |s|
  {
    if s == [] then []
    else
      assert s == [s[0]] + s[1..];
      Insert(s[0], SortByRank(s[1..]))
  }

  lemma {:induction false} SortByRankSorted(s: seq<Entry>)
    ensures SortedByRank(SortByRank(s))
  {
    if s != [] {
      SortByRankSorted(s[1..]);
      InsertSorted(s[0], SortByRank(s[1..]));
    }
  }

  /** In a sorted sequence, a row outside the first `n` ranks no higher
      than any of them. */
  lemma PrefixBeatsRest(sorted: seq<Entry>, n: nat, e: Entry)
    requires SortedByRank(sorted) && n <= |sorted|
    requires e in sorted && e !in sorted[..n]
    ensures forall i :: 0 <= i < n ==> RanksAtLeast(sorted[i].stats, e.stats)
  {
  }

  /** The rows of one period, in table order (the `where` of the GET). */
  function RowsOf(lb: seq<Entry>, period: string): seq<Entry> {
    Filter(lb, (e: Entry) => e.period == period)
  }

  /** The smaller of two counts. */
  function Min(a: nat, b: nat): nat {
    if a < b then a else b
  }

  /** The rows of `period`, sorted, and the first `n` of them: as many as
      there are, up to `n`, each taken from the period's rows at most as
      often as it occurs there. */
  function Leaders(lb: seq<Entry>, period: string, n: nat): (r: seq<Entry>)
    ensures |r| == Min(n, |RowsOf(lb, period)|)
    ensures multiset(r) <= multiset(RowsOf(lb, period))
    ensures multiset(r) <= multiset(lb)
    ensures forall i :: 0 <= i < |r| ==> r[i] in lb && r[i].period == period
    ensures SortedByRank(r)
    ensures forall k :: 0 <= k < |lb| && lb[k].period == period && lb[k] !in r ==>
      |r| == n && forall i :: 0 <= i < |r| ==> RanksAtLeast(r[i].stats, lb[k].stats)
  {
    var inPeriod := RowsOf(lb, period);
    var sorted := SortByRank(inPeriod);
    SortByRankSorted(inPeriod);
    var m := Min(n, |sorted|);
    var r := sorted[..m];
    LeadersFacts(lb, period, inPeriod, sorted, m, r);
    FilterSubMultiset(lb, (e: Entry) => e.period == period);
    r
  }

  lemma LeadersFacts(lb: seq<Entry>, period: string, inPeriod: seq<Entry>, sorted: seq<Entry>, m: nat,
                     r: seq<Entry>)
    requires inPeriod == RowsOf(lb, period)
    requires SortedByRank(sorted) && multiset(sorted) == multiset(inPeriod)
    requires m <= |sorted| && r == sorted[..m]
    ensures multiset(r) <= multiset(inPeriod)
    ensures forall i :: 0 <= i < |r| ==> r[i] in lb && r[i].period == period
    ensures SortedByRank(r)
    ensures forall k :: 0 <= k < |lb| && lb[k].period == period && lb[k] !in r ==>
      m < |sorted| && forall i :: 0 <= i < |r| ==> RanksAtLeast(r[i].stats, lb[k].stats)
  {
    assert sorted == r + sorted[m..];
    assert multiset(sorted) == multiset(r) + multiset(sorted[m..]);
    assert forall i :: 0 <= i < |r| ==> r[i] == sorted[i];
    forall i | 0 <= i < |r|
      ensures r[i] in lb && r[i].period == period
    {
      assert sorted[i] in multiset(inPeriod);
    }
    forall k | 0 <= k < |lb| && lb[k].period == period && lb[k] !in r
      ensures m < |sorted| && forall i :: 0 <= i < |r| ==> RanksAtLeast(r[i].stats, lb[k].stats)
    {
      assert lb[k] in inPeriod;
      assert lb[k] in multiset(sorted);
      var j :| 0 <= j < |sorted| && sorted[j] == lb[k];
      assert j >= m;
      PrefixBeatsRest(sorted, m, lb[k]);
    }
  }

  /** A row of the GET response: the entry and its rank. */
  datatype Standing = Standing(entry: Entry, rank: nat)

  /** `map((entry, index) => ({ ...entry, rank: index + 1 }))`. */
  function Ranked(s: seq<Entry>): (r: seq<Standing>)
    ensures |r| == |s|
    ensures forall i :: 0 <= i < |r| ==> r[i].entry == s[i] && r[i].rank == i + 1
  {
    seq(|s|, i requires 0 <= i < |s| => Standing(s[i], i + 1))
  }

  /** `searchParams.get('period') || 'ALL_TIME'`, upper-cased: an empty
      period also means ALL_TIME here. */
  function PeriodFilter(period: Option<string>): (p: string)
    ensures !Truthy(period) ==> p == ALL_TIME
    ensures Truthy(period) ==> p == ToUpper(period.value)
  {
    ToUpper(if Truthy(period) then period.value else ALL_TIME)
  }

  /** `limit` parsed, or 10 when absent. */
  function LimitOr10(limit: Option<nat>): (n: nat)
    ensures limit.None? ==> n == 10
    ensures limit.Some? ==> n == limit.value
  {
    limit.GetOr(10)
  }

  /** The entries of a response, without their ranks. */
  function Entries(r: seq<Standing>): seq<Entry> {
    seq(|r|, i requires 0 <= i < |r| => r[i].entry)
  }

  /** GET: the rows of the period, sorted, the first `limit` of them, ranked
      from 1 in that order. As many rows as the period has, up to `limit`,
      none repeated beyond its occurrences in the table; a row of the period
      that is not listed ranks no higher than any listed row, and is left
      out only when the list is full. */
  function Standings(lb: seq<Entry>, period: Option<string>, limit: Option<nat>): (r: seq<Standing>)
    ensures |r| == Min(LimitOr10(limit), |RowsOf(lb, PeriodFilter(period))|)
    ensures multiset(Entries(r)) <= multiset(RowsOf(lb, PeriodFilter(period)))
    ensures multiset(Entries(r)) <= multiset(lb)
    ensures forall i :: 0 <= i < |r| ==> r[i].rank == i + 1
    ensures forall i :: 0 <= i < |r| ==> r[i].entry in lb && r[i].entry.period == PeriodFilter(period)
    ensures forall i, j :: 0 <= i < j < |r| ==> RanksAtLeast(r[i].entry.stats, r[j].entry.stats)
    ensures forall k :: 0 <= k < |lb| && lb[k].period == PeriodFilter(period) ==>
      (exists i :: 0 <= i < |r| && r[i].entry == lb[k])
      || (|r| == LimitOr10(limit) && forall i :: 0 <= i < |r| ==> RanksAtLeast(r[i].entry.stats, lb[k].stats))
  {
    var leaders := Leaders(lb, PeriodFilter(period), LimitOr10(limit));
    var r := Ranked(leaders);
    assert Entries(r) == leaders;
    forall k | 0 <= k < |lb| && lb[k] in leaders
      ensures exists i :: 0 <= i < |r| && r[i].entry == lb[k]
    {
      var i :| 0 <= i < |leaders| && leaders[i] == lb[k];
      assert r[i].entry == lb[k];
    }
    r
  }
}
