/** The activities route (src/app/api/activities/route.ts): recording an
    eco-activity, which also adds its share to the user's ALL_TIME
    leaderboard row, and listing activities. */
module Activities {
  import opened Base
  import opened Records
  import opened Scoring
  import opened Database

  /** The JSON body of a POST; an absent field is `None`. The location and
      the metadata are stored as given when present. */
  datatype ActivityRequest = ActivityRequest(
    userId: Option<Id>, kind: Option<string>, location: Option<string>,
    carbonOffset: Option<real>, metadata: Option<Metadata>)

  /** None of userId, type, carbonOffset is falsy. */
  predicate FieldsPresent(req: ActivityRequest) {
    req.userId.Some? && Truthy(req.kind) && NonZero(req.carbonOffset)
  }

  predicate Acceptable(req: ActivityRequest, users: seq<User>) {
    FieldsPresent(req) && req.userId.value < |users|
  }

  /** The handler's guards, in the order it checks them: each reason is
      given exactly when the guards before it pass and its own fails. A
      negative offset is not falsy, so it is accepted. */
  function Rejection(req: ActivityRequest, users: seq<User>): (r: Option<Failure>)
    ensures r.None? <==> Acceptable(req, users)
    ensures r.Some? ==> r.value in {MissingFields, UserNotFound}
    ensures r == Some(MissingFields) <==> !FieldsPresent(req)
    ensures r == Some(UserNotFound) <==> FieldsPresent(req) && req.userId.value >= |users|
  {
    if !FieldsPresent(req) then Some(MissingFields)
    else if req.userId.value >= |users| then Some(UserNotFound)
    else None
  }

  /** The stored activity: PENDING, with a falsy location stored as null. */
  function NewActivity(id: Id, req: ActivityRequest): (a: Activity)
    requires FieldsPresent(req)
    ensures a.id == id && a.userId == req.userId.value && a.kind == req.kind.value
    ensures a.carbonOffset == req.carbonOffset.value && a.metadata == req.metadata
    ensures a.verificationStatus == PENDING
    ensures a.location.Some? <==> Truthy(req.location)
    ensures a.location == if Truthy(req.location) then req.location else None
  {
    Activity(id, req.userId.value, req.kind.value, if Truthy(req.location) then req.location else None,
             req.carbonOffset.value, req.metadata, PENDING)
  }

  /** The leaderboard after the handler's conditional update: the user's
      ALL_TIME row, when there is one, gets the activity's share; without
      such a row nothing changes. */
  function ShareAdded(lb: seq<Entry>, a: Activity): (r: seq<Entry>)
    ensures |r| == |lb|
    ensures !HasEntry(lb, a.userId, ALL_TIME) ==> r == lb
    ensures forall i :: 0 <= i < |lb| && (lb[i].userId != a.userId || lb[i].period != ALL_TIME) ==> r[i] == lb[i]
    ensures OneEntryPerKey(lb) ==>
      forall i :: 0 <= i < |lb| && lb[i].userId == a.userId && lb[i].period == ALL_TIME ==>
        r[i] == lb[i].(stats := Step(lb[i].stats, a))
  {
    match FindEntry(lb, a.userId, ALL_TIME)
    case None => lb
    case Some(k) => lb[k := lb[k].(stats := Step(lb[k].stats, a))]
  }

  /** Adding one activity's share to its user's ALL_TIME row, and to no
      other row, keeps every ALL_TIME row equal to a full recomputation. */
  lemma RecordingKeepsStatsInSync(users: seq<User>, acts: seq<Activity>, lb: seq<Entry>, a: Activity, k: nat)
    requires StatsInSync(users, acts, lb) && OneEntryPerKey(lb)
    requires k < |lb| && lb[k].userId == a.userId && lb[k].period == ALL_TIME
    ensures StatsInSync(users, acts + [a], lb[k := lb[k].(stats := Step(lb[k].stats, a))])
  {
    var lb' := lb[k := lb[k].(stats := Step(lb[k].stats, a))];
    forall u | 0 <= u < |users|
      ensures HasEntry(lb', u, ALL_TIME)
    {
      assert HasEntry(lb, u, ALL_TIME);
      var i :| 0 <= i < |lb| && lb[i].userId == u && lb[i].period == ALL_TIME;
      assert lb'[i].userId == u && lb'[i].period == ALL_TIME;
    }
    forall i | 0 <= i < |lb'| && lb'[i].period == ALL_TIME
      ensures lb'[i].stats == StatsOf(ActivitiesOf(acts + [a], lb'[i].userId))
    {
      var v := lb[i].userId;
      ActivitiesOfAppend(acts, a, v);
      if i == k {
        StatsOfSnoc(ActivitiesOf(acts, v), a);
      } else {
        OtherRowOtherUser(lb, i, k);
        assert ActivitiesOf(acts, v) + [] == ActivitiesOf(acts, v);
      }
    }
  }

  lemma OtherRowOtherUser(lb: seq<Entry>, i: nat, k: nat)
    requires OneEntryPerKey(lb)
    requires i < |lb| && k < |lb| && i != k && lb[i].period == lb[k].period
    ensures lb[i].userId != lb[k].userId
  {
  }

  /** Recording activity `a` of an existing user, with its share added to
      that user's ALL_TIME row `k`, keeps the store consistent. */
  lemma RecordingKeepsConsistent(users: seq<User>, acts: seq<Activity>, credits: seq<Credit>,
                                 orders: seq<Order>, lb: seq<Entry>, badges: seq<Badge>,
                                 grants: seq<UserBadge>, a: Activity, k: nat)
    requires Consistent(users, acts, credits, orders, lb, badges, grants)
    requires a.id == |acts| && a.userId < |users|
    requires k < |lb| && lb[k].userId == a.userId && lb[k].period == ALL_TIME
    ensures Consistent(users, acts + [a], credits, orders, lb[k := lb[k].(stats := Step(lb[k].stats, a))],
                       badges, grants)
  {
    RecordingKeepsStatsInSync(users, acts, lb, a, k);
  }

  /** POST: validate, store the activity, then add its share to the
      user's ALL_TIME row: the offset to the total, the rounded tenfold
      offset to the impact score, and a tree or recycled-weight count by
      type. The handler updates the row only if it finds one; under the
      store invariant every user has one. */
  method RecordActivity(db: Store, req: ActivityRequest) returns (r: Outcome<Activity>)
    requires db.Valid()
    modifies db
    ensures db.Valid()
    ensures r.Rejected? <==> !Acceptable(req, old(db.users))
    ensures r.Rejected? ==> Rejection(req, old(db.users)) == Some(r.reason) && unchanged(db)
    ensures r.Created? ==>
      && r.value == NewActivity(|old(db.activities)|, req)
      && db.activities == old(db.activities) + [r.value]
      && db.leaderboard == ShareAdded(old(db.leaderboard), r.value)
      && HasEntry(old(db.leaderboard), r.value.userId, ALL_TIME)
    ensures db.users == old(db.users) && db.credits == old(db.credits) && db.orders == old(db.orders)
    ensures db.badges == old(db.badges) && db.userBadges == old(db.userBadges)
  {
    var rejection := Rejection(req, db.users);
    if rejection.Some? {
      return Rejected(rejection.value);
    }
    var activity := NewActivity(|db.activities|, req);
    var u := activity.userId;
    var offset := activity.carbonOffset;
    var found := FindEntry(db.leaderboard, u, ALL_TIME);
    match found {
      case Some(k) =>
        var stats := db.leaderboard[k].stats;
        stats := stats.(totalCarbonOffset := stats.totalCarbonOffset + offset,
                        impactScore := stats.impactScore + Round(offset * 10.0));
        if activity.kind == TREE_PLANTING {
          stats := stats.(treesPlanted := stats.treesPlanted + TreeIncrement(req.metadata));
        } else if activity.kind == PLASTIC_RECYCLING {
          stats := stats.(plasticRecycled := stats.plasticRecycled + WeightIncrement(req.metadata));
        }
        assert stats == Step(db.leaderboard[k].stats, activity);
        RecordingKeepsConsistent(db.users, db.activities, db.credits, db.orders, db.leaderboard,
                                 db.badges, db.userBadges, activity, k);
        db.activities, db.leaderboard := db.activities + [activity], db.leaderboard[k := db.leaderboard[k].(stats := stats)];
    }
    r := Created(activity);
  }

  /** GET: all activities, or those of one user, newest first. */
  function ListActivities(acts: seq<Activity>, userId: Option<Id>): (r: seq<Activity>)
    requires ActivitiesIndexed(acts)
    ensures forall i :: 0 <= i < |r| ==> r[i] in acts && (userId.Some? ==> r[i].userId == userId.value)
    ensures forall i :: 0 <= i < |acts| && (userId.Some? ==> acts[i].userId == userId.value) ==> acts[i] in r
    ensures forall i, j :: 0 <= i < j < |r| ==> r[i].id > r[j].id
  {
    var p := (a: Activity) => userId.Some? ==> a.userId == userId.value;
    NewestFirst(acts, p, (a: Activity) => a.id);
    Filter(Reverse(acts), p)
  }
}
