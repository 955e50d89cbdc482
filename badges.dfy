/** The badges route (src/app/api/badges/route.ts): awarding a badge to a
    user, at most once per (user, badge), and listing badges. */
module Badges {
  import opened Base
  import opened Records
  import opened Database

  /** The JSON body of a POST; an absent field is `None`. */
  datatype AwardRequest = AwardRequest(userId: Option<Id>, badgeId: Option<Id>)

  /** Neither userId nor badgeId is falsy. */
  predicate FieldsPresent(req: AwardRequest) {
    req.userId.Some? && req.badgeId.Some?
  }

  /** User `u` already holds badge `b`. */
  predicate Holds(grants: seq<UserBadge>, u: Id, b: Id) {
    exists i :: 0 <= i < |grants| && grants[i].userId == u && grants[i].badgeId == b
  }

  predicate Acceptable(req: AwardRequest, users: seq<User>, badges: seq<Badge>, grants: seq<UserBadge>) {
    && FieldsPresent(req)
    && req.userId.value < |users|
    && req.badgeId.value < |badges|
    && !Holds(grants, req.userId.value, req.badgeId.value)
  }

  /** The handler's guards, in the order it checks them: each reason is
      given exactly when the guards before it pass and its own fails.
      Awarding a badge the user already holds is refused, not silently
      accepted. */
  function Rejection(req: AwardRequest, users: seq<User>, badges: seq<Badge>, grants: seq<UserBadge>)
    : (r: Option<Failure>)
    ensures r.None? <==> Acceptable(req, users, badges, grants)
    ensures r.Some? ==> r.value in {MissingFields, UserNotFound, BadgeNotFound, BadgeAlreadyHeld}
    ensures r == Some(MissingFields) <==> !FieldsPresent(req)
    ensures r == Some(UserNotFound) <==> FieldsPresent(req) && req.userId.value >= |users|
    ensures r == Some(BadgeNotFound) <==>
      FieldsPresent(req) && req.userId.value < |users| && req.badgeId.value >= |badges|
    ensures r == Some(BadgeAlreadyHeld) <==>
      FieldsPresent(req) && req.userId.value < |users| && req.badgeId.value < |badges|
      && Holds(grants, req.userId.value, req.badgeId.value)
  {
    if !FieldsPresent(req) then Some(MissingFields)
    else if req.userId.value >= |users| then Some(UserNotFound)
    else if req.badgeId.value >= |badges| then Some(BadgeNotFound)
    else if Holds(grants, req.userId.value, req.badgeId.value) then Some(BadgeAlreadyHeld)
    else None
  }

  /** Appending a grant the user does not hold yet keeps at most one grant
      per (user, badge). */
  lemma AwardingKeepsOneGrantPerBadge(grants: seq<UserBadge>, g: UserBadge)
    requires OneGrantPerBadge(grants) && !Holds(grants, g.userId, g.badgeId)
    ensures OneGrantPerBadge(grants + [g])
  {
  }

  /** The POST response: the grant together with the badge it is for. */
  datatype Award = Award(grant: UserBadge, badge: Badge)

  /** POST: validate, then record that the user earned the badge at `now`
      (the clock is a parameter). */
  method AwardBadge(db: Store, req: AwardRequest, now: int) returns (r: Outcome<Award>)
    requires db.Valid()
    modifies db
    ensures db.Valid()
    ensures r.Rejected? <==> !Acceptable(req, old(db.users), old(db.badges), old(db.userBadges))
    ensures r.Rejected? ==>
      Rejection(req, old(db.users), old(db.badges), old(db.userBadges)) == Some(r.reason) && unchanged(db)
    ensures r.Created? ==>
      && r.value.grant == UserBadge(|old(db.userBadges)|, req.userId.value, req.badgeId.value, now)
      && req.badgeId.value < |db.badges| && r.value.badge == db.badges[req.badgeId.value]
      && db.userBadges == old(db.userBadges) + [r.value.grant]
    ensures db.users == old(db.users) && db.activities == old(db.activities) && db.credits == old(db.credits)
    ensures db.orders == old(db.orders) && db.leaderboard == old(db.leaderboard) && db.badges == old(db.badges)
  {
    var rejection := Rejection(req, db.users, db.badges, db.userBadges);
    if rejection.Some? {
      return Rejected(rejection.value);
    }
    var grant := UserBadge(|db.userBadges|, req.userId.value, req.badgeId.value, now);
    AwardingKeepsOneGrantPerBadge(db.userBadges, grant);
    db.userBadges := db.userBadges + [grant];
    r := Created(Award(grant, db.badges[grant.badgeId]));
  }

  /** The GET response: a user's grants, or the badge catalogue. */
  datatype Listing = Earned(grants: seq<UserBadge>) | Catalogue(badges: seq<Badge>)

  /** A catalogue badge passes the category filter, upper-cased, when one
      is given. */
  predicate InCategory(b: Badge, category: Option<string>) {
    Truthy(category) ==> b.category == ToUpper(category.value)
  }

  /** GET: with a userId, that user's grants, most recent first; otherwise
      the badges of the category (or all of them), oldest first. The
      category is ignored when a userId is given. */
  function ListBadges(badges: seq<Badge>, grants: seq<UserBadge>, userId: Option<Id>, category: Option<string>)
    : (r: Listing)
    requires BadgesIndexed(badges) && UserBadgesIndexed(grants)
    ensures r.Earned? <==> userId.Some?
    ensures r.Earned? ==>
      && (forall i :: 0 <= i < |r.grants| ==> r.grants[i] in grants && r.grants[i].userId == userId.value)
      && (forall i :: 0 <= i < |grants| && grants[i].userId == userId.value ==> grants[i] in r.grants)
      && (forall i, j :: 0 <= i < j < |r.grants| ==> r.grants[i].id > r.grants[j].id)
    ensures r.Catalogue? ==>
      && (forall i :: 0 <= i < |r.badges| ==> r.badges[i] in badges && InCategory(r.badges[i], category))
      && (forall i :: 0 <= i < |badges| && InCategory(badges[i], category) ==> badges[i] in r.badges)
      && (forall i, j :: 0 <= i < j < |r.badges| ==> r.badges[i].id < r.badges[j].id)
  {
    if userId.Some? then
      var p := (g: UserBadge) => g.userId == userId.value;
      NewestFirst(grants, p, (g: UserBadge) => g.id);
      Earned(Filter(Reverse(grants), p))
    else
      var p := (b: Badge) => InCategory(b, category);
      var key := (b: Badge) => -(b.id as int);
      assert forall i, j :: 0 <= i < j < |badges| ==> key(badges[i]) > key(badges[j]);
      FilterKeepsDecreasing(badges, p, key);
      Catalogue(Filter(badges, p))
  }
}
