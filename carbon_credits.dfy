/** The carbon-credits route (src/app/api/carbon-credits/route.ts): issuing
    a credit, at most one per activity, and listing credits. */
module CarbonCredits {
  import opened Base
  import opened Records
  import opened Database

  /** The JSON body of a POST; an absent field is `None`. */
  datatype CreditRequest = CreditRequest(
    userId: Option<Id>, activityId: Option<Id>, amount: Option<real>, tokenId: Option<string>)

  /** Neither userId nor amount is falsy. */
  predicate FieldsPresent(req: CreditRequest) {
    req.userId.Some? && NonZero(req.amount)
  }

  /** Some credit already references activity `a`. */
  predicate Credited(credits: seq<Credit>, a: Id) {
    exists i :: 0 <= i < |credits| && credits[i].activityId == Some(a)
  }

  /** Everything an accepted request satisfies, all at once. */
  predicate Acceptable(req: CreditRequest, users: seq<User>, credits: seq<Credit>) {
    && FieldsPresent(req)
    && req.userId.value < |users|
    && (req.activityId.Some? ==> !Credited(credits, req.activityId.value))
  }

  /** The handler's guards, in the order it checks them: each reason is
      given exactly when the guards before it pass and its own fails. The
      activity check runs only when an activityId is given. */
  function Rejection(req: CreditRequest, users: seq<User>, credits: seq<Credit>): (r: Option<Failure>)
    ensures r.None? <==> Acceptable(req, users, credits)
    ensures r.Some? ==> r.value in {MissingFields, UserNotFound, ActivityAlreadyCredited}
    ensures r == Some(MissingFields) <==> !FieldsPresent(req)
    ensures r == Some(UserNotFound) <==> FieldsPresent(req) && req.userId.value >= |users|
    ensures r == Some(ActivityAlreadyCredited) <==>
      FieldsPresent(req) && req.userId.value < |users|
      && req.activityId.Some? && Credited(credits, req.activityId.value)
  {
    if !FieldsPresent(req) then Some(MissingFields)
    else if req.userId.value >= |users| then Some(UserNotFound)
    else if req.activityId.Some? && Credited(credits, req.activityId.value) then Some(ActivityAlreadyCredited)
    else None
  }

  /** Appending a credit whose activity has no credit yet keeps at most one
      credit per activity. */
  lemma IssuingKeepsOneCreditPerActivity(credits: seq<Credit>, c: Credit)
    requires OneCreditPerActivity(credits)
    requires c.activityId.Some? ==> !Credited(credits, c.activityId.value)
    ensures OneCreditPerActivity(credits + [c])
  {
  }

  /** POST: validate, then create the credit ACTIVE, owned by the caller,
      with the given activity, amount and token. */
  method IssueCredit(db: Store, req: CreditRequest) returns (r: Outcome<Credit>)
    requires db.Valid()
    modifies db
    ensures db.Valid()
    ensures r.Rejected? <==> !Acceptable(req, old(db.users), old(db.credits))
    ensures r.Rejected? ==> Rejection(req, old(db.users), old(db.credits)) == Some(r.reason) && unchanged(db)
    ensures r.Created? ==>
      && r.value == Credit(|old(db.credits)|, req.userId.value, req.activityId, req.amount.value,
                           req.tokenId, ACTIVE, None)
      && db.credits == old(db.credits) + [r.value]
    ensures CreditsAdvance(old(db.credits), db.credits)
    ensures db.users == old(db.users) && db.activities == old(db.activities) && db.orders == old(db.orders)
    ensures db.leaderboard == old(db.leaderboard) && db.badges == old(db.badges) && db.userBadges == old(db.userBadges)
  {
    var rejection := Rejection(req, db.users, db.credits);
    if rejection.Some? {
      return Rejected(rejection.value);
    }
    var credit := Credit(|db.credits|, req.userId.value, req.activityId, req.amount.value, req.tokenId, ACTIVE, None);
    IssuingKeepsOneCreditPerActivity(db.credits, credit);
    db.credits := db.credits + [credit];
    r := Created(credit);
  }

  /** A credit passes the GET filters: owner and status, when given, equal
      the filter; the status is compared as given, not upper-cased. */
  predicate Matches(c: Credit, userId: Option<Id>, status: Option<string>) {
    && (userId.Some? ==> c.userId == userId.value)
    && (Truthy(status) ==> c.status == status.value)
  }

  /** GET: the credits passing the filters, newest first. */
  function ListCredits(credits: seq<Credit>, userId: Option<Id>, status: Option<string>): (r: seq<Credit>)
    requires CreditsIndexed(credits)
    ensures forall i :: 0 <= i < |r| ==> r[i] in credits && Matches(r[i], userId, status)
    ensures forall i :: 0 <= i < |credits| && Matches(credits[i], userId, status) ==> credits[i] in r
    ensures forall i, j :: 0 <= i < j < |r| ==> r[i].id > r[j].id
  {
    var p := (c: Credit) => Matches(c, userId, status);
    NewestFirst(credits, p, (c: Credit) => c.id);
    Filter(Reverse(credits), p)
  }
}
