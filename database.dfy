/** The in-memory record store the route handlers read and write: one
    append-only table per model, each record's `id` its position in its
    table, and the invariants every handler keeps. */
module Database {
  import opened Base
  import opened Records
  import opened Scoring

  /** The activities of user `u`, in table order. */
  function ActivitiesOf(acts: seq<Activity>, u: Id): seq<Activity> {
    Filter(acts, (a: Activity) => a.userId == u)
  }

  lemma ActivitiesOfAppend(acts: seq<Activity>, a: Activity, u: Id)
    ensures ActivitiesOf(acts + [a], u) == ActivitiesOf(acts, u) + (if a.userId == u then [a] else [])
  {
  }

  lemma NoActivitiesOf(acts: seq<Activity>, u: Id)
    requires forall i :: 0 <= i < |acts| ==> acts[i].userId != u
    ensures ActivitiesOf(acts, u) == []
  {
    FilterNone(acts, (a: Activity) => a.userId == u);
  }

  predicate HasEntry(lb: seq<Entry>, u: Id, period: string) {
    exists i :: 0 <= i < |lb| && lb[i].userId == u && lb[i].period == period
  }

  /** The leaderboard row with key (u, period), if there is one. */
  function FindEntry(lb: seq<Entry>, u: Id, period: string): (r: Option<nat>)
    ensures r.Some? <==> HasEntry(lb, u, period)
    ensures r.Some? ==> r.value < |lb| && lb[r.value].userId == u && lb[r.value].period == period
  {
    if lb == [] then None
    else if lb[0].userId == u && lb[0].period == period then Some(0)
    else
      match FindEntry(lb[1..], u, period)
      case None =>
        assert forall i :: 1 <= i < |lb| ==> lb[i] == lb[1..][i - 1];
        None
      case Some(k) => Some(k + 1)
  }

  predicate UsersIndexed(users: seq<User>) {
    forall i :: 0 <= i < |users| ==> users[i].id == i
  }

  predicate ActivitiesIndexed(acts: seq<Activity>) {
    forall i :: 0 <= i < |acts| ==> acts[i].id == i
  }

  predicate CreditsIndexed(credits: seq<Credit>) {
    forall i :: 0 <= i < |credits| ==> credits[i].id == i
  }

  predicate OrdersIndexed(orders: seq<Order>) {
    forall i :: 0 <= i < |orders| ==> orders[i].id == i
  }

  predicate BadgesIndexed(badges: seq<Badge>) {
    forall i :: 0 <= i < |badges| ==> badges[i].id == i
  }

  predicate UserBadgesIndexed(grants: seq<UserBadge>) {
    forall i :: 0 <= i < |grants| ==> grants[i].id == i
  }

  /** Every user id, credit id and badge id stored in a record names an
      existing record. */
  predicate ReferencesResolve(users: seq<User>, acts: seq<Activity>, credits: seq<Credit>,
                              orders: seq<Order>, lb: seq<Entry>, badges: seq<Badge>, grants: seq<UserBadge>)
  {
    && (forall i :: 0 <= i < |acts| ==> acts[i].userId < |users|)
    && (forall i :: 0 <= i < |credits| ==> credits[i].userId < |users|)
    && (forall i :: 0 <= i < |orders| ==> orders[i].userId < |users| && orders[i].carbonCreditId < |credits|)
    && (forall i :: 0 <= i < |lb| ==> lb[i].userId < |users|)
    && (forall i :: 0 <= i < |grants| ==> grants[i].userId < |users| && grants[i].badgeId < |badges|)
  }

  /** At most one user per email. */
  predicate UniqueEmails(users: seq<User>) {
    forall i, j :: 0 <= i < j < |users| ==> users[i].email != users[j].email
  }

  /** At most one credit per activity. */
  predicate OneCreditPerActivity(credits: seq<Credit>) {
    forall i, j :: 0 <= i < j < |credits| && credits[i].activityId.Some? ==>
      credits[j].activityId != credits[i].activityId
  }

  /** At most one grant per (user, badge). */
  predicate OneGrantPerBadge(grants: seq<UserBadge>) {
    forall i, j :: 0 <= i < j < |grants| ==>
      grants[i].userId != grants[j].userId || grants[i].badgeId != grants[j].badgeId
  }

  /** At most one leaderboard row per (user, period). */
  predicate OneEntryPerKey(lb: seq<Entry>) {
    forall i, j :: 0 <= i < j < |lb| ==> lb[i].userId != lb[j].userId || lb[i].period != lb[j].period
  }

  predicate HasSellOrder(orders: seq<Order>, c: Id) {
    exists i :: 0 <= i < |orders| && orders[i].kind == SELL && orders[i].carbonCreditId == c
  }

  /** Credit `c` is listed by sell order `o`: for sale, by its owner, at the
      order's price. */
  predicate ListedBy(c: Credit, o: Order) {
    c.status == FOR_SALE && c.userId == o.userId && c.price == Some(o.pricePerTon)
  }

  /** Credits are ACTIVE or FOR_SALE; a credit is FOR_SALE exactly when a
      SELL order lists it; and no order on a credit follows a SELL order on
      it. */
  predicate ListingsConsistent(credits: seq<Credit>, orders: seq<Order>) {
    && (forall c :: 0 <= c < |credits| ==> credits[c].status == ACTIVE || credits[c].status == FOR_SALE)
    && (forall c :: 0 <= c < |credits| && credits[c].status == FOR_SALE ==> HasSellOrder(orders, c))
    && (forall i :: 0 <= i < |orders| && orders[i].kind == SELL ==>
          orders[i].carbonCreditId < |credits| && ListedBy(credits[orders[i].carbonCreditId], orders[i]))
    && (forall i, j :: 0 <= i < j < |orders| && orders[i].kind == SELL ==>
          orders[j].carbonCreditId != orders[i].carbonCreditId)
  }

  /** Every user has an ALL_TIME row, and every ALL_TIME row holds the stats
      of its user's activities. */
  predicate StatsInSync(users: seq<User>, acts: seq<Activity>, lb: seq<Entry>) {
    && (forall u :: 0 <= u < |users| ==> HasEntry(lb, u, ALL_TIME))
    && (forall i :: 0 <= i < |lb| && lb[i].period == ALL_TIME ==>
          lb[i].stats == StatsOf(ActivitiesOf(acts, lb[i].userId)))
  }

  /** Over any run of handlers, existing credits are kept or go from
      ACTIVE to FOR_SALE (with a price), and nothing else changes in them. */
  predicate CreditsProgress(before: seq<Credit>, after: seq<Credit>) {
    && |before| <= |after|
    && (forall c :: 0 <= c < |before| ==>
          after[c] == before[c] ||
          (before[c].status == ACTIVE && after[c] == before[c].(status := FOR_SALE, price := after[c].price)))
  }

  /** One handler's effect on the credits table: progress, and the credits
      it creates are ACTIVE. */
  predicate CreditsAdvance(before: seq<Credit>, after: seq<Credit>) {
    && CreditsProgress(before, after)
    && (forall c :: |before| <= c < |after| ==> after[c].status == ACTIVE)
  }

  /** Progress composes: once FOR_SALE, a credit never goes back. */
  lemma CreditsProgressTransitive(a: seq<Credit>, b: seq<Credit>, c: seq<Credit>)
    requires CreditsProgress(a, b) && CreditsProgress(b, c)
    ensures CreditsProgress(a, c)
  {
  }

  /** The tables taken together: ids are positions, references resolve,
      the unique keys are unique, listings match sell orders and the
      ALL_TIME rows match the activities. */
  predicate Consistent(users: seq<User>, acts: seq<Activity>, credits: seq<Credit>, orders: seq<Order>,
                       lb: seq<Entry>, badges: seq<Badge>, grants: seq<UserBadge>)
  {
    && UsersIndexed(users) && ActivitiesIndexed(acts) && CreditsIndexed(credits)
    && OrdersIndexed(orders) && BadgesIndexed(badges) && UserBadgesIndexed(grants)
    && ReferencesResolve(users, acts, credits, orders, lb, badges, grants)
    && UniqueEmails(users)
    && OneCreditPerActivity(credits)
    && OneGrantPerBadge(grants)
    && OneEntryPerKey(lb)
    && ListingsConsistent(credits, orders)
    && StatsInSync(users, acts, lb)
  }

  class Store {
    var users: seq<User>
    var activities: seq<Activity>
    var credits: seq<Credit>
    var orders: seq<Order>
    var leaderboard: seq<Entry>
    var badges: seq<Badge>
    var userBadges: seq<UserBadge>

    /** The store invariant every handler keeps. */
    ghost predicate Valid()
      reads this
    {
      Consistent(users, activities, credits, orders, leaderboard, badges, userBadges)
    }

    /** An empty store over a catalogue of badges (no handler creates badges). */
    constructor (catalogue: seq<Badge>)
      requires BadgesIndexed(catalogue)
      ensures Valid()
      ensures users == [] && activities == [] && credits == [] && orders == []
      ensures leaderboard == [] && userBadges == [] && badges == catalogue
    {
      users, activities, credits, orders := [], [], [], [];
      leaderboard, userBadges, badges := [], [], catalogue;
    }
  }
}
