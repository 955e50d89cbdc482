/** The records of the platform's tables, and the outcome a route handler
    answers with. Every record's `id` is its position in its table. */
module Records {
  import opened Base

  type Id = nat

  // Status, type and period strings the handlers write and compare.
  const ACTIVE: string := "ACTIVE"
  const FOR_SALE: string := "FOR_SALE"
  const OPEN: string := "OPEN"
  const PENDING: string := "PENDING"
  const SELL: string := "SELL"
  const TREE_PLANTING: string := "TREE_PLANTING"
  const PLASTIC_RECYCLING: string := "PLASTIC_RECYCLING"
  const ALL_TIME: string := "ALL_TIME"
  const INDIVIDUAL: string := "INDIVIDUAL"

  datatype User = User(
    id: Id, email: string, username: string, password: string,
    walletAddress: Option<string>, role: string)

  /** The fields of an activity's metadata that the handlers read. */
  datatype Metadata = Metadata(treeCount: Option<int>, weight: Option<real>)

  datatype Activity = Activity(
    id: Id, userId: Id, kind: string, location: Option<string>,
    carbonOffset: real, metadata: Option<Metadata>, verificationStatus: string)

  datatype Credit = Credit(
    id: Id, userId: Id, activityId: Option<Id>, amount: real,
    tokenId: Option<string>, status: string, price: Option<real>)

  datatype Order = Order(
    id: Id, userId: Id, carbonCreditId: Id, kind: string, amount: real,
    pricePerTon: real, status: string, paymentMethod: Option<string>)

  /** The aggregated columns of a leaderboard row. */
  datatype Stats = Stats(
    treesPlanted: int, plasticRecycled: real, totalCarbonOffset: real, impactScore: int)

  /** A leaderboard row, keyed by (userId, period). */
  datatype Entry = Entry(userId: Id, period: string, stats: Stats)

  datatype Badge = Badge(id: Id, name: string, category: string)

  datatype UserBadge = UserBadge(id: Id, userId: Id, badgeId: Id, earnedAt: int)

  /** Why a handler refused a request. */
  datatype Failure =
    | MissingFields            // "Missing required fields"
    | UserNotFound             // "User not found"
    | CreditNotFound           // "Carbon credit not found"
    | CreditNotOwned           // "Carbon credit does not belong to user"
    | CreditNotActive          // "Carbon credit is not active"
    | ActivityAlreadyCredited  // "Activity already has carbon credits associated"
    | BadgeNotFound            // "Badge not found"
    | BadgeAlreadyHeld         // "User already has this badge"
    | UserAlreadyExists        // "User already exists"

  /** The HTTP status each refusal is answered with. */
  function HttpStatus(f: Failure): (s: int)
    ensures s == 404 <==> f == UserNotFound || f == CreditNotFound || f == BadgeNotFound
    ensures s == 403 <==> f == CreditNotOwned
    ensures s != 404 && s != 403 ==> s == 400
  {
    match f
    case UserNotFound | CreditNotFound | BadgeNotFound => 404
    case CreditNotOwned => 403
    case _ => 400
  }

  /** A handler's answer: the record it created, or the refusal. */
  datatype Outcome<T> = Created(value: T) | Rejected(reason: Failure)
}
