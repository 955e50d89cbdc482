# Carbon-credit platform route handlers, modelled in Dafny

This project models the six API route handlers of a carbon-offset platform
(`src/app/api/{marketplace,carbon-credits,leaderboard,activities,badges,users}/route.ts`).
They all work against one record store. Here the store is the class `Database.Store`:
one `seq` field per table (users, activities, carbon credits, marketplace
orders, leaderboard rows, badges, user badges). A record's `id` is its
position in its table; leaderboard rows have no id and are keyed by (user, period).

Each POST handler is a module-level method that takes the store (`db: Store`)
and changes its tables. It checks the handler's guards
in the handler's order, and then either refuses with a `Failure` or writes
its records in place and returns the created record:

- a `Failure` maps to the handler's HTTP status through `Records.HttpStatus`;
- each guard chain is a pure `Rejection` function, and its contract says
  both when a request is accepted and why each refusal happens.

Each GET handler is a pure query over the table values.

Every POST keeps the store invariant `Database.Consistent`:

- ids are positions, and user, credit and badge references resolve (a credit's
  activity reference is not checked, see below);
- emails, credits per activity, grants per (user, badge) and leaderboard keys
  (user, period) are unique;
- a credit is ACTIVE or FOR_SALE, and a credit is FOR_SALE exactly when a SELL
  order lists it, by its owner, at the order's price;
- no order on a credit follows a SELL order on it;
- every user has an ALL_TIME leaderboard row, and every ALL_TIME row holds
  exactly the stats that the leaderboard handler's recomputation loop
  (`Scoring.StatsOf`) gives for that user's activities.

The last point ties together two code paths: the activities handler's
running update and the leaderboard handler's full recomputation. Each
activity adds `Math.round(offset * 10)` to the impact score, plus a tree or
recycled-weight count that depends on its type.

The leaderboard GET filters the rows of one period and sorts them by the
four-key order (insertion sort). It keeps the first `limit` rows and
numbers them 1..n. The model proves four things about it:

- the result is sorted;
- it comes from the requested period, holds min(limit, rows of the period)
  rows, and takes no row more often than the table holds it;
- the ranks are 1..n;
- a row of the period is left out only when the list is full, and then
  it ranks no higher than every listed row.

Numbers are exact reals and unbounded integers. `Math.round(x)` is
`Floor(x + 0.5)`. `toUpperCase` is ASCII upper-casing. A JavaScript falsy
request field is `None` (or the empty string / zero, through `Base.Truthy`
and `Base.NonZero`).

### Where the code and the design disagree (the model follows the code)

- **Rounding.** The design says `impactScore = round(totalOffset * 10)`. The code rounds each
  activity's tenfold offset and adds the results. `Scoring.PerActivityRoundingDiffers`
  gives two activities of 0.05 each: they score 2 points, while the rounded tenfold total is 1.
  `Scoring.ScoreTracksOffset` bounds the gap by half a point per activity.
- **Amounts and offsets.** The design rejects an amount or offset ≤ 0. The code only rejects falsy
  values, so 0 is refused and a negative amount or offset is accepted.
- **Duplicate badges.** The design treats a duplicate badge grant as idempotent success. The badges
  handler answers 400 "User already has this badge".
- **Periods.** The design treats a period as a scoring window. The leaderboard handler computes
  every period's row from all of the user's activities; no time window is applied.
- **Orders on a listed credit.** Any order on a credit that is not ACTIVE is refused, a BUY
  included. A SELL by someone other than the owner is refused with 403 before the status check
  runs, so "every later order gets 400" holds only for the owner and for buys.
- **Issuing a credit.** The comment before the activity check says it checks that the activity
  exists. The handler never checks that; it only checks that no credit already references the
  activity.

## Model

| member | source | states |
|---|---|---|
| Base.Round | src/app/api/leaderboard/route.ts:80 | `Math.round` lands within half a unit of its argument (the nearest integer, halves rounded up) |
| Records.HttpStatus | src/app/api/marketplace/route.ts:59-103 | unknown user/credit/badge answer 404, a sell of someone else's credit 403, every other refusal 400 |
| Base.ToUpper | src/app/api/leaderboard/route.ts:11 | `toUpperCase`: same length, each character upper-cased, no lower-case ASCII letter left |
| Base.Filter | src/app/api/activities/route.ts:11-13 | a `findMany` with a `where`: every kept record is in the table and passes, every passing record is kept |
| Base.FilterSubMultiset | src/app/api/activities/route.ts:11-13 | the filtered records are a sub-multiset of the table: no record is kept more often than the table holds it |
| Base.Reverse | src/app/api/activities/route.ts:23 | `orderBy: { createdAt: 'desc' }` over a table in creation order: the records, last first |
| Scoring.TreeIncrement | src/app/api/leaderboard/route.ts:82-84 | `treeCount \|\| 1`: the tree count when metadata carries a non-zero one, and 1 otherwise (no metadata, no count, or 0) |
| Scoring.WeightIncrement | src/app/api/leaderboard/route.ts:85-87 | `weight \|\| 1`: the weight when metadata carries a non-zero one, and 1 otherwise (no metadata, no weight, or 0) |
| Scoring.Step | src/app/api/leaderboard/route.ts:78-88 | one activity adds its offset to the total and its rounded tenfold offset to the score; trees grow only for TREE_PLANTING, recycled weight only for PLASTIC_RECYCLING |
| Scoring.StatsOf | src/app/api/leaderboard/route.ts:71-89 | the stats of a history, defined as `Step` folded from zero over the activities in order; the reference that `ComputeStats`, the store invariant and the stats lemmas are stated against |
| Scoring.ComputeStats | src/app/api/leaderboard/route.ts:71-89 | the `forEach` accumulation from zero computes exactly the fold `StatsOf` over the activities |
| Scoring.StatsOfConcat | src/app/api/leaderboard/route.ts:78-89 | the stats of two histories together are the column-wise sum of their stats |
| Scoring.StatsOfPermutation | src/app/api/leaderboard/route.ts:64-69 | the unordered `findMany` does not matter: any permutation of the activities gives the same stats |
| Scoring.ScoreTracksOffset | src/app/api/leaderboard/route.ts:79-80 | the impact score stays within n/2 of ten times the total offset for n activities |
| Scoring.PerActivityRoundingDiffers | src/app/api/leaderboard/route.ts:80 | per-activity rounding differs from rounding the total: two 0.05 activities score 2, the rounded total gives 1 |
| Scoring.CountersFollowKind | src/app/api/leaderboard/route.ts:82-88 | with no TREE_PLANTING activity no trees are counted; with no PLASTIC_RECYCLING activity no weight is counted |
| Database.FindEntry | src/app/api/activities/route.ts:91-93 | the leaderboard lookup finds a row exactly when one with that (user, period) exists, and the row it finds has that key |
| Database.Consistent | src/app/api/activities/route.ts:90-120 | the store invariant every POST keeps: ids are positions, user, credit and badge references resolve, emails/credits per activity/grants per badge/leaderboard keys are unique, FOR_SALE credits match SELL orders, every ALL_TIME row equals `StatsOf` of its user's activities |
| Database.Store.constructor | src/app/api/leaderboard/route.ts:2 | the shared `db` client: an empty store over a badge catalogue satisfies the invariant |
| Database.CreditsProgressTransitive | src/app/api/marketplace/route.ts:118-127 | credit changes compose over any run of handlers: a credit only stays or goes ACTIVE to FOR_SALE, never back |
| Marketplace.IsSell | src/app/api/marketplace/route.ts:91 | `type.toUpperCase() === 'SELL'`; any other type is handled as a buy |
| Marketplace.Rejection | src/app/api/marketplace/route.ts:59-103 | an order is accepted iff all five fields are truthy, user and credit exist, a SELL names the caller's own credit and the credit is ACTIVE; each of the five refusal reasons (and no other) is given exactly when the earlier guards passed and its own failed: unknown user or credit 404, a sell of someone else's credit 403, a non-ACTIVE credit 400 |
| Marketplace.ListedCreditRefusesOrders | src/app/api/marketplace/route.ts:98-127 | once a SELL order lists a credit, every later order on it is refused; with the fields present and the user known, it is CreditNotOwned (403) for a non-owner sell and CreditNotActive (400) otherwise |
| Marketplace.PlacingKeepsListings | src/app/api/marketplace/route.ts:106-127 | adding an order on an ACTIVE credit, and listing it when it is a sell, keeps credits and sell orders matched one to one |
| Marketplace.PlaceOrder | src/app/api/marketplace/route.ts:54-132 | refused requests change nothing; an accepted one appends one OPEN order with upper-cased type and copied fields, lists the credit FOR_SALE at pricePerTon only for a SELL, and keeps the store invariant |
| Marketplace.ListOrders | src/app/api/marketplace/route.ts:10-42 | exactly the orders whose type and status equal the upper-cased filters (all orders without filters), newest first |
| CarbonCredits.Rejection | src/app/api/carbon-credits/route.ts:51-82 | a credit is issued iff userId and a non-zero amount are given, the user exists and, when an activityId is given, no credit already references it; without an activityId the conflict never fires; each of the three reasons (and no other) is given exactly when the earlier guards passed and its own failed |
| CarbonCredits.IssuingKeepsOneCreditPerActivity | src/app/api/carbon-credits/route.ts:71-93 | if no two credits share an activity before, none do after appending a credit whose activity is unused |
| CarbonCredits.IssueCredit | src/app/api/carbon-credits/route.ts:46-98 | refused requests change nothing; an accepted one appends one ACTIVE credit owned by the caller with the given activity, amount and token, and keeps the store invariant |
| CarbonCredits.ListCredits | src/app/api/carbon-credits/route.ts:10-34 | exactly the credits matching the owner and the status as given (not upper-cased), newest first |
| Activities.Rejection | src/app/api/activities/route.ts:59-76 | an activity is recorded iff userId, type and a non-zero offset are given and the user exists; a negative offset passes; a complete request for an unknown user gets exactly UserNotFound (404), an incomplete one exactly MissingFields |
| Activities.NewActivity | src/app/api/activities/route.ts:78-88 | the stored activity is PENDING, carries the request's user, type, offset and metadata, and stores the request's location when a truthy one was sent, none otherwise |
| Activities.ShareAdded | src/app/api/activities/route.ts:90-120 | without an ALL_TIME row for the user no row changes; otherwise only that row changes, by exactly one activity's share |
| Activities.RecordingKeepsStatsInSync | src/app/api/activities/route.ts:90-120 | adding one activity's share to its user's row keeps every ALL_TIME row equal to the full recomputation |
| Activities.RecordingKeepsConsistent | src/app/api/activities/route.ts:78-120 | storing the activity and updating the row keeps the whole store invariant |
| Activities.RecordActivity | src/app/api/activities/route.ts:54-125 | refused requests change nothing; an accepted one appends one PENDING activity and applies `ShareAdded`; the user's row exists, so it is updated |
| Activities.ListActivities | src/app/api/activities/route.ts:9-43 | all activities, or exactly one user's, newest first |
| Leaderboard.PeriodKey | src/app/api/leaderboard/route.ts:49-105 | an absent period means ALL_TIME; a given one (even empty) is upper-cased with `ToUpper` |
| Leaderboard.Upserted | src/app/api/leaderboard/route.ts:91-108 | after the upsert the key (user, period) has exactly one row, the new one; every other row is unchanged; a row is appended only when the key was new |
| Leaderboard.UpsertIdempotent | src/app/api/leaderboard/route.ts:91-108 | upserting the same row twice equals upserting it once |
| Leaderboard.UpsertingKeepsConsistent | src/app/api/leaderboard/route.ts:91-108 | upserting a freshly computed row for an existing user keeps the store invariant |
| Leaderboard.RecomputeAllTimeIsNoOp | src/app/api/leaderboard/route.ts:71-108 | in a consistent store, recomputing a user's ALL_TIME row leaves the leaderboard unchanged: the running updates agree with the fold |
| Leaderboard.Recompute | src/app/api/leaderboard/route.ts:47-113 | an unknown user gets 404 and nothing changes; otherwise the (user, upper-cased period) row holds the stats of all the user's activities and no other row changes |
| Leaderboard.RecomputeIdempotent | src/app/api/leaderboard/route.ts:47-113 | the POST sent twice: both calls give the same answer, and the leaderboard ends as after the first call |
| Leaderboard.RanksAtLeast | src/app/api/leaderboard/route.ts:22-27 | the four-key `orderBy`: higher impactScore first, ties broken by totalCarbonOffset, then treesPlanted, then plasticRecycled |
| Leaderboard.RanksTotalAndTransitive | src/app/api/leaderboard/route.ts:22-27 | the four-key order compares any two rows and is transitive |
| Leaderboard.Insert | src/app/api/leaderboard/route.ts:22-27 | inserting a row adds exactly that row to the multiset of rows |
| Leaderboard.InsertSorted | src/app/api/leaderboard/route.ts:22-27 | inserting into a sorted sequence keeps it sorted by the four-key order |
| Leaderboard.SortByRank | src/app/api/leaderboard/route.ts:22-27 | sorting is a permutation of the rows |
| Leaderboard.SortByRankSorted | src/app/api/leaderboard/route.ts:22-27 | the sorted rows descend by (impactScore, totalCarbonOffset, treesPlanted, plasticRecycled) |
| Leaderboard.Leaders | src/app/api/leaderboard/route.ts:10-29 | min(n, rows of the period) rows, a sub-multiset of the period's rows and so of the table, sorted; a period row left out means the list is full and it ranks no higher than any listed row |
| Leaderboard.Ranked | src/app/api/leaderboard/route.ts:32-35 | each row keeps its entry and gets rank position + 1 |
| Leaderboard.PeriodFilter | src/app/api/leaderboard/route.ts:7-11 | an absent or empty period filter means ALL_TIME; a non-empty one is upper-cased with `ToUpper` |
| Leaderboard.LimitOr10 | src/app/api/leaderboard/route.ts:8 | `limit \|\| '10'`: the given limit, or 10 when absent |
| Leaderboard.Standings | src/app/api/leaderboard/route.ts:4-37 | the GET answer: min(`limit` (default 10), rows of the period) rows of the upper-cased period, a sub-multiset of the period's rows and of the table, sorted, ranked 1..n; a row left out means the list is full and it ranks no higher than any listed row |
| Badges.Rejection | src/app/api/badges/route.ts:47-93 | a grant is made iff userId and badgeId are given, both exist and the user does not hold the badge; each of the four reasons (and no other) is given exactly when the earlier guards passed and its own failed: unknown user or badge 404, a badge already held 400 |
| Badges.AwardingKeepsOneGrantPerBadge | src/app/api/badges/route.ts:78-102 | at most one grant per (user, badge) is preserved by appending a grant the user does not hold |
| Badges.AwardBadge | src/app/api/badges/route.ts:42-110 | refused requests change nothing; an accepted one appends exactly one grant stamped with the clock, answers it with its badge and keeps the store invariant |
| Badges.ListBadges | src/app/api/badges/route.ts:10-31 | with a userId, exactly that user's grants, most recent first; otherwise exactly the badges of the upper-cased category (or all), oldest first |
| Users.Rejection | src/app/api/users/route.ts:30-40 | registration is refused, with "already exists", exactly when some user has the email |
| Users.ProfileOf | src/app/api/users/route.ts:60-68 | the POST answer carries id, email, username, role and wallet of the user, and no password |
| Users.SummaryOf | src/app/api/users/route.ts:6-14 | a GET row carries id, email, username and role of the user, and no password |
| Users.RegisteringKeepsStatsInSync | src/app/api/users/route.ts:42-58 | a new user, who has no activities, with a zero ALL_TIME row keeps every user's ALL_TIME row equal to the stats of their activities |
| Users.RegisteringKeepsConsistent | src/app/api/users/route.ts:42-58 | a user with a fresh email and a zero ALL_TIME row keeps emails unique and the store invariant |
| Users.Register | src/app/api/users/route.ts:26-69 | a taken email is refused and nothing changes; otherwise exactly one user (role INDIVIDUAL unless given) and exactly one leaderboard row for that user are added |
| Users.ListUsers | src/app/api/users/route.ts:4-16 | one password-free summary per user, in table order |
| Users.ResponsesHidePasswords | src/app/api/users/route.ts:6-14 | users differing only in passwords get identical GET and POST answers |
| Scenarios.SellThenOrdersRefused | src/app/api/marketplace/route.ts:91-127 | an owner's sell of an ACTIVE credit succeeds; a later buy by another user and a second sell by the owner are both refused as not active (400) |
| Scenarios.DuplicateEmailRefused | src/app/api/users/route.ts:30-58 | registering the same email twice leaves one user and one leaderboard row, the second call refused |

## Left out

- HTTP and JSON plumbing: requests are records with optional fields, and the `catch` paths (status 500) are not modelled.
- Storage errors from the database client are not modelled. Examples: a lookup with an undefined `email` (users POST) or `userId` (leaderboard POST). `Leaderboard.RecomputeRequest` therefore makes `userId` required, and `Users.Registration` makes `email`, `username` and `password` required. Whether the users POST would store a user without a username or password depends on the schema, which is not part of this model.
- `include`/`select` joins are not modelled. Responses carry the records themselves, without the joined user, credit, activity or badge.
- Leaderboard.Standings: the `limit` query parameter is a natural number. A non-numeric or negative `limit` is not modelled; `parseInt` would give NaN, or the client would take from the end.
- Timestamps are not modelled. `createdAt` order is table order, `lastUpdated` is not kept, and `earnedAt` is the `now` parameter of `Badges.AwardBadge`.
- Badges.ListBadges: orders a user's grants by creation, newest first. This equals `earnedAt` descending only if the clock never goes back, which is not modelled.
- Floating-point rounding is not modelled; offsets, weights, amounts and prices are exact reals.
- `toUpperCase` is modelled for ASCII letters only.
- `JSON.stringify` of location and metadata is not modelled: they are stored as given.
- Concurrency and atomicity are not modelled. Each handler runs as one sequential step, although the source checks and writes in separate awaits without a transaction.
- Order filling and cancellation, credit transfer and retirement, activity verification and automatic badge evaluation are not modelled. None of them has code in these handlers.
- The database schema is not part of this model. The users POST is assumed to create a row with period ALL_TIME and zero stats, its schema defaults.
- Activities.RecordActivity: the activities handler looks up the leaderboard row by `userId` alone; it is read as the user's ALL_TIME row.
- Activities.RecordActivity: under the store invariant that row always exists, so the method never takes the "no row" branch. `Activities.ShareAdded` still states that this branch changes nothing.
- CarbonCredits.IssueCredit: accepts an activityId that names no activity, since the handler does not check it. Whether the database then refuses the credit (a foreign-key error answered with 500) depends on the schema, which is not part of this model.
- Record ids in the source are opaque strings; here they are table positions. An id is falsy only when absent.
