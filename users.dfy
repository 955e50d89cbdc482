/** The users route (src/app/api/users/route.ts): registering a user under
    a fresh email, with a leaderboard row, and listing users; neither answer
    carries the password. */
module Users {
  import opened Base
  import opened Records
  import opened Scoring
  import opened Database

  /** The JSON body of a POST. The role defaults to INDIVIDUAL only when it
      is absent. */
  datatype Registration = Registration(
    email: string, username: string, password: string,
    walletAddress: Option<string>, role: Option<string>)

  /** The POST response: the new user without the password. */
  datatype Profile = Profile(id: Id, email: string, username: string, role: string, walletAddress: Option<string>)

  /** A row of the GET response: a user without the password or wallet. */
  datatype Summary = Summary(id: Id, email: string, username: string, role: string)

  predicate EmailTaken(users: seq<User>, email: string) {
    exists i :: 0 <= i < |users| && users[i].email == email
  }

  /** The handler's one guard. */
  function Rejection(req: Registration, users: seq<User>): (r: Option<Failure>)
    ensures r.None? <==> !EmailTaken(users, req.email)
    ensures r.Some? ==> r.value == UserAlreadyExists
  {
    if EmailTaken(users, req.email) then Some(UserAlreadyExists) else None
  }

  function ProfileOf(u: User): (p: Profile)
    ensures p.id == u.id && p.email == u.email && p.username == u.username
    ensures p.role == u.role && p.walletAddress == u.walletAddress
  {
    Profile(u.id, u.email, u.username, u.role, u.walletAddress)
  }

  function SummaryOf(u: User): (s: Summary)
    ensures s.id == u.id && s.email == u.email && s.username == u.username && s.role == u.role
  {
    Summary(u.id, u.email, u.username, u.role)
  }

  /** A new user `u`, with no activities, and a zero ALL_TIME row for it keep
      the ALL_TIME rows in step with the activities. */
  lemma RegisteringKeepsStatsInSync(users: seq<User>, acts: seq<Activity>, lb: seq<Entry>, u: User)
    requires StatsInSync(users, acts, lb)
    requires u.id == |users| && forall i :: 0 <= i < |acts| ==> acts[i].userId < |users|
    ensures StatsInSync(users + [u], acts, lb + [Entry(u.id, ALL_TIME, Zero)])
  {
    var users', lb' := users + [u], lb + [Entry(u.id, ALL_TIME, Zero)];
    forall v | 0 <= v < |users'|
      ensures HasEntry(lb', v, ALL_TIME)
    {
      if v < |users| {
        assert HasEntry(lb, v, ALL_TIME);
        var i :| 0 <= i < |lb| && lb[i].userId == v && lb[i].period == ALL_TIME;
        assert lb'[i] == lb[i];
      } else {
        assert lb'[|lb|].userId == v;
      }
    }
    NoActivitiesOf(acts, u.id);
  }

  /** Registering user `u` under an email nobody has, with a zero ALL_TIME
      row, keeps the store consistent. */
  lemma RegisteringKeepsConsistent(users: seq<User>, acts: seq<Activity>, credits: seq<Credit>,
                                   orders: seq<Order>, lb: seq<Entry>, badges: seq<Badge>,
                                   grants: seq<UserBadge>, u: User)
    requires Consistent(users, acts, credits, orders, lb, badges, grants)
    requires u.id == |users| && !EmailTaken(users, u.email)
    ensures Consistent(users + [u], acts, credits, orders, lb + [Entry(u.id, ALL_TIME, Zero)], badges, grants)
  {
    var users' := users + [u];
    forall i, j | 0 <= i < j < |users'|
      ensures users'[i].email != users'[j].email
    {
      assert users'[i] == users[i];
    }
    RegisteringKeepsStatsInSync(users, acts, lb, u);
  }

  /** POST: refuse a taken email; otherwise create the user (role
      INDIVIDUAL unless given) and then the user's leaderboard row, and
      answer with the user minus the password. */
  method Register(db: Store, req: Registration) returns (r: Outcome<Profile>)
    requires db.Valid()
    modifies db
    ensures db.Valid()
    ensures r.Rejected? <==> EmailTaken(old(db.users), req.email)
    ensures r.Rejected? ==> r.reason == UserAlreadyExists && unchanged(db)
    ensures r.Created? ==>
      var u := User(|old(db.users)|, req.email, req.username, req.password, req.walletAddress,
                    req.role.GetOr(INDIVIDUAL));
      && db.users == old(db.users) + [u]
      && db.leaderboard == old(db.leaderboard) + [Entry(u.id, ALL_TIME, Zero)]
      && r.value == ProfileOf(u)
    ensures db.activities == old(db.activities) && db.credits == old(db.credits) && db.orders == old(db.orders)
    ensures db.badges == old(db.badges) && db.userBadges == old(db.userBadges)
  {
    var rejection := Rejection(req, db.users);
    if rejection.Some? {
      return Rejected(rejection.value);
    }
    var user := User(|db.users|, req.email, req.username, req.password, req.walletAddress,
                     req.role.GetOr(INDIVIDUAL));
    RegisteringKeepsConsistent(db.users, db.activities, db.credits, db.orders, db.leaderboard,
                               db.badges, db.userBadges, user);
    db.users := db.users + [user];
    db.leaderboard := db.leaderboard + [Entry(user.id, ALL_TIME, Zero)];
    r := Created(ProfileOf(user));
  }

  /** GET: every user, in table order, without the password. */
  function ListUsers(users: seq<User>): (r: seq<Summary>)
    ensures |r| == |users|
    ensures forall i :: 0 <= i < |r| ==> r[i] == SummaryOf(users[i])
  {
    seq(|users|, i requires 0 <= i < |users| => SummaryOf(users[i]))
  }

  /** Users who differ only in their passwords get the same answers from
      both handlers: the password never reaches a response. */
  lemma ResponsesHidePasswords(users: seq<User>, pws: seq<string>)
    requires |pws| == |users|
    ensures var users' := seq(|users|, i requires 0 <= i < |users| => users[i].(password := pws[i]));
      && ListUsers(users') == ListUsers(users)
      && forall i :: 0 <= i < |users| ==> ProfileOf(users'[i]) == ProfileOf(users[i])
  {
  }
}
