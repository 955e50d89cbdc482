/** Scenarios proved from the handlers' contracts: a sequence of calls and
    what each call answers. */
module Scenarios {
  import opened Base
  import opened Records
  import opened Database
  import opened Users
  import opened Marketplace

  /** The owner of an ACTIVE credit lists it for sale; another user's buy
      order on the listed credit is then refused as not active, and so is a
      second sell by the owner. */
  method SellThenOrdersRefused(db: Store, owner: Id, other: Id, c: Id)
    returns (sell: Outcome<Order>, buy: Outcome<Order>, resell: Outcome<Order>)
    requires db.Valid()
    requires owner < |db.users| && other < |db.users| && c < |db.credits|
    requires db.credits[c].userId == owner && db.credits[c].status == ACTIVE
    modifies db
    ensures sell.Created? && sell.value.kind == SELL && sell.value.status == OPEN
    ensures buy == Rejected(CreditNotActive) && HttpStatus(buy.reason) == 400
    ensures resell == Rejected(CreditNotActive)
  {
    assert ToUpper("sell") == SELL;
    sell := PlaceOrder(db, OrderRequest(Some(owner), Some(c), Some("sell"), Some(2.5), Some(12.0), None));
    assert db.credits[c].status == FOR_SALE;
    buy := PlaceOrder(db, OrderRequest(Some(other), Some(c), Some("BUY"), Some(1.0), Some(12.0), None));
    resell := PlaceOrder(db, OrderRequest(Some(owner), Some(c), Some("SELL"), Some(2.5), Some(15.0), None));
  }

  /** Registering the same email twice: the second attempt is refused and
      the store still holds one user and one leaderboard row. */
  method DuplicateEmailRefused() returns (first: Outcome<Profile>, second: Outcome<Profile>, users: nat, rows: nat)
    ensures first.Created? && first.value.role == INDIVIDUAL
    ensures second == Rejected(UserAlreadyExists)
    ensures users == 1 && rows == 1
  {
    var db := new Store([]);
    first := Register(db, Registration("carol@example.org", "carol", "pw1", None, None));
    assert db.users[0].email == "carol@example.org";
    second := Register(db, Registration("carol@example.org", "carol2", "pw2", None, None));
    users, rows := |db.users|, |db.leaderboard|;
  }
}
