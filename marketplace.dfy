/** The marketplace route (src/app/api/marketplace/route.ts): placing a buy
    or sell order against a carbon credit, and listing orders. */
module Marketplace {
  import opened Base
  import opened Records
  import opened Database

  /** The JSON body of a POST; an absent field is `None`. */
  datatype OrderRequest = OrderRequest(
    userId: Option<Id>, carbonCreditId: Option<Id>, kind: Option<string>,
    amount: Option<real>, pricePerTon: Option<real>, paymentMethod: Option<string>)

  /** None of userId, carbonCreditId, type, amount, pricePerTon is falsy. */
  predicate FieldsPresent(req: OrderRequest) {
    req.userId.Some? && req.carbonCreditId.Some? && Truthy(req.kind)
    && NonZero(req.amount) && NonZero(req.pricePerTon)
  }

  /** `type.toUpperCase() === 'SELL'`; every other type is treated as a buy. */
  predicate IsSell(kind: string) {
    ToUpper(kind) == SELL
  }

  /** Everything an accepted order satisfies, all at once. */
  predicate Acceptable(req: OrderRequest, users: seq<User>, credits: seq<Credit>) {
    && FieldsPresent(req)
    && req.userId.value < |users|
    && req.carbonCreditId.value < |credits|
    && (IsSell(req.kind.value) ==> credits[req.carbonCreditId.value].userId == req.userId.value)
    && credits[req.carbonCreditId.value].status == ACTIVE
  }

  /** The user and the credit named by a complete request both exist. */
  predicate CreditFound(req: OrderRequest, users: seq<User>, credits: seq<Credit>) {
    FieldsPresent(req) && req.userId.value < |users| && req.carbonCreditId.value < |credits|
  }

  /** A sell of a credit that belongs to someone else. */
  predicate SellsOthersCredit(req: OrderRequest, credits: seq<Credit>)
    requires req.kind.Some? && req.carbonCreditId.Some? && req.userId.Some?
    requires req.carbonCreditId.value < |credits|
  {
    IsSell(req.kind.value) && credits[req.carbonCreditId.value].userId != req.userId.value
  }

  /** The handler's guards, in the order it checks them: each reason is
      given exactly when the guards before it pass and its own fails. */
  function Rejection(req: OrderRequest, users: seq<User>, credits: seq<Credit>): (r: Option<Failure>)
    ensures r.None? <==> Acceptable(req, users, credits)
    ensures r.Some? ==> r.value in {MissingFields, UserNotFound, CreditNotFound, CreditNotOwned, CreditNotActive}
    ensures r == Some(MissingFields) <==> !FieldsPresent(req)
    ensures r == Some(UserNotFound) <==> FieldsPresent(req) && req.userId.value >= |users|
    ensures r == Some(CreditNotFound) <==>
      FieldsPresent(req) && req.userId.value < |users| && req.carbonCreditId.value >= |credits|
    ensures r == Some(CreditNotOwned) <==>
      CreditFound(req, users, credits) && SellsOthersCredit(req, credits)
    ensures r == Some(CreditNotActive) <==>
      CreditFound(req, users, credits) && !SellsOthersCredit(req, credits)
      && credits[req.carbonCreditId.value].status != ACTIVE
  {
    if !FieldsPresent(req) then Some(MissingFields)
    else if req.userId.value >= |users| then Some(UserNotFound)
    else if req.carbonCreditId.value >= |credits| then Some(CreditNotFound)
    else if SellsOthersCredit(req, credits) then Some(CreditNotOwned)
    else if credits[req.carbonCreditId.value].status != ACTIVE then Some(CreditNotActive)
    else None
  }

  /** Once a sell order lists a credit, every later order naming that
      credit is refused: with 403 if it is a sell by someone other than the
      owner, with 400 otherwise. */
  lemma ListedCreditRefusesOrders(users: seq<User>, credits: seq<Credit>, orders: seq<Order>,
                                  req: OrderRequest)
    requires ListingsConsistent(credits, orders)
    requires req.carbonCreditId.Some? && HasSellOrder(orders, req.carbonCreditId.value)
    ensures Rejection(req, users, credits).Some?
    ensures FieldsPresent(req) && req.userId.value < |users| ==>
      && req.carbonCreditId.value < |credits|
      && Rejection(req, users, credits)
         == if SellsOthersCredit(req, credits) then Some(CreditNotOwned) else Some(CreditNotActive)
  {
  }

  /** Appending an order on an ACTIVE credit, and listing the credit when
      the order is a sell, keeps the listings consistent. */
  lemma PlacingKeepsListings(credits: seq<Credit>, orders: seq<Order>, o: Order, credits': seq<Credit>)
    requires ListingsConsistent(credits, orders)
    requires forall i :: 0 <= i < |orders| ==> orders[i].carbonCreditId < |credits|
    requires o.carbonCreditId < |credits| && credits[o.carbonCreditId].status == ACTIVE
    requires o.kind == SELL ==> credits[o.carbonCreditId].userId == o.userId
    requires credits' == if o.kind == SELL
      then credits[o.carbonCreditId := credits[o.carbonCreditId].(status := FOR_SALE, price := Some(o.pricePerTon))]
      else credits
    ensures ListingsConsistent(credits', orders + [o])
  {
    var c := o.carbonCreditId;
    var orders' := orders + [o];
    forall i | 0 <= i < |orders| && orders[i].kind == SELL
      ensures orders[i].carbonCreditId != c
    {
    }
    forall d | 0 <= d < |credits'| && credits'[d].status == FOR_SALE
      ensures HasSellOrder(orders', d)
    {
      if o.kind == SELL && d == c {
        assert orders'[|orders|] == o;
      } else {
        var i :| 0 <= i < |orders| && orders[i].kind == SELL && orders[i].carbonCreditId == d;
        assert orders'[i] == orders[i];
      }
    }
  }

  /** POST: validate, create the order OPEN with its type upper-cased, and
      list the credit FOR_SALE at the order's price when it is a sell. */
  method PlaceOrder(db: Store, req: OrderRequest) returns (r: Outcome<Order>)
    requires db.Valid()
    modifies db
    ensures db.Valid()
    ensures r.Rejected? <==> !Acceptable(req, old(db.users), old(db.credits))
    ensures r.Rejected? ==> Rejection(req, old(db.users), old(db.credits)) == Some(r.reason) && unchanged(db)
    ensures r.Created? ==>
      && r.value == Order(|old(db.orders)|, req.userId.value, req.carbonCreditId.value, ToUpper(req.kind.value),
                          req.amount.value, req.pricePerTon.value, OPEN, req.paymentMethod)
      && db.orders == old(db.orders) + [r.value]
      && db.credits == if IsSell(req.kind.value)
           then old(db.credits)[req.carbonCreditId.value :=
                  old(db.credits)[req.carbonCreditId.value].(status := FOR_SALE, price := Some(req.pricePerTon.value))]
           else old(db.credits)
    ensures CreditsAdvance(old(db.credits), db.credits)
    ensures db.users == old(db.users) && db.activities == old(db.activities) && db.leaderboard == old(db.leaderboard)
    ensures db.badges == old(db.badges) && db.userBadges == old(db.userBadges)
  {
    var rejection := Rejection(req, db.users, db.credits);
    if rejection.Some? {
      return Rejected(rejection.value);
    }
    var c := req.carbonCreditId.value;
    var kind := ToUpper(req.kind.value);
    var order := Order(|db.orders|, req.userId.value, c, kind, req.amount.value, req.pricePerTon.value,
                       OPEN, req.paymentMethod);
    var credits' := if kind == SELL
      then db.credits[c := db.credits[c].(status := FOR_SALE, price := Some(req.pricePerTon.value))]
      else db.credits;
    PlacingKeepsListings(db.credits, db.orders, order, credits');
    db.orders := db.orders + [order];
    if kind == SELL {
      db.credits := credits';
    }
    r := Created(order);
  }

  /** An order passes the GET filters: type and status, when given, equal
      the upper-cased filter. */
  predicate Matches(o: Order, kind: Option<string>, status: Option<string>) {
    && (Truthy(kind) ==> o.kind == ToUpper(kind.value))
    && (Truthy(status) ==> o.status == ToUpper(status.value))
  }

  /** GET: the orders passing the filters, newest first. */
  function ListOrders(orders: seq<Order>, kind: Option<string>, status: Option<string>): (r: seq<Order>)
    requires OrdersIndexed(orders)
    ensures forall i :: 0 <= i < |r| ==> r[i] in orders && Matches(r[i], kind, status)
    ensures forall i :: 0 <= i < |orders| && Matches(orders[i], kind, status) ==> orders[i] in r
    ensures forall i, j :: 0 <= i < j < |r| ==> r[i].id > r[j].id
  {
    var p := (o: Order) => Matches(o, kind, status);
    NewestFirst(orders, p, (o: Order) => o.id);
    Filter(Reverse(orders), p)
  }
}
