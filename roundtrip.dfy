/** What GET /orders/{orderId} returns for an order POST /orders has just committed. */
module RoundTrip {
  import opened Model
  import opened Tables
  import opened OrderWriter
  import opened OrderReader

  /** The order the reader rebuilds after `o` was committed into `db` at `now` with an
      address: the new order and address ids, the user and creation time, and per posted
      pizza its new id, the new order id, the catalog special it names, its size, and no
      toppings. */
  function ReadBack(db: Db, o: Order, now: int): (r: Order)
    requires o.deliveryAddress.Some?
    ensures |r.pizzas| == |o.pizzas|
  {
    Order(db.nextOrderId, o.userId, now, Some(o.deliveryAddress.value.(id := db.nextAddressId)),
          seq(|o.pizzas|, k requires 0 <= k < |o.pizzas| =>
            Pizza(db.nextPizzaId + k, db.nextOrderId, SpecialById(db, o.pizzas[k].specialId),
                  o.pizzas[k].specialId, o.pizzas[k].size, [])))
  }

  /** The store's consistency the read needs beyond what the write guarantees: the
      posted pizzas name catalog specials, and the rows of the reader's join table that
      fall on the pizza ids the write of `o` generates name catalog toppings. */
  predicate CatalogCovers(db: Db, o: Order) {
    && (forall k :: 0 <= k < |o.pizzas| ==> SpecialById(db, o.pizzas[k].specialId).Some?)
    && (forall k :: 0 <= k < |db.pizzaTopping| ==>
          db.nextPizzaId <= db.pizzaTopping[k].pizzaId < db.nextPizzaId + |o.pizzas| ==>
          ToppingById(db, db.pizzaTopping[k].toppingId).Some?)
  }

  /** The new `Orders` row is the one the id lookup finds. */
  lemma OrderRowFound(db: Db, o: Order, now: int)
    requires Valid(db)
    ensures var after := Committed(db, o, now);
      var addressId := if o.deliveryAddress.Some? then Some(db.nextAddressId) else None;
      OrderById(after, db.nextOrderId) == Some(OrderRow(db.nextOrderId, o.userId, now, addressId))
  {
    var after := Committed(db, o, now);
    var addressId := if o.deliveryAddress.Some? then Some(db.nextAddressId) else None;
    var row := OrderRow(db.nextOrderId, o.userId, now, addressId);
    assert after.orders == db.orders + [row];
    FindFirstAfter(db.orders, [row], OrderIdIs(db.nextOrderId));
  }

  /** The new `Address` row is the one the lookup by the order row's address id finds. */
  lemma AddressRowFound(db: Db, o: Order, now: int)
    requires Valid(db) && o.deliveryAddress.Some?
    ensures AddressById(Committed(db, o, now), Some(db.nextAddressId)) == Some(o.deliveryAddress.value.(id := db.nextAddressId))
  {
    var address := o.deliveryAddress.value.(id := db.nextAddressId);
    assert Committed(db, o, now).addresses == db.addresses + [address];
    FindFirstAfter(db.addresses, [address], AddressIdIs(Some(db.nextAddressId)));
  }

  /** The order's pizza rows, as the reader queries them, are exactly the rows written. */
  lemma PizzaRowsFound(db: Db, o: Order, now: int)
    requires Valid(db)
    ensures PizzasOfOrder(Committed(db, o, now), db.nextOrderId) == PizzaRows(o.pizzas, db.nextOrderId, db.nextPizzaId)
  {
    var rows := PizzaRows(o.pizzas, db.nextOrderId, db.nextPizzaId);
    var matches := PizzaOrderIdIs(db.nextOrderId);
    PizzaRowsAt(o.pizzas, db.nextOrderId, db.nextPizzaId);
    WhereAppend(db.pizzas, rows, matches);
    WhereNone(db.pizzas, matches);
    WhereAll(rows, matches);
  }

  /** Every pizza row written for `o` can be read back when the catalogs cover `o`. */
  lemma CommittedPizzasReadable(db: Db, o: Order, now: int)
    requires Valid(db) && CatalogCovers(db, o)
    ensures var after := Committed(db, o, now);
      var rows := PizzasOfOrder(after, db.nextOrderId);
      forall k :: 0 <= k < |rows| ==> PizzaReadable(after, rows[k])
  {
    var after := Committed(db, o, now);
    PizzaRowsFound(db, o, now);
    var rows := PizzasOfOrder(after, db.nextOrderId);
    PizzaRowsAt(o.pizzas, db.nextOrderId, db.nextPizzaId);
    forall k | 0 <= k < |rows|
      ensures PizzaReadable(after, rows[k])
    {
      var joins := ReaderJoinsOf(after, rows[k].id);
      forall m | 0 <= m < |joins|
        ensures ToppingById(after, joins[m].toppingId).Some?
      {
        assert joins[m] in db.pizzaTopping && joins[m].pizzaId == db.nextPizzaId + k;
        var n :| 0 <= n < |db.pizzaTopping| && db.pizzaTopping[n] == joins[m];
      }
      assert SpecialById(after, rows[k].specialId) == SpecialById(db, o.pizzas[k].specialId);
    }
  }

  /** The reader's loop over the committed pizza rows rebuilds `ReadBack`'s pizzas. */
  lemma CommittedPizzasRead(db: Db, o: Order, now: int)
    requires Valid(db) && o.deliveryAddress.Some? && CatalogCovers(db, o)
    ensures var after := Committed(db, o, now);
      ReadPizzas(after, PizzasOfOrder(after, db.nextOrderId)) == Returned(ReadBack(db, o, now).pizzas)
  {
    var after := Committed(db, o, now);
    CommittedPizzasReadable(db, o, now);
    PizzaRowsFound(db, o, now);
    PizzaRowsAt(o.pizzas, db.nextOrderId, db.nextPizzaId);
    var rows := PizzasOfOrder(after, db.nextOrderId);
    var pizzas := ReadPizzas(after, rows).value;
    var expected := ReadBack(db, o, now).pizzas;
    forall k | 0 <= k < |rows|
      ensures pizzas[k] == expected[k]
    {
      assert rows[k] == PizzaRow(db.nextPizzaId + k, db.nextOrderId, o.pizzas[k].specialId, o.pizzas[k].size);
      assert pizzas[k] == ReadPizza(after, rows[k]);
    }
    assert pizzas == expected;
  }

  /** Reading the committed order's row rebuilds `ReadBack`. */
  lemma ReadCommitted(db: Db, o: Order, now: int)
    requires Valid(db) && o.deliveryAddress.Some? && CatalogCovers(db, o)
    ensures var after := Committed(db, o, now);
      && OrderById(after, db.nextOrderId).Some?
      && ReadOrder(after, OrderById(after, db.nextOrderId).value) == Returned(ReadBack(db, o, now))
  {
    var after := Committed(db, o, now);
    OrderRowFound(db, o, now);
    var row := OrderById(after, db.nextOrderId).value;
    AddressRowFound(db, o, now);
    CommittedPizzasReadable(db, o, now);
    assert OrderReadable(after, row);
    CommittedPizzasRead(db, o, now);
  }

  /** When `o` has an address and the catalogs cover it, reading back the order POST
      just committed returns `ReadBack`: its pizzas come back with their specials, and
      the toppings the writer stored do not come back. */
  lemma PostThenRead(db: Db, o: Order, now: int, fault: Option<nat>)
    requires Valid(db) && !FaultWithin(fault, 0, InsertCount(o))
    requires o.deliveryAddress.Some? && CatalogCovers(db, o)
    ensures var placed := Place(db, Some(o), now, fault);
      && placed.response == Ok(db.nextOrderId)
      && OrderById(placed.db, db.nextOrderId).Some?
      && ReadOrder(placed.db, OrderById(placed.db, db.nextOrderId).value) == Returned(ReadBack(db, o, now))
  {
    PlaceCommits(db, o, now, fault);
    ReadCommitted(db, o, now);
  }

  /** GET /orders/{orderId} for the id POST just answered with returns the read-back
      order through `fromOrder`. */
  lemma PostThenGet<S>(db: Db, o: Order, now: int, fault: Option<nat>, fromOrder: Order -> S)
    requires Valid(db) && !FaultWithin(fault, 0, InsertCount(o))
    requires o.deliveryAddress.Some? && CatalogCovers(db, o)
    ensures var placed := Place(db, Some(o), now, fault);
      && placed.response.Ok?
      && OrderResponse(placed.db, placed.response.value, fromOrder) == Ok(fromOrder(ReadBack(db, o, now)))
  {
    PostThenRead(db, o, now, fault);
    CommittedValid(db, o, now);
  }

  /** An order posted without an address is stored, but reading it throws: its row's
      null address id matches no `Address` row. GET of its id is then a server error,
      and so is GET of the whole list. */
  lemma PostWithoutAddressUnreadable<S>(db: Db, o: Order, now: int, fault: Option<nat>, fromOrder: Order -> S)
    requires Valid(db) && !FaultWithin(fault, 0, InsertCount(o))
    requires o.deliveryAddress.None?
    ensures var placed := Place(db, Some(o), now, fault);
      && placed.response == Ok(db.nextOrderId)
      && OrderResponse(placed.db, db.nextOrderId, fromOrder) == InternalError
      && OrdersResponse(placed.db, fromOrder) == InternalError
  {
    PlaceCommits(db, o, now, fault);
    var after := Committed(db, o, now);
    OrderRowFound(db, o, now);
    var row := OrderById(after, db.nextOrderId).value;
    assert after.orders[|db.orders|] == row;
    assert ReadOrder(after, after.orders[|db.orders|]).Raised?;
  }

  /** What GET returns for the new order agrees with the graph POST left behind: the
      same order id, user, creation time and pizzas' order ids, specials and sizes; each
      returned pizza's id is the one POST wrote into that pizza's toppings; and none of
      those toppings is returned. */
  lemma ReadBackMatchesGraph(db: Db, o: Order, now: int)
    requires o.deliveryAddress.Some?
    ensures var r := ReadBack(db, o, now);
      var g := Stamped(o, now, db.nextOrderId, db.nextPizzaId);
      && r.orderId == g.orderId && r.userId == g.userId && r.createdTime == g.createdTime
      && |r.pizzas| == |g.pizzas|
      && forall k :: 0 <= k < |g.pizzas| ==>
           && r.pizzas[k].orderId == g.pizzas[k].orderId
           && r.pizzas[k].specialId == g.pizzas[k].specialId && r.pizzas[k].size == g.pizzas[k].size
           && r.pizzas[k].toppings == []
           && forall j :: 0 <= j < |g.pizzas[k].toppings| ==> g.pizzas[k].toppings[j].pizzaId == r.pizzas[k].id
  {
    StampPizzasAt(o.pizzas, db.nextOrderId, db.nextPizzaId);
    forall k | 0 <= k < |o.pizzas| {
      StampToppingsAt(o.pizzas[k].toppings, db.nextPizzaId + k);
    }
  }
}
