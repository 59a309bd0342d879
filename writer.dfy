/** The POST /orders write path, step by step as the handler performs it inside one
    transaction, with a fault oracle that says which insert throws. */
module OrderWriter {
  import opened Model
  import opened Tables

  const FAILURE_MESSAGE := "Failed to create the order"

  /** The insert numbered `step` (from 0, in execution order) throws. */
  predicate Throws(fault: Option<nat>, step: nat) {
    fault == Some(step)
  }

  /** One of the `count` inserts numbered from `start` on throws. */
  predicate FaultWithin(fault: Option<nat>, start: nat, count: nat) {
    fault.Some? && start <= fault.value < start + count
  }

  /** The transaction in flight: the store as the transaction sees it, the request's
      order graph as mutated so far, and the number of the next insert. */
  datatype Tx = Tx(db: Db, order: Order, step: nat)

  /** Either the transaction goes on, or an insert threw, leaving the graph as it was at
      that moment. */
  datatype Run = Going(tx: Tx) | Threw(graph: Order)

  /** What POST /orders produces: the response, the request's graph after the handler,
      and the store after commit or rollback. */
  datatype Placed = Placed(response: Response<int>, graph: Option<Order>, db: Db)

  function WithPizza(o: Order, i: nat, p: Pizza): Order
    requires i < |o.pizzas|
  {
    o.(pizzas := o.pizzas[i := p])
  }

  function WithTopping(o: Order, i: nat, j: nat, t: PizzaTopping): Order
    requires i < |o.pizzas| && j < |o.pizzas[i].toppings|
  {
    WithPizza(o, i, o.pizzas[i].(toppings := o.pizzas[i].toppings[j := t]))
  }

  /** The address insert (when there is an address) followed by the order insert. */
  function StartOrder(db: Db, order: Order, fault: Option<nat>): (r: Run)
    ensures r.Threw? <==> FaultWithin(fault, 0, if order.deliveryAddress.Some? then 2 else 1)
    ensures r.Threw? ==> r.graph == order
    ensures r.Going? ==> && r.tx.step == (if order.deliveryAddress.Some? then 2 else 1)
                         && r.tx.order == order.(orderId := db.nextOrderId)
                         && |r.tx.db.orders| == |db.orders| + 1 && r.tx.db.orders[|db.orders|]
                            == OrderRow(db.nextOrderId, order.userId, order.createdTime,
                                        if order.deliveryAddress.Some? then Some(db.nextAddressId) else None)
                         && r.tx.db.pizzas == db.pizzas && r.tx.db.nextPizzaId == db.nextPizzaId
    ensures r.Going? ==>
      var addressId := if order.deliveryAddress.Some? then Some(db.nextAddressId) else None;
      r.tx.db == db.(addresses := db.addresses + (if order.deliveryAddress.Some? then [order.deliveryAddress.value.(id := db.nextAddressId)] else []),
                     nextAddressId := db.nextAddressId + (if order.deliveryAddress.Some? then 1 else 0),
                     orders := db.orders + [OrderRow(db.nextOrderId, order.userId, order.createdTime, addressId)],
                     nextOrderId := db.nextOrderId + 1)
    ensures r.Going? && Valid(db) ==> Valid(r.tx.db) && r.tx.db.nextOrderId == db.nextOrderId + 1
  {
    match order.deliveryAddress
    case None => InsertOrderRow(db, order, None, 0, fault)
    case Some(a) =>
      if Throws(fault, 0) then Threw(order)
      else InsertOrderRow(InsertAddress(db, a), order, Some(db.nextAddressId), 1, fault)
  }

  /** Inserts the order row and records its generated id in the graph. */
  function InsertOrderRow(db: Db, order: Order, addressId: Option<int>, step: nat, fault: Option<nat>): (r: Run)
    ensures r.Threw? <==> Throws(fault, step)
    ensures r.Threw? ==> r.graph == order
    ensures r.Going? ==> && r.tx.step == step + 1
                         && r.tx.order == order.(orderId := db.nextOrderId)
                         && |r.tx.db.orders| == |db.orders| + 1
                         && r.tx.db.orders[|db.orders|] == OrderRow(db.nextOrderId, order.userId, order.createdTime, addressId)
    ensures r.Going? ==> r.tx.db == db.(orders := db.orders + [OrderRow(db.nextOrderId, order.userId, order.createdTime, addressId)],
                                        nextOrderId := db.nextOrderId + 1)
    ensures r.Going? && Valid(db) ==> Valid(r.tx.db)
  {
    if Throws(fault, step) then Threw(order)
    else
      Going(Tx(InsertOrder(db, order.userId, order.createdTime, addressId),
               order.(orderId := db.nextOrderId), step + 1))
  }

  /** `after` is `before` with rows appended to `PizzaToppings`, and nothing else changed. */
  predicate AppendsJoinRows(before: Db, after: Db) {
    && after == before.(pizzaToppings := after.pizzaToppings)
    && |after.pizzaToppings| >= |before.pizzaToppings| && after.pizzaToppings[..|before.pizzaToppings|] == before.pizzaToppings
  }

  /** The inner loop: the toppings of pizza `i` from the `j`-th on, each given the pizza's
      new id and then inserted as a join row. */
  function InsertToppings(tx: Tx, i: nat, j: nat, pizzaId: int, fault: Option<nat>): (r: Run)
    requires i < |tx.order.pizzas| && j <= |tx.order.pizzas[i].toppings|
    ensures r.Going? ==> |r.tx.order.pizzas| == |tx.order.pizzas|
    ensures r.Going? ==> && r.tx.order.orderId == tx.order.orderId
                         && AppendsJoinRows(tx.db, r.tx.db)
                         && |r.tx.db.pizzaToppings| == |tx.db.pizzaToppings| + |tx.order.pizzas[i].toppings| - j
    decreases |tx.order.pizzas[i].toppings| - j
  {
    if j == |tx.order.pizzas[i].toppings| then Going(tx)
    else
      var t := tx.order.pizzas[i].toppings[j].(pizzaId := pizzaId);
      var order := WithTopping(tx.order, i, j, t);
      if Throws(fault, tx.step) then Threw(order)
      else InsertToppings(Tx(InsertJoin(tx.db, t.pizzaId, t.toppingId), order, tx.step + 1), i, j + 1, pizzaId, fault)
  }

  /** The outer loop: the pizzas from the `i`-th on, each given the order's id, inserted,
      and followed by its toppings. */
  function InsertPizzas(tx: Tx, i: nat, fault: Option<nat>): (r: Run)
    requires i <= |tx.order.pizzas|
    ensures r.Going? ==> && |r.tx.order.pizzas| == |tx.order.pizzas|
                         && r.tx.order.orderId == tx.order.orderId
                         && r.tx.db.orders == tx.db.orders
                         && |r.tx.db.pizzas| == |tx.db.pizzas| + |tx.order.pizzas| - i
    ensures r.Going? ==> AppendsPizzaRows(tx.db, r.tx.db)
    ensures r.Going? && Valid(tx.db) && tx.order.orderId < tx.db.nextOrderId ==> Valid(r.tx.db)
    decreases |tx.order.pizzas| - i
  {
    if i == |tx.order.pizzas| then Going(tx)
    else
      if Throws(fault, tx.step) then Threw(WithPizza(tx.order, i, tx.order.pizzas[i].(orderId := tx.order.orderId)))
      else
        match PizzaTurn(tx, i, fault)
        case Threw(g) => Threw(g)
        case Going(next) => InsertPizzas(next, i + 1, fault)
  }

  /** `after` is `before` with rows appended to `Pizzas` and `PizzaToppings`: no other
      table changes and no earlier row is altered. */
  predicate AppendsPizzaRows(before: Db, after: Db) {
    && after == before.(pizzas := after.pizzas, nextPizzaId := after.nextPizzaId, pizzaToppings := after.pizzaToppings)
    && |after.pizzas| >= |before.pizzas| && after.pizzas[..|before.pizzas|] == before.pizzas
    && |after.pizzaToppings| >= |before.pizzaToppings| && after.pizzaToppings[..|before.pizzaToppings|] == before.pizzaToppings
  }

  /** The rest of one turn of the outer loop once its pizza is about to be inserted: the
      pizza insert, then the inner loop over its toppings. */
  function PizzaTurn(tx: Tx, i: nat, fault: Option<nat>): (r: Run)
    requires i < |tx.order.pizzas|
    ensures r.Going? ==> && |r.tx.order.pizzas| == |tx.order.pizzas| && r.tx.order.orderId == tx.order.orderId
                         && |r.tx.db.pizzas| == |tx.db.pizzas| + 1
                         && AppendsPizzaRows(tx.db, r.tx.db)
    ensures r.Going? && Valid(tx.db) && tx.order.orderId < tx.db.nextOrderId ==> Valid(r.tx.db)
  {
    InsertToppings(AfterPizzaInsert(tx, i), i, 0, tx.db.nextPizzaId, fault)
  }

  /** Pizza `i` given the order's id and inserted; the new row's id is `tx.db.nextPizzaId`. */
  function AfterPizzaInsert(tx: Tx, i: nat): (r: Tx)
    requires i < |tx.order.pizzas|
    ensures |r.order.pizzas| == |tx.order.pizzas| && |r.order.pizzas[i].toppings| == |tx.order.pizzas[i].toppings|
    ensures r.step == tx.step + 1 && r.order.orderId == tx.order.orderId
    ensures r.order.pizzas[i] == tx.order.pizzas[i].(orderId := tx.order.orderId)
    ensures r.order == tx.order.(pizzas := r.order.pizzas)
    ensures forall k :: 0 <= k < |tx.order.pizzas| && k != i ==> r.order.pizzas[k] == tx.order.pizzas[k]
    ensures |r.db.pizzas| == |tx.db.pizzas| + 1 && r.db.pizzas[|tx.db.pizzas|]
            == PizzaRow(tx.db.nextPizzaId, tx.order.orderId, tx.order.pizzas[i].specialId, tx.order.pizzas[i].size)
    ensures r.db == tx.db.(pizzas := r.db.pizzas, nextPizzaId := tx.db.nextPizzaId + 1)
            && r.db.pizzas[..|tx.db.pizzas|] == tx.db.pizzas
    ensures Valid(tx.db) && tx.order.orderId < tx.db.nextOrderId ==> Valid(r.db)
  {
    var order := WithPizza(tx.order, i, tx.order.pizzas[i].(orderId := tx.order.orderId));
    var p := order.pizzas[i];
    Tx(InsertPizza(tx.db, p.orderId, p.specialId, p.size), order, tx.step + 1)
  }

  /** POST /orders at time `now`. A null body is rejected before the store is touched;
      otherwise the graph is stamped and written, and a throwing insert rolls the whole
      transaction back. */
  function Place(db: Db, input: Option<Order>, now: int, fault: Option<nat>): (r: Placed)
    ensures input.None? ==> r == Placed(BadRequest(None), None, db)
    ensures r.response.Ok? || r.db == db
    ensures input.Some? ==> r.graph.Some? && r.graph.value.createdTime == now
    ensures input.Some? && !r.response.Ok? ==> r.response == BadRequest(Some(FAILURE_MESSAGE))
  {
    match input
    case None => Placed(BadRequest(None), None, db)
    case Some(o) =>
      var order := o.(createdTime := now);
      match StartOrder(db, order, fault)
      case Threw(g) => Placed(BadRequest(Some(FAILURE_MESSAGE)), Some(g), db)
      case Going(tx) =>
        InsertPizzasEffect(tx, 0, fault);
        match InsertPizzas(tx, 0, fault)
        case Threw(g) => Placed(BadRequest(Some(FAILURE_MESSAGE)), Some(g), db)
        case Going(done) => Placed(Ok(done.order.orderId), Some(done.order), done.db)
  }

  // ------------------------------------------------ the committed result in closed form

  function ToppingCount(ps: seq<Pizza>): nat {
    if ps == [] then 0 else |ps[0].toppings| + ToppingCount(ps[1..])
  }

  /** The number of inserts a complete write of `o` issues. */
  function InsertCount(o: Order): nat {
    (if o.deliveryAddress.Some? then 1 else 0) + 1 + |o.pizzas| + ToppingCount(o.pizzas)
  }

  function ToppingRows(ts: seq<PizzaTopping>, pizzaId: int): seq<JoinRow> {
    if ts == [] then [] else [JoinRow(pizzaId, ts[0].toppingId)] + ToppingRows(ts[1..], pizzaId)
  }

  /** The join rows for pizzas numbered consecutively from `firstPizzaId`. */
  function JoinRows(ps: seq<Pizza>, firstPizzaId: int): seq<JoinRow> {
    if ps == [] then [] else ToppingRows(ps[0].toppings, firstPizzaId) + JoinRows(ps[1..], firstPizzaId + 1)
  }

  function PizzaRows(ps: seq<Pizza>, orderId: int, firstPizzaId: int): seq<PizzaRow> {
    if ps == [] then []
    else [PizzaRow(firstPizzaId, orderId, ps[0].specialId, ps[0].size)] + PizzaRows(ps[1..], orderId, firstPizzaId + 1)
  }

  function StampToppings(ts: seq<PizzaTopping>, pizzaId: int): seq<PizzaTopping> {
    if ts == [] then [] else [ts[0].(pizzaId := pizzaId)] + StampToppings(ts[1..], pizzaId)
  }

  function StampPizzas(ps: seq<Pizza>, orderId: int, firstPizzaId: int): seq<Pizza> {
    if ps == [] then []
    else [ps[0].(orderId := orderId, toppings := StampToppings(ps[0].toppings, firstPizzaId))]
         + StampPizzas(ps[1..], orderId, firstPizzaId + 1)
  }

  /** The request graph after a successful write: stamped with `now`, the new order id,
      and on every pizza and topping the ids of their new parent rows. */
  function Stamped(o: Order, now: int, orderId: int, firstPizzaId: int): Order {
    o.(orderId := orderId, createdTime := now, pizzas := StampPizzas(o.pizzas, orderId, firstPizzaId))
  }

  /** The store after a committed write of `o` at `now`: the old tables with the new rows
      appended, catalogs and the reader's join table untouched. */
  function Committed(db: Db, o: Order, now: int): Db {
    var addressId := if o.deliveryAddress.Some? then Some(db.nextAddressId) else None;
    var orderId := db.nextOrderId;
    db.(addresses := db.addresses + (if o.deliveryAddress.Some? then [o.deliveryAddress.value.(id := db.nextAddressId)] else []),
        nextAddressId := db.nextAddressId + (if o.deliveryAddress.Some? then 1 else 0),
        orders := db.orders + [OrderRow(orderId, o.userId, now, addressId)],
        nextOrderId := orderId + 1,
        pizzas := db.pizzas + PizzaRows(o.pizzas, orderId, db.nextPizzaId),
        nextPizzaId := db.nextPizzaId + |o.pizzas|,
        pizzaToppings := db.pizzaToppings + JoinRows(o.pizzas, db.nextPizzaId))
  }

  // ------------------------------------------------ lemmas

  lemma ContentWithPizza(o: Order, i: nat, p: Pizza)
    requires i < |o.pizzas| && PizzaContent(p) == PizzaContent(o.pizzas[i])
    ensures SameContent(WithPizza(o, i, p), o)
  {
    assert PizzasContent(o.pizzas[i := p]) == PizzasContent(o.pizzas);
  }

  lemma ContentWithTopping(o: Order, i: nat, j: nat, t: PizzaTopping)
    requires i < |o.pizzas| && j < |o.pizzas[i].toppings|
    requires t.(pizzaId := 0) == o.pizzas[i].toppings[j].(pizzaId := 0)
    ensures SameContent(WithTopping(o, i, j, t), o)
  {
    var p := o.pizzas[i];
    assert ToppingsContent(p.toppings[j := t]) == ToppingsContent(p.toppings);
    ContentWithPizza(o, i, p.(toppings := p.toppings[j := t]));
  }

  lemma WithPizzaTwice(o: Order, i: nat, a: Pizza, b: Pizza)
    requires i < |o.pizzas|
    ensures WithPizza(WithPizza(o, i, a), i, b) == WithPizza(o, i, b)
  {
    assert o.pizzas[i := a][i := b] == o.pizzas[i := b];
  }

  /** Stamping topping `j` and then the rest is stamping from `j` on. */
  lemma StampToppingStep(ts: seq<PizzaTopping>, j: nat, pizzaId: int)
    requires j < |ts|
    ensures var ts' := ts[j := ts[j].(pizzaId := pizzaId)];
      ts'[..j + 1] + StampToppings(ts'[j + 1..], pizzaId) == ts[..j] + StampToppings(ts[j..], pizzaId)
    ensures ToppingRows(ts[j..], pizzaId) == [JoinRow(pizzaId, ts[j].toppingId)] + ToppingRows(ts[j + 1..], pizzaId)
  {
    var ts' := ts[j := ts[j].(pizzaId := pizzaId)];
    assert ts'[..j + 1] == ts[..j] + [ts[j].(pizzaId := pizzaId)];
    assert ts'[j + 1..] == ts[j + 1..];
    assert ts[j..][0] == ts[j] && ts[j..][1..] == ts[j + 1..];
  }

  /** The inner loop completes exactly when none of its inserts throws, and then has
      issued one insert per remaining topping. */
  lemma {:induction false} InsertToppingsFault(tx: Tx, i: nat, j: nat, pizzaId: int, fault: Option<nat>)
    requires i < |tx.order.pizzas| && j <= |tx.order.pizzas[i].toppings|
    ensures var n := |tx.order.pizzas[i].toppings| - j;
      var r := InsertToppings(tx, i, j, pizzaId, fault);
      && (r.Going? <==> !FaultWithin(fault, tx.step, n))
      && (r.Going? ==> r.tx.step == tx.step + n)
    decreases |tx.order.pizzas[i].toppings| - j
  {
    var ts := tx.order.pizzas[i].toppings;
    if j < |ts| && !Throws(fault, tx.step) {
      var t := ts[j].(pizzaId := pizzaId);
      var order := WithTopping(tx.order, i, j, t);
      InsertToppingsFault(Tx(InsertJoin(tx.db, t.pizzaId, t.toppingId), order, tx.step + 1), i, j + 1, pizzaId, fault);
    }
  }

  /** A completed inner loop has appended one join row per remaining topping, in order,
      under the pizza's id. */
  lemma {:induction false} InsertToppingsRows(tx: Tx, i: nat, j: nat, pizzaId: int, fault: Option<nat>)
    requires i < |tx.order.pizzas| && j <= |tx.order.pizzas[i].toppings|
    ensures var ts := tx.order.pizzas[i].toppings;
      var r := InsertToppings(tx, i, j, pizzaId, fault);
      r.Going? ==> r.tx.db == tx.db.(pizzaToppings := tx.db.pizzaToppings + ToppingRows(ts[j..], pizzaId))
    decreases |tx.order.pizzas[i].toppings| - j
  {
    var ts := tx.order.pizzas[i].toppings;
    if j == |ts| {
      assert ts[j..] == [];
      assert tx.db.pizzaToppings + ToppingRows(ts[j..], pizzaId) == tx.db.pizzaToppings;
    } else if !Throws(fault, tx.step) {
      var t := ts[j].(pizzaId := pizzaId);
      var order := WithTopping(tx.order, i, j, t);
      var next := Tx(InsertJoin(tx.db, t.pizzaId, t.toppingId), order, tx.step + 1);
      InsertToppingsRows(next, i, j + 1, pizzaId, fault);
      StampToppingStep(ts, j, pizzaId);
      assert order.pizzas[i].toppings[j + 1..] == ts[j + 1..];
      var row := JoinRow(pizzaId, ts[j].toppingId);
      assert next.db == tx.db.(pizzaToppings := tx.db.pizzaToppings + [row]);
      assert (tx.db.pizzaToppings + [row]) + ToppingRows(ts[j + 1..], pizzaId)
          == tx.db.pizzaToppings + ToppingRows(ts[j..], pizzaId);
    }
  }

  /** A completed inner loop has given every remaining topping of pizza `i` the pizza's
      id, and changed nothing else in the graph. */
  lemma {:induction false} InsertToppingsStamps(tx: Tx, i: nat, j: nat, pizzaId: int, fault: Option<nat>)
    requires i < |tx.order.pizzas| && j <= |tx.order.pizzas[i].toppings|
    ensures var ts := tx.order.pizzas[i].toppings;
      var r := InsertToppings(tx, i, j, pizzaId, fault);
      r.Going? ==> r.tx.order == WithPizza(tx.order, i, tx.order.pizzas[i].(toppings := ts[..j] + StampToppings(ts[j..], pizzaId)))
    decreases |tx.order.pizzas[i].toppings| - j
  {
    var ts := tx.order.pizzas[i].toppings;
    if j == |ts| {
      assert ts[..j] + StampToppings(ts[j..], pizzaId) == ts by {
        assert ts[..j] == ts && ts[j..] == [];
      }
      assert tx.order.pizzas[i].(toppings := ts) == tx.order.pizzas[i];
      assert tx.order.pizzas[i := tx.order.pizzas[i]] == tx.order.pizzas;
    } else if !Throws(fault, tx.step) {
      var t := ts[j].(pizzaId := pizzaId);
      var order := WithTopping(tx.order, i, j, t);
      var next := Tx(InsertJoin(tx.db, t.pizzaId, t.toppingId), order, tx.step + 1);
      InsertToppingsStamps(next, i, j + 1, pizzaId, fault);
      StampToppingStep(ts, j, pizzaId);
      var ts' := order.pizzas[i].toppings;
      assert ts' == ts[j := t];
      var stamped := ts[..j] + StampToppings(ts[j..], pizzaId);
      assert order.pizzas[i].(toppings := stamped) == tx.order.pizzas[i].(toppings := stamped);
      WithPizzaTwice(tx.order, i, tx.order.pizzas[i].(toppings := ts'), tx.order.pizzas[i].(toppings := stamped));
    }
  }

  /** A throw inside the inner loop leaves a graph with the caller's content, order id and
      creation time. */
  lemma {:induction false} InsertToppingsThrew(tx: Tx, i: nat, j: nat, pizzaId: int, fault: Option<nat>)
    requires i < |tx.order.pizzas| && j <= |tx.order.pizzas[i].toppings|
    ensures var r := InsertToppings(tx, i, j, pizzaId, fault);
      r.Threw? ==> SameContent(r.graph, tx.order) && r.graph.orderId == tx.order.orderId
                   && r.graph.createdTime == tx.order.createdTime
    decreases |tx.order.pizzas[i].toppings| - j
  {
    var ts := tx.order.pizzas[i].toppings;
    if j < |ts| {
      var t := ts[j].(pizzaId := pizzaId);
      var order := WithTopping(tx.order, i, j, t);
      ContentWithTopping(tx.order, i, j, t);
      if !Throws(fault, tx.step) {
        InsertToppingsThrew(Tx(InsertJoin(tx.db, t.pizzaId, t.toppingId), order, tx.step + 1), i, j + 1, pizzaId, fault);
      }
    }
  }

  /** The inner loop either inserts one join row per remaining topping, in order, and
      stamps those toppings with the pizza's id, or throws at one of those inserts. */
  lemma InsertToppingsEffect(tx: Tx, i: nat, j: nat, pizzaId: int, fault: Option<nat>)
    requires i < |tx.order.pizzas| && j <= |tx.order.pizzas[i].toppings|
    ensures var ts := tx.order.pizzas[i].toppings;
      match InsertToppings(tx, i, j, pizzaId, fault)
      case Going(t) =>
        && !FaultWithin(fault, tx.step, |ts| - j)
        && t.step == tx.step + |ts| - j
        && t.db == tx.db.(pizzaToppings := tx.db.pizzaToppings + ToppingRows(ts[j..], pizzaId))
        && t.order == WithPizza(tx.order, i, tx.order.pizzas[i].(toppings := ts[..j] + StampToppings(ts[j..], pizzaId)))
      case Threw(g) =>
        && FaultWithin(fault, tx.step, |ts| - j)
        && SameContent(g, tx.order) && g.orderId == tx.order.orderId && g.createdTime == tx.order.createdTime
  {
    InsertToppingsFault(tx, i, j, pizzaId, fault);
    InsertToppingsRows(tx, i, j, pizzaId, fault);
    InsertToppingsStamps(tx, i, j, pizzaId, fault);
    InsertToppingsThrew(tx, i, j, pizzaId, fault);
  }

  lemma {:induction false} StampToppingsAt(ts: seq<PizzaTopping>, pizzaId: int)
    ensures |StampToppings(ts, pizzaId)| == |ts|
    ensures forall j :: 0 <= j < |ts| ==> StampToppings(ts, pizzaId)[j] == ts[j].(pizzaId := pizzaId)
  {
    if ts != [] {
      StampToppingsAt(ts[1..], pizzaId);
    }
  }

  /** Stamped pizza `k` gets the order id and the `k`-th new pizza id on its toppings. */
  lemma {:induction false} StampPizzasAt(ps: seq<Pizza>, orderId: int, firstPizzaId: int)
    ensures |StampPizzas(ps, orderId, firstPizzaId)| == |ps|
    ensures forall k :: 0 <= k < |ps| ==>
      StampPizzas(ps, orderId, firstPizzaId)[k]
        == ps[k].(orderId := orderId, toppings := StampToppings(ps[k].toppings, firstPizzaId + k))
  {
    if ps != [] {
      StampPizzasAt(ps[1..], orderId, firstPizzaId + 1);
    }
  }

  /** Stamping a pizza with its parent ids leaves the caller's content alone. */
  lemma StampedPizzaContent(p: Pizza, orderId: int, pizzaId: int)
    ensures PizzaContent(p.(orderId := orderId, toppings := StampToppings(p.toppings, pizzaId))) == PizzaContent(p)
  {
    StampToppingsAt(p.toppings, pizzaId);
    assert ToppingsContent(StampToppings(p.toppings, pizzaId)) == ToppingsContent(p.toppings);
  }

  /** After the inner loop of pizza `i`, the graph is the original one with pizza `i`
      carrying the order id and its toppings carrying the pizza id. */
  lemma NextPizzaStamped(o: Order, i: nat, next: Order, pizzaId: int)
    requires i < |o.pizzas|
    requires var order := WithPizza(o, i, o.pizzas[i].(orderId := o.orderId));
      var ts := order.pizzas[i].toppings;
      next == WithPizza(order, i, order.pizzas[i].(toppings := ts[..0] + StampToppings(ts[0..], pizzaId)))
    ensures next == WithPizza(o, i, o.pizzas[i].(orderId := o.orderId, toppings := StampToppings(o.pizzas[i].toppings, pizzaId)))
  {
    var p := o.pizzas[i];
    var ts := p.toppings;
    var order := WithPizza(o, i, p.(orderId := o.orderId));
    assert order.pizzas[i] == p.(orderId := o.orderId);
    assert ts[..0] + StampToppings(ts[0..], pizzaId) == StampToppings(ts, pizzaId) by {
      assert ts[..0] == [] && ts[0..] == ts;
    }
    var stamped := p.(orderId := o.orderId, toppings := StampToppings(ts, pizzaId));
    assert order.pizzas[i].(toppings := StampToppings(ts, pizzaId)) == stamped;
    WithPizzaTwice(o, i, p.(orderId := o.orderId), stamped);
  }

  lemma InsertPizzasUnfold(tx: Tx, i: nat, fault: Option<nat>)
    requires i < |tx.order.pizzas| && !Throws(fault, tx.step)
    ensures var r := PizzaTurn(tx, i, fault);
      InsertPizzas(tx, i, fault) == if r.Threw? then r else InsertPizzas(r.tx, i + 1, fault)
  {
  }

  /** One turn of the outer loop completes exactly when none of its topping inserts
      throws, and then has issued one insert per topping after the pizza's own. */
  lemma PizzaTurnFault(tx: Tx, i: nat, fault: Option<nat>)
    requires i < |tx.order.pizzas| && !Throws(fault, tx.step)
    ensures var r := PizzaTurn(tx, i, fault);
      && (r.Going? <==> !FaultWithin(fault, tx.step + 1, |tx.order.pizzas[i].toppings|))
      && (r.Going? ==> && r.tx.step == tx.step + 1 + |tx.order.pizzas[i].toppings|
                       && r.tx.order.pizzas[i + 1..] == tx.order.pizzas[i + 1..])
  {
    var txp := AfterPizzaInsert(tx, i);
    InsertToppingsFault(txp, i, 0, tx.db.nextPizzaId, fault);
    InsertToppingsStamps(txp, i, 0, tx.db.nextPizzaId, fault);
    assert txp.order.pizzas[i + 1..] == tx.order.pizzas[i + 1..];
  }

  /** A completed turn has stamped pizza `i` with the order id and its toppings with the
      pizza's new id. */
  lemma PizzaTurnStamps(tx: Tx, i: nat, fault: Option<nat>)
    requires i < |tx.order.pizzas|
    ensures var p := tx.order.pizzas[i];
      var r := PizzaTurn(tx, i, fault);
      r.Going? ==> r.tx.order == WithPizza(tx.order, i, p.(orderId := tx.order.orderId, toppings := StampToppings(p.toppings, tx.db.nextPizzaId)))
  {
    var txp := AfterPizzaInsert(tx, i);
    InsertToppingsStamps(txp, i, 0, tx.db.nextPizzaId, fault);
    var r := InsertToppings(txp, i, 0, tx.db.nextPizzaId, fault);
    if r.Going? {
      NextPizzaStamped(tx.order, i, r.tx.order, tx.db.nextPizzaId);
    }
  }

  /** A completed turn has appended the pizza's row and then its join rows. */
  lemma PizzaTurnRows(tx: Tx, i: nat, fault: Option<nat>)
    requires i < |tx.order.pizzas|
    ensures var p := tx.order.pizzas[i];
      var pizzaId := tx.db.nextPizzaId;
      var r := PizzaTurn(tx, i, fault);
      r.Going? ==> r.tx.db == tx.db.(pizzas := tx.db.pizzas + [PizzaRow(pizzaId, tx.order.orderId, p.specialId, p.size)],
                                     nextPizzaId := pizzaId + 1,
                                     pizzaToppings := tx.db.pizzaToppings + ToppingRows(p.toppings, pizzaId))
  {
    var p := tx.order.pizzas[i];
    var txp := AfterPizzaInsert(tx, i);
    InsertToppingsRows(txp, i, 0, tx.db.nextPizzaId, fault);
    assert txp.order.pizzas[i].toppings[0..] == p.toppings;
  }

  /** A turn that throws leaves a graph with the caller's content. */
  lemma PizzaTurnThrew(tx: Tx, i: nat, fault: Option<nat>)
    requires i < |tx.order.pizzas|
    ensures var r := PizzaTurn(tx, i, fault);
      r.Threw? ==> SameContent(r.graph, tx.order) && r.graph.orderId == tx.order.orderId
                   && r.graph.createdTime == tx.order.createdTime
  {
    var p := tx.order.pizzas[i];
    ContentWithPizza(tx.order, i, p.(orderId := tx.order.orderId));
    InsertToppingsThrew(AfterPizzaInsert(tx, i), i, 0, tx.db.nextPizzaId, fault);
  }

  /** One turn of the outer loop that gets past the pizza insert: either all of the
      pizza's topping inserts go through, leaving the pizza stamped, its row and its join
      rows appended, or one of them throws, leaving a graph with the caller's content. */
  lemma PizzaStep(tx: Tx, i: nat, fault: Option<nat>)
    requires i < |tx.order.pizzas| && !Throws(fault, tx.step)
    ensures var p := tx.order.pizzas[i];
      var pizzaId := tx.db.nextPizzaId;
      var r := PizzaTurn(tx, i, fault);
      && (r.Going? <==> !FaultWithin(fault, tx.step + 1, |p.toppings|))
      && (r.Threw? ==> SameContent(r.graph, tx.order) && r.graph.orderId == tx.order.orderId
                       && r.graph.createdTime == tx.order.createdTime)
      && (r.Going? ==>
            && r.tx.step == tx.step + 1 + |p.toppings|
            && r.tx.order == WithPizza(tx.order, i, p.(orderId := tx.order.orderId, toppings := StampToppings(p.toppings, pizzaId)))
            && r.tx.db == tx.db.(pizzas := tx.db.pizzas + [PizzaRow(pizzaId, tx.order.orderId, p.specialId, p.size)],
                                 nextPizzaId := pizzaId + 1,
                                 pizzaToppings := tx.db.pizzaToppings + ToppingRows(p.toppings, pizzaId)))
  {
    PizzaTurnFault(tx, i, fault);
    PizzaTurnThrew(tx, i, fault);
    PizzaTurnRows(tx, i, fault);
    PizzaTurnStamps(tx, i, fault);
  }

  /** The outer loop succeeds exactly when none of its inserts throws. */
  lemma {:induction false} InsertPizzasFault(tx: Tx, i: nat, fault: Option<nat>)
    requires i <= |tx.order.pizzas|
    ensures var ps := tx.order.pizzas[i..];
      var n := |ps| + ToppingCount(ps);
      var r := InsertPizzas(tx, i, fault);
      && (r.Going? <==> !FaultWithin(fault, tx.step, n))
      && (r.Going? ==> r.tx.step == tx.step + n)
    decreases |tx.order.pizzas| - i
  {
    var ps := tx.order.pizzas[i..];
    if i == |tx.order.pizzas| {
      assert ps == [];
    } else {
      var p := tx.order.pizzas[i];
      assert ps[0] == p && ps[1..] == tx.order.pizzas[i + 1..];
      assert ToppingCount(ps) == |p.toppings| + ToppingCount(ps[1..]);
      if !Throws(fault, tx.step) {
        var r := PizzaTurn(tx, i, fault);
        InsertPizzasUnfold(tx, i, fault);
        PizzaTurnFault(tx, i, fault);
        if r.Going? {
          assert r.tx.order.pizzas[i + 1..] == ps[1..];
          InsertPizzasFault(r.tx, i + 1, fault);
        }
      }
    }
  }

  /** A throw inside the outer loop leaves a graph with the caller's content. */
  lemma {:induction false} InsertPizzasThrew(tx: Tx, i: nat, fault: Option<nat>)
    requires i <= |tx.order.pizzas|
    ensures var r := InsertPizzas(tx, i, fault);
      r.Threw? ==> SameContent(r.graph, tx.order) && r.graph.orderId == tx.order.orderId
                   && r.graph.createdTime == tx.order.createdTime
    decreases |tx.order.pizzas| - i
  {
    if i < |tx.order.pizzas| {
      var p := tx.order.pizzas[i];
      ContentWithPizza(tx.order, i, p.(orderId := tx.order.orderId));
      if !Throws(fault, tx.step) {
        var r := PizzaTurn(tx, i, fault);
        InsertPizzasUnfold(tx, i, fault);
        PizzaTurnThrew(tx, i, fault);
        PizzaTurnStamps(tx, i, fault);
        if r.Going? {
          StampedPizzaContent(p, tx.order.orderId, tx.db.nextPizzaId);
          ContentWithPizza(tx.order, i, r.tx.order.pizzas[i]);
          InsertPizzasThrew(r.tx, i + 1, fault);
        }
      }
    }
  }

  /** The rows of the first pizza followed by the rows of the rest are the rows of all
      the pizzas. */
  lemma RowsStep(db: Db, mid: Db, fin: Db, ps: seq<Pizza>, orderId: int)
    requires ps != []
    requires mid == db.(pizzas := db.pizzas + [PizzaRow(db.nextPizzaId, orderId, ps[0].specialId, ps[0].size)],
                        nextPizzaId := db.nextPizzaId + 1,
                        pizzaToppings := db.pizzaToppings + ToppingRows(ps[0].toppings, db.nextPizzaId))
    requires fin == mid.(pizzas := mid.pizzas + PizzaRows(ps[1..], orderId, mid.nextPizzaId),
                         nextPizzaId := mid.nextPizzaId + |ps[1..]|,
                         pizzaToppings := mid.pizzaToppings + JoinRows(ps[1..], mid.nextPizzaId))
    ensures fin == db.(pizzas := db.pizzas + PizzaRows(ps, orderId, db.nextPizzaId),
                       nextPizzaId := db.nextPizzaId + |ps|,
                       pizzaToppings := db.pizzaToppings + JoinRows(ps, db.nextPizzaId))
  {
    var row := PizzaRow(db.nextPizzaId, orderId, ps[0].specialId, ps[0].size);
    assert PizzaRows(ps, orderId, db.nextPizzaId) == [row] + PizzaRows(ps[1..], orderId, db.nextPizzaId + 1);
    assert JoinRows(ps, db.nextPizzaId) == ToppingRows(ps[0].toppings, db.nextPizzaId) + JoinRows(ps[1..], db.nextPizzaId + 1);
    assert (db.pizzas + [row]) + PizzaRows(ps[1..], orderId, db.nextPizzaId + 1)
        == db.pizzas + ([row] + PizzaRows(ps[1..], orderId, db.nextPizzaId + 1));
    assert (db.pizzaToppings + ToppingRows(ps[0].toppings, db.nextPizzaId)) + JoinRows(ps[1..], db.nextPizzaId + 1)
        == db.pizzaToppings + (ToppingRows(ps[0].toppings, db.nextPizzaId) + JoinRows(ps[1..], db.nextPizzaId + 1));
  }

  /** A completed outer loop has inserted one pizza row per remaining pizza, with
      consecutive new ids, and after each its join rows. */
  lemma {:induction false} InsertPizzasRows(tx: Tx, i: nat, fault: Option<nat>)
    requires i <= |tx.order.pizzas|
    ensures var ps := tx.order.pizzas[i..];
      var pizzaId := tx.db.nextPizzaId;
      var r := InsertPizzas(tx, i, fault);
      r.Going? ==>
        r.tx.db == tx.db.(pizzas := tx.db.pizzas + PizzaRows(ps, tx.order.orderId, pizzaId),
                          nextPizzaId := pizzaId + |ps|,
                          pizzaToppings := tx.db.pizzaToppings + JoinRows(ps, pizzaId))
    decreases |tx.order.pizzas| - i
  {
    var ps := tx.order.pizzas[i..];
    var orderId := tx.order.orderId;
    var pizzaId := tx.db.nextPizzaId;
    if i == |tx.order.pizzas| {
      assert ps == [];
      assert tx.db.pizzas + PizzaRows(ps, orderId, pizzaId) == tx.db.pizzas;
      assert tx.db.pizzaToppings + JoinRows(ps, pizzaId) == tx.db.pizzaToppings;
    } else if !Throws(fault, tx.step) {
      var p := tx.order.pizzas[i];
      assert ps[0] == p && ps[1..] == tx.order.pizzas[i + 1..];
      var r := PizzaTurn(tx, i, fault);
      InsertPizzasUnfold(tx, i, fault);
      PizzaTurnFault(tx, i, fault);
      PizzaTurnRows(tx, i, fault);
      if r.Going? {
        assert r.tx.order.pizzas[i + 1..] == ps[1..];
        InsertPizzasRows(r.tx, i + 1, fault);
        var fin := InsertPizzas(r.tx, i + 1, fault);
        if fin.Going? {
          RowsStep(tx.db, r.tx.db, fin.tx.db, ps, orderId);
        }
      }
    }
  }

  lemma StampPizzasUnfold(ps: seq<Pizza>, orderId: int, pizzaId: int)
    requires ps != []
    ensures StampPizzas(ps, orderId, pizzaId)
         == [ps[0].(orderId := orderId, toppings := StampToppings(ps[0].toppings, pizzaId))] + StampPizzas(ps[1..], orderId, pizzaId + 1)
  {
  }

  lemma OrderWithPrefix(o: Order, i: nat, p: Pizza, tail: seq<Pizza>)
    requires i < |o.pizzas|
    ensures var w := WithPizza(o, i, p);
      w.(pizzas := w.pizzas[..i + 1] + tail) == o.(pizzas := o.pizzas[..i] + ([p] + tail))
  {
    var w := WithPizza(o, i, p);
    assert w.pizzas[..i + 1] == o.pizzas[..i] + [p];
    assert (o.pizzas[..i] + [p]) + tail == o.pizzas[..i] + ([p] + tail);
  }

  /** Stamping pizza `i` and then the pizzas after it stamps the pizzas from `i` on. */
  lemma StampedStep(o: Order, i: nat, pizzaId: int, next: Order)
    requires i < |o.pizzas|
    requires var p := o.pizzas[i];
      next == WithPizza(o, i, p.(orderId := o.orderId, toppings := StampToppings(p.toppings, pizzaId)))
    ensures next.(pizzas := next.pizzas[..i + 1] + StampPizzas(next.pizzas[i + 1..], next.orderId, pizzaId + 1))
         == o.(pizzas := o.pizzas[..i] + StampPizzas(o.pizzas[i..], o.orderId, pizzaId))
  {
    var p := o.pizzas[i];
    var ps := o.pizzas[i..];
    var stamped := p.(orderId := o.orderId, toppings := StampToppings(p.toppings, pizzaId));
    assert ps[0] == p && ps[1..] == o.pizzas[i + 1..] == next.pizzas[i + 1..];
    StampPizzasUnfold(ps, o.orderId, pizzaId);
    OrderWithPrefix(o, i, stamped, StampPizzas(ps[1..], o.orderId, pizzaId + 1));
  }

  /** A completed outer loop has stamped every remaining pizza with the order id and
      each of its toppings with that pizza's new id, and touched nothing else. */
  lemma {:induction false} InsertPizzasStamps(tx: Tx, i: nat, fault: Option<nat>)
    requires i <= |tx.order.pizzas|
    ensures var ps := tx.order.pizzas[i..];
      var r := InsertPizzas(tx, i, fault);
      r.Going? ==>
        r.tx.order == tx.order.(pizzas := tx.order.pizzas[..i] + StampPizzas(ps, tx.order.orderId, tx.db.nextPizzaId))
    decreases |tx.order.pizzas| - i
  {
    var ps := tx.order.pizzas[i..];
    var orderId := tx.order.orderId;
    var pizzaId := tx.db.nextPizzaId;
    if i == |tx.order.pizzas| {
      assert ps == [] && tx.order.pizzas[..i] == tx.order.pizzas;
      assert tx.order.pizzas[..i] + StampPizzas(ps, orderId, pizzaId) == tx.order.pizzas;
    } else if !Throws(fault, tx.step) {
      var p := tx.order.pizzas[i];
      assert ps[0] == p && ps[1..] == tx.order.pizzas[i + 1..];
      var r := PizzaTurn(tx, i, fault);
      InsertPizzasUnfold(tx, i, fault);
      PizzaTurnStamps(tx, i, fault);
      if r.Going? {
        InsertPizzasStamps(r.tx, i + 1, fault);
        StampedStep(tx.order, i, pizzaId, r.tx.order);
      }
    }
  }

  /** The outer loop either inserts every remaining pizza with consecutive new ids, each
      followed by its join rows, and stamps the graph accordingly, or throws at one of
      those inserts. */
  lemma InsertPizzasEffect(tx: Tx, i: nat, fault: Option<nat>)
    requires i <= |tx.order.pizzas|
    ensures var ps := tx.order.pizzas[i..];
      var orderId := tx.order.orderId;
      var pizzaId := tx.db.nextPizzaId;
      var n := |ps| + ToppingCount(ps);
      match InsertPizzas(tx, i, fault)
      case Going(t) =>
        && !FaultWithin(fault, tx.step, n)
        && t.step == tx.step + n
        && t.db == tx.db.(pizzas := tx.db.pizzas + PizzaRows(ps, orderId, pizzaId),
                          nextPizzaId := pizzaId + |ps|,
                          pizzaToppings := tx.db.pizzaToppings + JoinRows(ps, pizzaId))
        && t.order == tx.order.(pizzas := tx.order.pizzas[..i] + StampPizzas(ps, orderId, pizzaId))
      case Threw(g) =>
        && FaultWithin(fault, tx.step, n)
        && SameContent(g, tx.order) && g.orderId == orderId && g.createdTime == tx.order.createdTime
  {
    InsertPizzasFault(tx, i, fault);
    InsertPizzasThrew(tx, i, fault);
    InsertPizzasRows(tx, i, fault);
    InsertPizzasStamps(tx, i, fault);
  }

  /** When no insert of the write throws, POST commits: it answers with the new order id,
      the store is the closed-form committed store, and the graph is stamped. */
  lemma PlaceCommits(db: Db, o: Order, now: int, fault: Option<nat>)
    requires !FaultWithin(fault, 0, InsertCount(o))
    ensures Place(db, Some(o), now, fault)
         == Placed(Ok(db.nextOrderId), Some(Stamped(o, now, db.nextOrderId, db.nextPizzaId)), Committed(db, o, now))
  {
    var order := o.(createdTime := now);
    var base := if o.deliveryAddress.Some? then 1 else 0;
    var db1 := if o.deliveryAddress.Some? then InsertAddress(db, o.deliveryAddress.value) else db;
    var addressId := if o.deliveryAddress.Some? then Some(db.nextAddressId) else None;
    var tx := Tx(InsertOrder(db1, o.userId, now, addressId), order.(orderId := db.nextOrderId), base + 1);
    assert StartOrder(db, order, fault) == Going(tx);
    InsertPizzasEffect(tx, 0, fault);
    assert tx.order.pizzas[0..] == o.pizzas && tx.order.pizzas[..0] == [];
    var r := InsertPizzas(tx, 0, fault);
    assert r.Going?;
    assert r.tx.order == Stamped(o, now, db.nextOrderId, db.nextPizzaId);
    assert db1.addresses == db.addresses + (if o.deliveryAddress.Some? then [o.deliveryAddress.value.(id := db.nextAddressId)] else []);
    assert r.tx.db == Committed(db, o, now);
  }

  /** When one of the inserts throws, POST rolls back: the store is exactly as before, the
      response is the generic failure, and the graph keeps the caller's content and the
      new creation time. */
  lemma PlaceRollsBack(db: Db, o: Order, now: int, fault: Option<nat>)
    requires FaultWithin(fault, 0, InsertCount(o))
    ensures var r := Place(db, Some(o), now, fault);
      && r.response == BadRequest(Some(FAILURE_MESSAGE))
      && r.db == db
      && r.graph.Some? && SameContent(r.graph.value, o) && r.graph.value.createdTime == now
      && r.graph.value.orderId
         == (if fault.value > (if o.deliveryAddress.Some? then 1 else 0) then db.nextOrderId else o.orderId)
  {
    var order := o.(createdTime := now);
    assert SameContent(order, o);
    match StartOrder(db, order, fault)
    case Threw(_) =>
    case Going(tx) =>
      assert SameContent(tx.order, o);
      assert tx.order.pizzas[0..] == o.pizzas;
      InsertPizzasFault(tx, 0, fault);
      InsertPizzasThrew(tx, 0, fault);
  }

  /** POST succeeds exactly when none of the inserts it issues throws. */
  lemma PlaceSucceedsIff(db: Db, o: Order, now: int, fault: Option<nat>)
    ensures Place(db, Some(o), now, fault).response.Ok? <==> !FaultWithin(fault, 0, InsertCount(o))
  {
    if FaultWithin(fault, 0, InsertCount(o)) {
      PlaceRollsBack(db, o, now, fault);
    } else {
      PlaceCommits(db, o, now, fault);
    }
  }

  lemma {:induction false} PizzaRowsAt(ps: seq<Pizza>, orderId: int, firstPizzaId: int)
    ensures |PizzaRows(ps, orderId, firstPizzaId)| == |ps|
    ensures forall k :: 0 <= k < |ps| ==>
      PizzaRows(ps, orderId, firstPizzaId)[k] == PizzaRow(firstPizzaId + k, orderId, ps[k].specialId, ps[k].size)
  {
    if ps != [] {
      PizzaRowsAt(ps[1..], orderId, firstPizzaId + 1);
    }
  }

  lemma {:induction false} ToppingRowsAt(ts: seq<PizzaTopping>, pizzaId: int)
    ensures |ToppingRows(ts, pizzaId)| == |ts|
    ensures forall j :: 0 <= j < |ts| ==> ToppingRows(ts, pizzaId)[j] == JoinRow(pizzaId, ts[j].toppingId)
  {
    if ts != [] {
      ToppingRowsAt(ts[1..], pizzaId);
    }
  }

  /** The join rows added number exactly the toppings of all pizzas. */
  lemma {:induction false} JoinRowsCount(ps: seq<Pizza>, firstPizzaId: int)
    ensures |JoinRows(ps, firstPizzaId)| == ToppingCount(ps)
  {
    if ps != [] {
      ToppingRowsAt(ps[0].toppings, firstPizzaId);
      JoinRowsCount(ps[1..], firstPizzaId + 1);
    }
  }

  /** A join row is added exactly for a topping of some pizza, under that pizza's new id. */
  lemma {:induction false} JoinRowsMembers(ps: seq<Pizza>, firstPizzaId: int, row: JoinRow)
    ensures row in JoinRows(ps, firstPizzaId) <==>
      exists k, j :: 0 <= k < |ps| && 0 <= j < |ps[k].toppings|
                     && row == JoinRow(firstPizzaId + k, ps[k].toppings[j].toppingId)
  {
    if ps != [] {
      ToppingRowsAt(ps[0].toppings, firstPizzaId);
      JoinRowsMembers(ps[1..], firstPizzaId + 1, row);
      if row in JoinRows(ps[1..], firstPizzaId + 1) {
        var k, j :| 0 <= k < |ps[1..]| && 0 <= j < |ps[1..][k].toppings|
                    && row == JoinRow(firstPizzaId + 1 + k, ps[1..][k].toppings[j].toppingId);
        assert ps[k + 1] == ps[1..][k];
      }
      if exists k, j :: 0 <= k < |ps| && 0 <= j < |ps[k].toppings|
                        && row == JoinRow(firstPizzaId + k, ps[k].toppings[j].toppingId) {
        var k, j :| 0 <= k < |ps| && 0 <= j < |ps[k].toppings|
                    && row == JoinRow(firstPizzaId + k, ps[k].toppings[j].toppingId);
        if k == 0 {
          assert ToppingRows(ps[0].toppings, firstPizzaId)[j] == row;
        } else {
          assert ps[1..][k - 1] == ps[k];
        }
      }
    }
  }

  /** What a committed write of `o` adds: an `Address` row exactly when `o` has an
      address, one `Orders` row holding the user, `now` and the new address id (or
      null), one `Pizzas` row per pizza in input order under the new order id and
      consecutive new pizza ids, and one `PizzaToppings` row per topping. The catalogs and
      the reader's join table are unchanged. */
  lemma CommittedShape(db: Db, o: Order, now: int)
    ensures var c := Committed(db, o, now);
      && c.addresses[..|db.addresses|] == db.addresses
      && (|c.addresses| == |db.addresses| + 1 <==> o.deliveryAddress.Some?)
      && (o.deliveryAddress.None? <==> c.addresses == db.addresses)
      && (o.deliveryAddress.Some? ==> c.addresses[|db.addresses|].id == db.nextAddressId
                                      && c.addresses[|db.addresses|].(id := 0) == o.deliveryAddress.value.(id := 0))
    ensures var c := Committed(db, o, now);
      && |c.orders| == |db.orders| + 1 && c.orders[..|db.orders|] == db.orders
      && c.orders[|db.orders|].orderId == db.nextOrderId
      && c.orders[|db.orders|].userId == o.userId && c.orders[|db.orders|].createdTime == now
      && (c.orders[|db.orders|].deliveryAddressId.Some? <==> o.deliveryAddress.Some?)
      && (o.deliveryAddress.Some? ==> c.orders[|db.orders|].deliveryAddressId == Some(c.addresses[|db.addresses|].id))
    ensures var c := Committed(db, o, now);
      && |c.pizzas| == |db.pizzas| + |o.pizzas| && c.pizzas[..|db.pizzas|] == db.pizzas
      && (forall k :: 0 <= k < |o.pizzas| ==>
            c.pizzas[|db.pizzas| + k] == PizzaRow(db.nextPizzaId + k, db.nextOrderId, o.pizzas[k].specialId, o.pizzas[k].size))
      && |c.pizzaToppings| == |db.pizzaToppings| + ToppingCount(o.pizzas)
      && c.pizzaToppings[..|db.pizzaToppings|] == db.pizzaToppings
      && c.pizzaTopping == db.pizzaTopping && c.specials == db.specials && c.toppings == db.toppings
  {
    PizzaRowsAt(o.pizzas, db.nextOrderId, db.nextPizzaId);
    JoinRowsCount(o.pizzas, db.nextPizzaId);
    var c := Committed(db, o, now);
    var rows := PizzaRows(o.pizzas, db.nextOrderId, db.nextPizzaId);
    assert c.pizzas == db.pizzas + rows;
    forall k | 0 <= k < |o.pizzas|
      ensures c.pizzas[|db.pizzas| + k] == rows[k]
    {
    }
  }

  /** A committed write keeps the store valid, and every id it generates is one no row of
      its table held before. */
  lemma CommittedValid(db: Db, o: Order, now: int)
    requires Valid(db)
    ensures Valid(Committed(db, o, now))
    ensures forall r :: r in db.orders ==> r.orderId != db.nextOrderId
    ensures forall a :: a in db.addresses ==> a.id != db.nextAddressId
    ensures forall p :: p in db.pizzas ==> p.id < db.nextPizzaId
  {
    PizzaRowsAt(o.pizzas, db.nextOrderId, db.nextPizzaId);
    var c := Committed(db, o, now);
    forall p | p in c.pizzas
      ensures 1 <= p.id < c.nextPizzaId && p.orderId < c.nextOrderId
    {
      if p !in db.pizzas {
        var rows := PizzaRows(o.pizzas, db.nextOrderId, db.nextPizzaId);
        assert p in rows;
        var k :| 0 <= k < |rows| && rows[k] == p;
      }
    }
  }

  /** POST keeps the store valid, whether it commits or rolls back. */
  lemma PlaceKeepsValid(db: Db, input: Option<Order>, now: int, fault: Option<nat>)
    requires Valid(db)
    ensures Valid(Place(db, input, now, fault).db)
  {
    if input.Some? {
      if FaultWithin(fault, 0, InsertCount(input.value)) {
        PlaceRollsBack(db, input.value, now, fault);
      } else {
        PlaceCommits(db, input.value, now, fault);
        CommittedValid(db, input.value, now);
      }
    }
  }
}
