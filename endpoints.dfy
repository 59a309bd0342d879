/** The order endpoints over a store object whose tables the handlers update in place.
    Each handler is proved against the function that specifies it: `Place` for the POST,
    `ReadOrder`, `OrderResponse` and `OrdersResponse` for the reads. */
module OrderEndpoints {
  import opened Model
  import opened Tables
  import opened OrderWriter
  import opened OrderReader

  /** The database behind the connection. The tables the writer inserts into are
      mutable; the catalogs and the reader's join table are seeded outside this code. */
  class Store {
    var addresses: seq<Address>
    var orders: seq<OrderRow>
    var pizzas: seq<PizzaRow>
    var pizzaToppings: seq<JoinRow>
    const pizzaTopping: seq<JoinRow>
    const specials: seq<PizzaSpecial>
    const toppings: seq<Topping>
    var nextAddressId: int
    var nextOrderId: int
    var nextPizzaId: int

    /** The tables as a value. */
    function State(): Db
      reads this
    {
      Db(addresses, orders, pizzas, pizzaToppings, pizzaTopping, specials, toppings,
         nextAddressId, nextOrderId, nextPizzaId)
    }

    ghost predicate Valid()
      reads this
    {
      Tables.Valid(State())
    }

    /** An empty order history over the given catalogs. */
    constructor (specials: seq<PizzaSpecial>, toppings: seq<Topping>, pizzaTopping: seq<JoinRow>)
      ensures State() == Db([], [], [], [], pizzaTopping, specials, toppings, 1, 1, 1)
      ensures Valid()
    {
      this.specials := specials;
      this.toppings := toppings;
      this.pizzaTopping := pizzaTopping;
      addresses, orders, pizzas, pizzaToppings := [], [], [], [];
      nextAddressId, nextOrderId, nextPizzaId := 1, 1, 1;
    }

    // ------------------------------------------------ the statements of the transaction

    /** `INSERT INTO Address …; SELECT SCOPE_IDENTITY()`. */
    method AddAddress(a: Address) returns (id: int)
      modifies this
      ensures State() == InsertAddress(old(State()), a)
      ensures id == old(nextAddressId)
    {
      id := nextAddressId;
      addresses := addresses + [a.(id := id)];
      nextAddressId := nextAddressId + 1;
    }

    /** `INSERT INTO Orders …; SELECT SCOPE_IDENTITY()`. */
    method AddOrder(userId: string, createdTime: int, deliveryAddressId: Option<int>) returns (id: int)
      modifies this
      ensures State() == InsertOrder(old(State()), userId, createdTime, deliveryAddressId)
      ensures id == old(nextOrderId)
    {
      id := nextOrderId;
      orders := orders + [OrderRow(id, userId, createdTime, deliveryAddressId)];
      nextOrderId := nextOrderId + 1;
    }

    /** `INSERT INTO Pizzas …; SELECT SCOPE_IDENTITY()`. */
    method AddPizza(orderId: int, specialId: int, size: int) returns (id: int)
      modifies this
      ensures State() == InsertPizza(old(State()), orderId, specialId, size)
      ensures id == old(nextPizzaId)
    {
      id := nextPizzaId;
      pizzas := pizzas + [PizzaRow(id, orderId, specialId, size)];
      nextPizzaId := nextPizzaId + 1;
    }

    /** `INSERT INTO PizzaToppings …`. */
    method AddJoin(pizzaId: int, toppingId: int)
      modifies this
      ensures State() == InsertJoin(old(State()), pizzaId, toppingId)
    {
      pizzaToppings := pizzaToppings + [JoinRow(pizzaId, toppingId)];
    }

    /** Rolls the transaction back to the tables as they were when it began. */
    method Rollback(snapshot: Db)
      requires snapshot.pizzaTopping == pizzaTopping && snapshot.specials == specials
      requires snapshot.toppings == toppings
      modifies this
      ensures State() == snapshot
    {
      addresses, orders, pizzas, pizzaToppings := snapshot.addresses, snapshot.orders, snapshot.pizzas, snapshot.pizzaToppings;
      nextAddressId, nextOrderId, nextPizzaId := snapshot.nextAddressId, snapshot.nextOrderId, snapshot.nextPizzaId;
    }

    // ------------------------------------------------ the handlers

    /** POST /orders at time `now`. The insert numbered `step` throws when
        `Throws(fault, step)`; the handler then rolls back and answers with the failure
        message. Returns the response and the request's graph as the handler left it. */
    method PostOrder(input: Option<Order>, now: int, fault: Option<nat>) returns (response: Response<int>, graph: Option<Order>)
      requires Valid()
      modifies this
      ensures Valid()
      ensures Placed(response, graph, State()) == Place(old(State()), input, now, fault)
    {
      PlaceKeepsValid(State(), input, now, fault);
      if input.None? {
        return BadRequest(None), None;
      }
      var snapshot := State();
      var order := input.value.(createdTime := now);
      var step: nat := 0;
      var deliveryAddressId: Option<int> := None;
      if order.deliveryAddress.Some? {
        if Throws(fault, step) {
          Rollback(snapshot);
          return BadRequest(Some(FAILURE_MESSAGE)), Some(order);
        }
        var id := AddAddress(order.deliveryAddress.value);
        deliveryAddressId := Some(id);
        step := step + 1;
      }
      if Throws(fault, step) {
        Rollback(snapshot);
        return BadRequest(Some(FAILURE_MESSAGE)), Some(order);
      }
      var orderId := AddOrder(order.userId, order.createdTime, deliveryAddressId);
      order := order.(orderId := orderId);
      step := step + 1;
      assert StartOrder(snapshot, input.value.(createdTime := now), fault) == Going(Tx(State(), order, step));
      var threw;
      order, step, threw := WritePizzas(order, step, fault);
      if threw {
        Rollback(snapshot);
        return BadRequest(Some(FAILURE_MESSAGE)), Some(order);
      }
      // The commit does not fail.
      return Ok(order.orderId), Some(order);
    }

    /** The handler's loop over the order's pizzas, from insert number `step` on. On a
        throw it stops and returns the graph as it was at that moment; the tables are then
        left for the caller to roll back. */
    method WritePizzas(order: Order, step: nat, fault: Option<nat>) returns (next: Order, nextStep: nat, threw: bool)
      modifies this
      ensures var r := InsertPizzas(Tx(old(State()), order, step), 0, fault);
        if threw then r == Threw(next) else r == Going(Tx(State(), next, nextStep))
    {
      ghost var start := Tx(State(), order, step);
      next, nextStep := order, step;
      var i := 0;
      while i < |next.pizzas|
        invariant i <= |next.pizzas| == |order.pizzas|
        invariant InsertPizzas(Tx(State(), next, nextStep), i, fault) == InsertPizzas(start, 0, fault)
        decreases |next.pizzas| - i
      {
        ghost var before := Tx(State(), next, nextStep);
        next := WithPizza(next, i, next.pizzas[i].(orderId := next.orderId));
        if Throws(fault, nextStep) {
          return next, nextStep, true;
        }
        var pizza := next.pizzas[i];
        var pizzaId := AddPizza(pizza.orderId, pizza.specialId, pizza.size);
        nextStep := nextStep + 1;
        assert Tx(State(), next, nextStep) == AfterPizzaInsert(before, i);
        ghost var turn := PizzaTurn(before, i, fault);
        assert InsertPizzas(before, i, fault) == if turn.Threw? then turn else InsertPizzas(turn.tx, i + 1, fault);
        next, nextStep, threw := WriteToppings(next, i, pizzaId, nextStep, fault);
        assert turn == if threw then Threw(next) else Going(Tx(State(), next, nextStep));
        if threw {
          return next, nextStep, true;
        }
        i := i + 1;
      }
      threw := false;
    }

    /** The handler's inner loop over the toppings of pizza `i`, whose new id is
        `pizzaId`, from insert number `step` on. */
    method WriteToppings(order: Order, i: nat, pizzaId: int, step: nat, fault: Option<nat>)
      returns (next: Order, nextStep: nat, threw: bool)
      requires i < |order.pizzas|
      modifies this
      ensures var r := InsertToppings(Tx(old(State()), order, step), i, 0, pizzaId, fault);
        if threw then r == Threw(next) else r == Going(Tx(State(), next, nextStep))
    {
      ghost var start := Tx(State(), order, step);
      next, nextStep := order, step;
      var j := 0;
      while j < |next.pizzas[i].toppings|
        invariant |next.pizzas| == |order.pizzas|
        invariant j <= |next.pizzas[i].toppings| == |order.pizzas[i].toppings|
        invariant InsertToppings(Tx(State(), next, nextStep), i, j, pizzaId, fault)
               == InsertToppings(start, i, 0, pizzaId, fault)
        decreases |next.pizzas[i].toppings| - j
      {
        var topping := next.pizzas[i].toppings[j].(pizzaId := pizzaId);
        next := WithTopping(next, i, j, topping);
        if Throws(fault, nextStep) {
          return next, nextStep, true;
        }
        AddJoin(topping.pizzaId, topping.toppingId);
        nextStep := nextStep + 1;
        j := j + 1;
      }
      threw := false;
    }

    /** `GetOrder`: rebuilds the order of an `Orders` row by keyed lookups; a lookup by
        `QueryFirst` that finds no row throws. */
    method GetOrder(dbOrder: OrderRow) returns (r: Attempt<Order>)
      ensures r == ReadOrder(State(), dbOrder)
    {
      var order := Order(dbOrder.orderId, dbOrder.userId, dbOrder.createdTime, None, []);
      var address := AddressById(State(), dbOrder.deliveryAddressId);
      if address.None? {
        return Raised;
      }
      order := order.(deliveryAddress := address);
      var pizzas := GetPizzas(PizzasOfOrder(State(), dbOrder.orderId));
      if pizzas.Raised? {
        return Raised;
      }
      order := order.(pizzas := pizzas.value);
      return Returned(order);
    }

    /** `GetOrder`'s loop over the order's pizza rows. */
    method GetPizzas(dbPizzas: seq<PizzaRow>) returns (r: Attempt<seq<Pizza>>)
      ensures r == ReadPizzas(State(), dbPizzas)
    {
      var db := State();
      var pizzas: seq<Pizza> := [];
      var k := 0;
      while k < |dbPizzas|
        invariant k <= |dbPizzas|
        invariant forall m :: 0 <= m < k ==> PizzaReadable(db, dbPizzas[m])
        invariant |pizzas| == k
        invariant forall m :: 0 <= m < k ==> pizzas[m] == ReadPizza(db, dbPizzas[m])
      {
        var pizza := GetPizza(dbPizzas[k]);
        if pizza.Raised? {
          return Raised;
        }
        pizzas := pizzas + [pizza.value];
        k := k + 1;
      }
      assert pizzas == ReadPizzas(db, dbPizzas).value;
      return Returned(pizzas);
    }

    /** One turn of `GetOrder`'s loop over the order's pizza rows: the pizza with its
        special, after looking up the topping of every row the reader's join table holds
        for it. */
    method GetPizza(dbPizza: PizzaRow) returns (r: Attempt<Pizza>)
      ensures r.Returned? <==> PizzaReadable(State(), dbPizza)
      ensures r.Returned? ==> r.value == ReadPizza(State(), dbPizza)
    {
      var pizza := Pizza(dbPizza.id, dbPizza.orderId, None, dbPizza.specialId, dbPizza.size, []);
      var special := SpecialById(State(), dbPizza.specialId);
      if special.None? {
        return Raised;
      }
      pizza := pizza.(special := special);

      var dbPizzaToppings := ReaderJoinsOf(State(), dbPizza.id);
      var pizzaToppings: seq<PizzaTopping> := [];
      var j := 0;
      while j < |dbPizzaToppings|
        invariant j <= |dbPizzaToppings|
        invariant forall m :: 0 <= m < j ==> ToppingById(State(), dbPizzaToppings[m].toppingId).Some?
        invariant pizzaToppings == []
      {
        var link := PizzaTopping(None, dbPizzaToppings[j].toppingId, dbPizza.id);
        var dbTopping := ToppingById(State(), link.toppingId);
        if dbTopping.None? {
          return Raised;
        }
        link := link.(topping := dbTopping);
        // The rebuilt record is not added to `pizzaToppings`.
        j := j + 1;
      }
      pizza := pizza.(toppings := pizzaToppings);
      return Returned(pizza);
    }

    /** GET /orders/{orderId}. */
    method GetOrderById<S>(orderId: int, fromOrder: Order -> S) returns (r: Response<S>)
      ensures r == OrderResponse(State(), orderId, fromOrder)
    {
      if orderId < 1 {
        return BadRequest(None);
      }
      var dbOrder := OrderById(State(), orderId);
      if dbOrder.None? {
        return NotFound;
      }
      var order := GetOrder(dbOrder.value);
      match order
      case Raised => r := InternalError;
      case Returned(o) => r := Ok(fromOrder(o));
    }

    /** GET /orders: every `Orders` row, in row order, rebuilt and converted. */
    method GetOrders<S>(fromOrder: Order -> S) returns (r: Response<seq<S>>)
      ensures r == OrdersResponse(State(), fromOrder)
    {
      var dbOrders := orders;
      var ordersWithStatus: seq<S> := [];
      var k := 0;
      while k < |dbOrders|
        invariant k <= |dbOrders|
        invariant Collect(dbOrders[..k], ReadConverted(State(), fromOrder)) == Returned(ordersWithStatus)
      {
        var order := GetOrder(dbOrders[k]);
        assert dbOrders[..k + 1][..k] == dbOrders[..k];
        if order.Raised? {
          CollectShape(dbOrders[..k + 1], ReadConverted(State(), fromOrder));
          CollectShape(dbOrders, ReadConverted(State(), fromOrder));
          return InternalError;
        }
        ordersWithStatus := ordersWithStatus + [fromOrder(order.value)];
        k := k + 1;
      }
      assert dbOrders[..k] == dbOrders;
      return Ok(ordersWithStatus);
    }
  }
}
