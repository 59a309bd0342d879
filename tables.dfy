/** The relational store the endpoints talk to, as in-memory tables: one sequence of rows
    per table, in enumeration order, and one identity counter per table whose key is
    generated by the store. */
module Tables {
  import opened Model

  datatype OrderRow = OrderRow(orderId: int, userId: string, createdTime: int, deliveryAddressId: Option<int>)
  datatype PizzaRow = PizzaRow(id: int, orderId: int, specialId: int, size: int)
  datatype JoinRow = JoinRow(pizzaId: int, toppingId: int)

  /** The tables. `pizzaToppings` is the table the writer inserts into ("PizzaToppings");
      `pizzaTopping` is the differently named table the reader queries ("PizzaTopping").
      `specials` and `toppings` are the read-only catalogs. */
  datatype Db = Db(
    addresses: seq<Address>,
    orders: seq<OrderRow>,
    pizzas: seq<PizzaRow>,
    pizzaToppings: seq<JoinRow>,
    pizzaTopping: seq<JoinRow>,
    specials: seq<PizzaSpecial>,
    toppings: seq<Topping>,
    nextAddressId: int,
    nextOrderId: int,
    nextPizzaId: int)

  /** Every generated key is positive and below its table's counter, so the counter is
      a key no row holds yet; pizza rows only name orders that were already numbered. */
  predicate Valid(db: Db) {
    && 1 <= db.nextAddressId && 1 <= db.nextOrderId && 1 <= db.nextPizzaId
    && (forall a :: a in db.addresses ==> 1 <= a.id < db.nextAddressId)
    && (forall r :: r in db.orders ==> 1 <= r.orderId < db.nextOrderId)
    && (forall p :: p in db.pizzas ==> 1 <= p.id < db.nextPizzaId && p.orderId < db.nextOrderId)
  }

  // ---------------------------------------------------------------- queries

  /** The first row that matches, as `QueryFirst`/`QueryFirstOrDefault` return it. */
  function FindFirst<T>(rows: seq<T>, matches: T -> bool): (r: Option<T>)
    ensures r.Some? <==> exists k :: 0 <= k < |rows| && matches(rows[k])
    ensures r.Some? ==> exists k :: 0 <= k < |rows| && rows[k] == r.value && matches(rows[k])
                           && forall m :: 0 <= m < k ==> !matches(rows[m])
  {
    if rows == [] then None
    else if matches(rows[0]) then Some(rows[0])
    else
      var r := FindFirst(rows[1..], matches);
      assert forall k :: 0 <= k < |rows| - 1 ==> rows[1..][k] == rows[k + 1];
      if r.Some? then
        ghost var k :| 0 <= k < |rows| - 1 && rows[1..][k] == r.value && matches(rows[1..][k])
                       && forall m :: 0 <= m < k ==> !matches(rows[1..][m]);
        assert rows[k + 1] == r.value && forall m :: 0 <= m < k + 1 ==> !matches(rows[m]);
        r
      else r
  }

  /** All rows that match, in enumeration order, as `Query` returns them. */
  function Where<T>(rows: seq<T>, matches: T -> bool): (r: seq<T>)
    ensures |r| <= |rows|
    ensures forall k :: 0 <= k < |r| ==> r[k] in rows && matches(r[k])
    ensures forall k :: 0 <= k < |rows| && matches(rows[k]) ==> rows[k] in r
  {
    if rows == [] then []
    else if matches(rows[0]) then [rows[0]] + Where(rows[1..], matches)
    else Where(rows[1..], matches)
  }

  lemma {:induction false} WhereAppend<T>(a: seq<T>, b: seq<T>, matches: T -> bool)
    ensures Where(a + b, matches) == Where(a, matches) + Where(b, matches)
  {
    if a != [] {
      assert (a + b)[0] == a[0] && (a + b)[1..] == a[1..] + b;
      WhereAppend(a[1..], b, matches);
    } else {
      assert a + b == b;
    }
  }

  lemma {:induction false} WhereAll<T>(rows: seq<T>, matches: T -> bool)
    requires forall k :: 0 <= k < |rows| ==> matches(rows[k])
    ensures Where(rows, matches) == rows
  {
    if rows != [] {
      WhereAll(rows[1..], matches);
    }
  }

  lemma {:induction false} WhereNone<T>(rows: seq<T>, matches: T -> bool)
    requires forall k :: 0 <= k < |rows| ==> !matches(rows[k])
    ensures Where(rows, matches) == []
  {
    if rows != [] {
      WhereNone(rows[1..], matches);
    }
  }

  // The WHERE clauses of the queries below, one named filter each.

  /** `Id = @Id` on Address; a null parameter matches no row. */
  function AddressIdIs(id: Option<int>): Address -> bool {
    (a: Address) => id == Some(a.id)
  }

  function OrderIdIs(orderId: int): OrderRow -> bool {
    (r: OrderRow) => r.orderId == orderId
  }

  function SpecialIdIs(id: int): PizzaSpecial -> bool {
    (s: PizzaSpecial) => s.id == id
  }

  function ToppingIdIs(id: int): Topping -> bool {
    (t: Topping) => t.id == id
  }

  function PizzaOrderIdIs(orderId: int): PizzaRow -> bool {
    (p: PizzaRow) => p.orderId == orderId
  }

  function JoinPizzaIdIs(pizzaId: int): JoinRow -> bool {
    (r: JoinRow) => r.pizzaId == pizzaId
  }

  /** `SELECT * FROM Address WHERE Id = @Id`. */
  function AddressById(db: Db, id: Option<int>): (r: Option<Address>)
    ensures r.Some? ==> r.value in db.addresses && id == Some(r.value.id)
    ensures r.None? ==> forall a :: a in db.addresses ==> id != Some(a.id)
  {
    FindFirst(db.addresses, AddressIdIs(id))
  }

  /** `SELECT * FROM Orders WHERE OrderId = @OrderId`. */
  function OrderById(db: Db, orderId: int): (r: Option<OrderRow>)
    ensures r.Some? ==> r.value in db.orders && r.value.orderId == orderId
    ensures r.None? ==> forall row :: row in db.orders ==> row.orderId != orderId
  {
    FindFirst(db.orders, OrderIdIs(orderId))
  }

  /** `SELECT * FROM Specials WHERE Id = @Id`. */
  function SpecialById(db: Db, id: int): (r: Option<PizzaSpecial>)
    ensures r.Some? ==> r.value in db.specials && r.value.id == id
    ensures r.None? ==> forall s :: s in db.specials ==> s.id != id
  {
    FindFirst(db.specials, SpecialIdIs(id))
  }

  /** `SELECT * FROM Toppings WHERE Id = @Id`. */
  function ToppingById(db: Db, id: int): (r: Option<Topping>)
    ensures r.Some? ==> r.value in db.toppings && r.value.id == id
    ensures r.None? ==> forall t :: t in db.toppings ==> t.id != id
  {
    FindFirst(db.toppings, ToppingIdIs(id))
  }

  /** `SELECT * FROM Pizzas WHERE OrderId = @OrderId`. */
  function PizzasOfOrder(db: Db, orderId: int): (r: seq<PizzaRow>)
    ensures forall p :: p in r <==> p in db.pizzas && p.orderId == orderId
  {
    Where(db.pizzas, PizzaOrderIdIs(orderId))
  }

  /** `SELECT * FROM PizzaTopping WHERE PizzaId = @PizzaId` (the table the reader names). */
  function ReaderJoinsOf(db: Db, pizzaId: int): (r: seq<JoinRow>)
    ensures forall j :: j in r <==> j in db.pizzaTopping && j.pizzaId == pizzaId
  {
    Where(db.pizzaTopping, JoinPizzaIdIs(pizzaId))
  }

  /** When no earlier row matches, the first match in the extended table is the first
      match among the rows appended after them. */
  lemma {:induction false} FindFirstAfter<T>(earlier: seq<T>, later: seq<T>, matches: T -> bool)
    requires forall k :: 0 <= k < |earlier| ==> !matches(earlier[k])
    ensures FindFirst(earlier + later, matches) == FindFirst(later, matches)
    decreases |earlier|
  {
    if earlier != [] {
      assert (earlier + later)[1..] == earlier[1..] + later;
      FindFirstAfter(earlier[1..], later, matches);
    } else {
      assert earlier + later == later;
    }
  }

  // ---------------------------------------------------------------- inserts

  /** Inserts an address under the next identity value; the caller's `id` is ignored. */
  function InsertAddress(db: Db, a: Address): (r: Db)
    ensures r == db.(addresses := r.addresses, nextAddressId := r.nextAddressId)
    ensures |r.addresses| == |db.addresses| + 1 && r.addresses[..|db.addresses|] == db.addresses
    ensures r.addresses[|db.addresses|] == a.(id := db.nextAddressId)
    ensures Valid(db) ==> Valid(r) && forall x :: x in db.addresses ==> x.id != db.nextAddressId
  {
    db.(addresses := db.addresses + [a.(id := db.nextAddressId)], nextAddressId := db.nextAddressId + 1)
  }

  function InsertOrder(db: Db, userId: string, createdTime: int, deliveryAddressId: Option<int>): (r: Db)
    ensures r == db.(orders := r.orders, nextOrderId := r.nextOrderId)
    ensures |r.orders| == |db.orders| + 1 && r.orders[..|db.orders|] == db.orders
    ensures r.orders[|db.orders|] == OrderRow(db.nextOrderId, userId, createdTime, deliveryAddressId)
    ensures Valid(db) ==> Valid(r) && forall x :: x in db.orders ==> x.orderId != db.nextOrderId
  {
    db.(orders := db.orders + [OrderRow(db.nextOrderId, userId, createdTime, deliveryAddressId)],
        nextOrderId := db.nextOrderId + 1)
  }

  function InsertPizza(db: Db, orderId: int, specialId: int, size: int): (r: Db)
    ensures r == db.(pizzas := r.pizzas, nextPizzaId := r.nextPizzaId)
    ensures |r.pizzas| == |db.pizzas| + 1 && r.pizzas[..|db.pizzas|] == db.pizzas
    ensures r.pizzas[|db.pizzas|] == PizzaRow(db.nextPizzaId, orderId, specialId, size)
    ensures Valid(db) && orderId < db.nextOrderId ==> Valid(r)
    ensures Valid(db) ==> forall x :: x in db.pizzas ==> x.id != db.nextPizzaId
  {
    db.(pizzas := db.pizzas + [PizzaRow(db.nextPizzaId, orderId, specialId, size)],
        nextPizzaId := db.nextPizzaId + 1)
  }

  function InsertJoin(db: Db, pizzaId: int, toppingId: int): (r: Db)
    ensures r == db.(pizzaToppings := r.pizzaToppings)
    ensures |r.pizzaToppings| == |db.pizzaToppings| + 1 && r.pizzaToppings[..|db.pizzaToppings|] == db.pizzaToppings
    ensures r.pizzaToppings[|db.pizzaToppings|] == JoinRow(pizzaId, toppingId)
    ensures Valid(db) ==> Valid(r)
  {
    db.(pizzaToppings := db.pizzaToppings + [JoinRow(pizzaId, toppingId)])
  }
}
