/** The read path: `GetOrder`, which rebuilds an order from its row by keyed lookups, and
    the two GET handlers on top of it. Each is stated here as a function of the tables;
    the handlers in `OrderEndpoints` compute it with the source's loops. */
module OrderReader {
  import opened Model
  import opened Tables

  /** A computation that either returns a value or throws (a `QueryFirst` that finds no
      row throws). */
  datatype Attempt<T> = Returned(value: T) | Raised

  /** A pizza row can be rebuilt: its special exists, and every row the reader's join
      table holds for it names an existing catalog topping. */
  predicate PizzaReadable(db: Db, row: PizzaRow) {
    && SpecialById(db, row.specialId).Some?
    && forall k :: 0 <= k < |ReaderJoinsOf(db, row.id)| ==>
         ToppingById(db, ReaderJoinsOf(db, row.id)[k].toppingId).Some?
  }

  /** The pizza rebuilt from a row: its columns, its special, and an empty topping list
      (the join records built by the reader are never added to the list). */
  function ReadPizza(db: Db, row: PizzaRow): (r: Pizza)
    requires PizzaReadable(db, row)
    ensures r.id == row.id && r.orderId == row.orderId && r.specialId == row.specialId && r.size == row.size
    ensures r.special.Some? && r.special.value in db.specials && r.special.value.id == row.specialId
    ensures r.toppings == []
  {
    Pizza(row.id, row.orderId, SpecialById(db, row.specialId), row.specialId, row.size, [])
  }

  /** An order row can be rebuilt: the address it names exists and each of its pizza
      rows can be rebuilt. */
  predicate OrderReadable(db: Db, row: OrderRow) {
    && AddressById(db, row.deliveryAddressId).Some?
    && forall k :: 0 <= k < |PizzasOfOrder(db, row.orderId)| ==> PizzaReadable(db, PizzasOfOrder(db, row.orderId)[k])
  }

  /** The loop over an order's pizza rows: every row rebuilt, in row order, or a throw
      when one of them cannot be. */
  function ReadPizzas(db: Db, rows: seq<PizzaRow>): (r: Attempt<seq<Pizza>>)
    ensures r.Returned? <==> forall k :: 0 <= k < |rows| ==> PizzaReadable(db, rows[k])
    ensures r.Returned? ==> |r.value| == |rows|
    ensures r.Returned? ==> forall k :: 0 <= k < |rows| ==> r.value[k] == ReadPizza(db, rows[k])
  {
    if forall k :: 0 <= k < |rows| ==> PizzaReadable(db, rows[k]) then
      Returned(seq(|rows|, k requires 0 <= k < |rows| => ReadPizza(db, rows[k])))
    else Raised
  }

  /** `GetOrder`: the order rebuilt from an `Orders` row, or a throw when its address,
      one of its pizzas' specials, or a topping named by the reader's join table is
      missing. */
  function ReadOrder(db: Db, row: OrderRow): (r: Attempt<Order>)
    ensures r.Returned? <==> OrderReadable(db, row)
    ensures row.deliveryAddressId.None? ==> r.Raised?
  {
    if OrderReadable(db, row) then
      Returned(Order(row.orderId, row.userId, row.createdTime, AddressById(db, row.deliveryAddressId),
                     ReadPizzas(db, PizzasOfOrder(db, row.orderId)).value))
    else Raised
  }

  /** A rebuilt order carries its row's columns, the stored address its row names, and
      one pizza per `Pizzas` row of the order, in row order, each with its row's columns,
      the stored special it names, and no toppings. */
  lemma ReadOrderFields(db: Db, row: OrderRow)
    requires ReadOrder(db, row).Returned?
    ensures var o := ReadOrder(db, row).value;
      && o.orderId == row.orderId && o.userId == row.userId && o.createdTime == row.createdTime
      && o.deliveryAddress.Some? && row.deliveryAddressId == Some(o.deliveryAddress.value.id)
      && o.deliveryAddress.value in db.addresses
    ensures var o := ReadOrder(db, row).value;
      var rows := PizzasOfOrder(db, row.orderId);
      && |o.pizzas| == |rows|
      && forall k :: 0 <= k < |rows| ==>
           var p := o.pizzas[k];
           && p.id == rows[k].id && p.orderId == row.orderId && p.specialId == rows[k].specialId
           && p.size == rows[k].size && p.toppings == []
           && p.special.Some? && p.special.value.id == p.specialId && p.special.value in db.specials
  {
  }

  /** GET /orders/{orderId}: a non-positive id is a bad request before any lookup, an id
      with no `Orders` row is not found, and otherwise the rebuilt order goes through
      `fromOrder`; a throw while rebuilding escapes the handler. */
  function OrderResponse<S>(db: Db, orderId: int, fromOrder: Order -> S): (r: Response<S>)
    ensures orderId < 1 ==> r == BadRequest(None)
    ensures orderId >= 1 && (forall k :: 0 <= k < |db.orders| ==> db.orders[k].orderId != orderId) ==> r == NotFound
    ensures r.Ok? ==> orderId >= 1 && OrderById(db, orderId).Some?
                      && ReadOrder(db, OrderById(db, orderId).value).Returned?
                      && r.value == fromOrder(ReadOrder(db, OrderById(db, orderId).value).value)
    ensures r == InternalError <==>
              orderId >= 1 && OrderById(db, orderId).Some? && ReadOrder(db, OrderById(db, orderId).value).Raised?
    ensures r == NotFound <==> orderId >= 1 && OrderById(db, orderId).None?
    ensures orderId >= 1 && OrderById(db, orderId).Some? && ReadOrder(db, OrderById(db, orderId).value).Returned?
            ==> r.Ok?
    ensures r.BadRequest? ==> orderId < 1
  {
    if orderId < 1 then BadRequest(None)
    else
      match OrderById(db, orderId)
      case None => NotFound
      case Some(row) =>
        match ReadOrder(db, row)
        case Raised => InternalError
        case Returned(order) => Ok(fromOrder(order))
  }

  /** A loop that reads every row in order and collects the results, stopping at the
      first read that throws. */
  function Collect<R, T>(rows: seq<R>, read: R -> Attempt<T>): Attempt<seq<T>>
    decreases |rows|
  {
    if rows == [] then Returned([])
    else
      match Collect(rows[..|rows| - 1], read)
      case Raised => Raised
      case Returned(done) =>
        match read(rows[|rows| - 1])
        case Raised => Raised
        case Returned(x) => Returned(done + [x])
  }

  /** The loop completes exactly when every read returns, and then yields the reads'
      results in row order. */
  lemma {:induction false} CollectShape<R, T>(rows: seq<R>, read: R -> Attempt<T>)
    ensures var r := Collect(rows, read);
      && (r.Returned? <==> forall k :: 0 <= k < |rows| ==> read(rows[k]).Returned?)
      && (r.Returned? ==> |r.value| == |rows| && forall k :: 0 <= k < |rows| ==> r.value[k] == read(rows[k]).value)
    decreases |rows|
  {
    if rows != [] {
      var init := rows[..|rows| - 1];
      CollectShape(init, read);
      assert forall k :: 0 <= k < |init| ==> init[k] == rows[k];
      if Collect(init, read).Raised? {
        var k :| 0 <= k < |init| && !read(init[k]).Returned?;
        assert !read(rows[k]).Returned?;
      }
    }
  }

  /** One turn of GET /orders' loop: the row's order rebuilt and converted. */
  function ReadConverted<S>(db: Db, fromOrder: Order -> S): OrderRow -> Attempt<S> {
    (row: OrderRow) => match ReadOrder(db, row)
                       case Raised => Raised
                       case Returned(order) => Returned(fromOrder(order))
  }

  /** GET /orders: one result per `Orders` row, in row order, each the rebuilt order
      through `fromOrder`; a throw while rebuilding any of them escapes the handler. */
  function OrdersResponse<S>(db: Db, fromOrder: Order -> S): (r: Response<seq<S>>)
    ensures r.Ok? || r == InternalError
    ensures r.Ok? <==> forall k :: 0 <= k < |db.orders| ==> ReadOrder(db, db.orders[k]).Returned?
    ensures r.Ok? ==> |r.value| == |db.orders|
                      && forall k :: 0 <= k < |db.orders| ==> r.value[k] == fromOrder(ReadOrder(db, db.orders[k]).value)
  {
    CollectShape(db.orders, ReadConverted(db, fromOrder));
    match Collect(db.orders, ReadConverted(db, fromOrder))
    case Raised => InternalError
    case Returned(all) => Ok(all)
  }
}
