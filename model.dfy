/** The entities the order endpoints exchange with their callers: an order graph as the
    request body carries it and as the reader rebuilds it, the catalog rows it refers to,
    and the HTTP results the handlers return. */
module Model {

  /** A reference that may be null. */
  datatype Option<T> = None | Some(value: T)

  /** The result a handler returns. `InternalError` stands for an exception that escapes
      the handler, which the web framework turns into a server error. */
  datatype Response<T> =
    | Ok(value: T)
    | BadRequest(message: Option<string>)
    | NotFound
    | InternalError

  /** A delivery address; `id` is assigned by the `Address` table. */
  datatype Address = Address(
    id: int,
    name: string,
    line1: string,
    line2: string,
    city: string,
    region: string,
    postalCode: string)

  /** A catalog topping. `name` is a nullable string; `price` is a decimal amount. */
  datatype Topping = Topping(id: int, name: Option<string>, price: real)

  /** A catalog pizza special (only the columns this code relies on). */
  datatype PizzaSpecial = PizzaSpecial(id: int, name: string, basePrice: real)

  /** A join record linking one pizza to one catalog topping. */
  datatype PizzaTopping = PizzaTopping(topping: Option<Topping>, toppingId: int, pizzaId: int)

  datatype Pizza = Pizza(
    id: int,
    orderId: int,
    special: Option<PizzaSpecial>,
    specialId: int,
    size: int,
    toppings: seq<PizzaTopping>)

  /** An order; `createdTime` is a timestamp in clock ticks. */
  datatype Order = Order(
    orderId: int,
    userId: string,
    createdTime: int,
    deliveryAddress: Option<Address>,
    pizzas: seq<Pizza>)

  /** What the caller supplied in an order graph: the graph with the four fields the
      order writer overwrites (the order's id and creation time, each pizza's order id
      and each topping's pizza id) blanked out. */
  function Content(o: Order): Order {
    o.(orderId := 0, createdTime := 0, pizzas := PizzasContent(o.pizzas))
  }

  function PizzasContent(ps: seq<Pizza>): (r: seq<Pizza>)
    ensures |r| == |ps|
    ensures forall k :: 0 <= k < |ps| ==> r[k] == PizzaContent(ps[k])
  {
    seq(|ps|, k requires 0 <= k < |ps| => PizzaContent(ps[k]))
  }

  function PizzaContent(p: Pizza): Pizza {
    p.(orderId := 0, toppings := ToppingsContent(p.toppings))
  }

  function ToppingsContent(ts: seq<PizzaTopping>): (r: seq<PizzaTopping>)
    ensures |r| == |ts|
    ensures forall j :: 0 <= j < |ts| ==> r[j] == ts[j].(pizzaId := 0)
  {
    seq(|ts|, j requires 0 <= j < |ts| => ts[j].(pizzaId := 0))
  }

  /** Two graphs agree on everything the caller supplied. */
  predicate SameContent(a: Order, b: Order) {
    Content(a) == Content(b)
  }
}
