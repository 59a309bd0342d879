/** The implicit conversion from a pizza-topping join record to a catalog topping. */
module Toppings {
  import opened Model

  /** Converts a (nullable) join record into a new topping that carries only the
      referenced topping's id: the name stays null and the price at its default 0. */
  function FromPizzaTopping(pizzaTopping: Option<PizzaTopping>): (r: Option<Topping>)
    ensures r.None? <==> pizzaTopping.None?
    ensures r.Some? ==> r.value.id == pizzaTopping.value.toppingId
    ensures r.Some? ==> r.value.name.None? && r.value.price == 0.0
  {
    match pizzaTopping
    case None => None
    case Some(pt) => Some(Topping(pt.toppingId, None, 0.0))
  }

  /** The conversion reads the topping id and nothing else: two join records that
      name the same topping convert to the same topping, whatever their pizza ids
      and nested catalog toppings. */
  lemma ReadsOnlyToppingId(a: PizzaTopping, b: PizzaTopping)
    requires a.toppingId == b.toppingId
    ensures FromPizzaTopping(Some(a)) == FromPizzaTopping(Some(b))
  {
  }

  /** Converting the join record of a catalog topping recovers that topping only when
      the catalog row itself has no name and a zero price: the conversion does not
      carry catalog data. */
  lemma LosesCatalogData(t: Topping, pizzaId: int)
    ensures FromPizzaTopping(Some(PizzaTopping(Some(t), t.id, pizzaId))) == Some(t)
        <==> t.name.None? && t.price == 0.0
  {
  }
}
