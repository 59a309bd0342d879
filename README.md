# BlazingPizza order endpoints in Dafny

This project models the order endpoints of the BlazingPizza API server:

- `POST /orders` writes an order graph (an optional delivery address, the order, its pizzas and their topping join records) inside one transaction. It answers with the new order id, or rolls back and answers with a failure message.
- `GetOrder` rebuilds an order from its `Orders` row by keyed lookups.
- `GET /orders/{orderId}` and `GET /orders` return rebuilt orders, converted through `OrderWithStatus.FromOrder`.
- The implicit conversion from a `PizzaTopping` join record to a `Topping` is modelled too.

The database is a set of in-memory tables. Each table is a sequence of rows in enumeration order. Each store-generated key is an identity counter.

Modules:

- `Model` (model.dfy) holds the entities of the object graph as values: `Address`, `Topping`, `PizzaSpecial`, `PizzaTopping`, `Pizza`, `Order`, and the HTTP `Response`. `Content` is the part of a graph the caller supplies.
- `Toppings` (topping.dfy) holds the implicit conversion.
- `Tables` (tables.dfy) holds the rows, the store `Db`, and its validity invariant. It also holds `FindFirst` and `Where`, the row semantics of `QueryFirst`/`QueryFirstOrDefault` and `Query`, and the inserts.
- `OrderWriter` (writer.dfy) holds the POST handler as a function `Place` of the store, the input graph, the clock value `now`, and a fault oracle. The fault oracle names the insert that throws, if any. The module also holds the committed store and the stamped graph in closed form, and the lemmas that connect them.
- `OrderReader` (reader.dfy) holds `GetOrder` as `ReadOrder`, and the two GET handlers as `OrderResponse` and `OrdersResponse`. A lookup that finds no row throws (`Raised`), as `QueryFirst` does. An exception that escapes a handler becomes `InternalError`.
- `OrderEndpoints` (endpoints.dfy) holds a `Store` class whose table fields the handlers update in place. The handler methods use the source's loops. Each is proved against the function above that specifies it.
- `RoundTrip` (roundtrip.dfy) says what a GET of a freshly posted order returns.

What the model shows about the code as written, all proved as lemmas:

- The writer inserts join rows into `PizzaToppings`. The reader queries a table named `PizzaTopping`, which the writer never touches.
- The reader builds one join record per row it finds, then assigns the pizza an empty topping list. So a read-back pizza never carries toppings, whatever was posted (`RoundTrip.PostThenRead`, `RoundTrip.ReadBackMatchesGraph`).
- When no insert throws, an order posted without a delivery address is committed, but reading it throws. Its null address id matches no `Address` row, and `QueryFirst` throws when no row is found. After that, `GET /orders/{id}` for that order and `GET /orders` both fail (`RoundTrip.PostWithoutAddressUnreadable`).
- The `Results.NotFound()` arm after `GetOrder` in `GET /orders/{orderId}` is dead, because `GetOrder` returns an order or throws. Likewise the `dbOrders == null` arm of `GET /orders` is dead, because `Query` returns a possibly empty sequence. The model has no such results: `OrderResponse` and `OrdersResponse` never produce them.
- For an order with an address, over catalogs that cover it, reading back a posted order returns its user, creation time, the address under its new id, the new pizza ids, and the specials and sizes, but not its toppings. POST does not write the new address and pizza ids into the graph it leaves behind, so those ids differ from the graph's (`RoundTrip.ReadBackMatchesGraph`).

## Model

| member | source | states |
|---|---|---|
| Toppings.FromPizzaTopping | Model/Topping.cs:14-26 | a null join record converts to null; otherwise the result is a new topping whose id is the join record's topping id, with no name and a zero price |
| Toppings.ReadsOnlyToppingId | Model/Topping.cs:21-25 | two join records naming the same topping id convert to the same topping, whatever their pizza ids and nested catalog toppings |
| Toppings.LosesCatalogData | Model/Topping.cs:21-25 | converting a catalog topping's join record gives back that topping if and only if the topping has no name and a zero price |
| Tables.FindFirst | Endpoints/OrderEndpoints.cs:46 | the lookup finds a row if and only if some row matches, and then returns the first matching row in enumeration order |
| Tables.Where | Endpoints/OrderEndpoints.cs:146 | a query returns only matching rows of the table, and every matching row is among them |
| Tables.AddressById | Endpoints/OrderEndpoints.cs:140-141 | a found address is a row of `Address` whose id equals the parameter; no row is found exactly when no row's id equals it, which is always the case for a null id |
| Tables.OrderById | Endpoints/OrderEndpoints.cs:45-46 | a found row is an `Orders` row with the requested id; nothing is found only when no `Orders` row has that id |
| Tables.SpecialById | Endpoints/OrderEndpoints.cs:162-163 | a found special is a row of `Specials` with the requested id; nothing is found only when no special has that id |
| Tables.ToppingById | Endpoints/OrderEndpoints.cs:181-182 | a found topping is a row of `Toppings` with the requested id; nothing is found only when no topping has that id |
| Tables.PizzasOfOrder | Endpoints/OrderEndpoints.cs:145-146 | a pizza row is returned if and only if it is a `Pizzas` row of the requested order |
| Tables.ReaderJoinsOf | Endpoints/OrderEndpoints.cs:167-168 | a join row is returned if and only if it is a `PizzaTopping` row of the requested pizza |
| Tables.InsertAddress | Endpoints/OrderEndpoints.cs:73-76 | appends the address under the next address id, which no existing address holds in a valid store; the other tables are unchanged and the store stays valid |
| Tables.InsertOrder | Endpoints/OrderEndpoints.cs:80-88 | appends the order row (new id, user, creation time, address id) under an id no existing order holds in a valid store; the other tables are unchanged and the store stays valid |
| Tables.InsertPizza | Endpoints/OrderEndpoints.cs:95-98 | appends the pizza row (new id, order id, special, size) under an id no existing pizza holds in a valid store; the other tables are unchanged, and the store stays valid when the order id was already issued |
| Tables.InsertJoin | Endpoints/OrderEndpoints.cs:106-109 | appends one `PizzaToppings` row pairing the pizza id with the topping id; nothing else changes and the store stays valid |
| Tables.FindFirstAfter | Endpoints/OrderEndpoints.cs:46 | appending rows to a table in which no row matches makes the lookup return the first matching appended row |
| OrderWriter.Place | Endpoints/OrderEndpoints.cs:55-123 | a null body is a bad request with no message, and the store is untouched; otherwise the graph's creation time becomes `now`; the store changes only when the response is Ok; any non-Ok response to a body is a bad request carrying "Failed to create the order" |
| OrderWriter.StartOrder | Endpoints/OrderEndpoints.cs:68-88 | the address insert (only when there is an address) and the order insert: they throw exactly when the fault falls on one of them, leaving the graph as it was; otherwise the store is the old one with the address appended under the next address id (only when there is one) and the `Orders` row (user, creation time, new address id or null) appended under the next order id, nothing else changed; the graph takes that order id, and the store stays valid |
| OrderWriter.InsertOrderRow | Endpoints/OrderEndpoints.cs:80-88 | the order insert throws exactly when the fault names it, leaving the graph unchanged; otherwise the store is the old one with the order row appended under the next order id and nothing else changed, the graph takes that id, and the store stays valid |
| OrderWriter.AfterPizzaInsert | Endpoints/OrderEndpoints.cs:92-98 | pizza `i` takes the order's id and the graph's other pizzas and fields stay; a `Pizzas` row (next pizza id, order id, special, size) is appended after the existing rows and no other table changes; the store stays valid when the order id is one already issued |
| OrderWriter.InsertToppings | Endpoints/OrderEndpoints.cs:101-110 | when no insert throws, the topping loop appends one `PizzaToppings` row per remaining topping after the existing rows, changes no other table, and keeps the graph's order id and pizza count |
| OrderWriter.InsertPizzas | Endpoints/OrderEndpoints.cs:90-111 | when no insert throws, the pizza loop appends one `Pizzas` row per remaining pizza, and join rows, after the existing rows; `Address`, `Orders` and the catalogs are unchanged, as are the graph's order id and pizza count; the store stays valid when the graph's order id is one already issued |
| OrderWriter.InsertToppingsEffect | Endpoints/OrderEndpoints.cs:101-110 | the topping loop either appends one `PizzaToppings` row (pizza id, topping id) per remaining topping, in order, and stamps each topping with the pizza's new id; or, exactly when one of those inserts throws, it stops with the graph's content, order id and creation time intact |
| OrderWriter.InsertPizzasEffect | Endpoints/OrderEndpoints.cs:90-111 | the pizza loop either appends one `Pizzas` row per remaining pizza with consecutive new ids, each followed by its join rows, and stamps every pizza with the order id and every topping with its pizza's id; or, exactly when one of those inserts throws, it stops with the graph's content intact |
| OrderWriter.PizzaTurn | Endpoints/OrderEndpoints.cs:92-110 | one turn of the pizza loop after the fault check: when it completes, exactly one `Pizzas` row has been appended, rows were added only to `Pizzas` and `PizzaToppings`, the graph's order id and pizza count are kept, and the store stays valid when the order id is one already issued |
| OrderWriter.PizzaTurnFault | Endpoints/OrderEndpoints.cs:101-110 | a turn completes exactly when none of its topping inserts throws, and then has issued one insert per topping after the pizza's own, leaving later pizzas alone |
| OrderWriter.PizzaTurnStamps | Endpoints/OrderEndpoints.cs:92-103 | a completed turn stamps the pizza with the order id and each of its toppings with the pizza's new id |
| OrderWriter.PizzaTurnRows | Endpoints/OrderEndpoints.cs:95-109 | a completed turn appends the pizza's row under the next pizza id, then one join row per topping |
| OrderWriter.PizzaTurnThrew | Endpoints/OrderEndpoints.cs:101-110 | a turn that throws leaves a graph with the caller's content, order id and creation time |
| OrderWriter.PizzaStep | Endpoints/OrderEndpoints.cs:92-110 | one turn of the pizza loop: after a successful pizza insert, the turn completes exactly when none of that pizza's topping inserts throws, and then the store gains the pizza row and its join rows |
| OrderWriter.PlaceCommits | Endpoints/OrderEndpoints.cs:64-116 | when no insert throws, POST answers Ok with the new order id; the store becomes the committed store, and the graph is stamped with `now`, the order id and the new pizza ids |
| OrderWriter.PlaceRollsBack | Endpoints/OrderEndpoints.cs:66-123 | when any insert throws, POST answers with the failure message; the store is exactly as before, and the graph keeps the caller's content with the new creation time; the graph carries the new order id exactly when the throw came after the order insert, and the caller's order id otherwise |
| OrderWriter.PlaceSucceedsIff | Endpoints/OrderEndpoints.cs:113-123 | POST of a body succeeds if and only if none of the inserts it issues throws |
| OrderWriter.CommittedShape | Endpoints/OrderEndpoints.cs:68-110 | a commit adds an `Address` row exactly when the order has an address, and adds one `Orders` row with the user, `now`, and the new address id or null; it adds one `Pizzas` row per pizza in input order under the new order id, and one `PizzaToppings` row per topping; existing rows, the catalogs and `PizzaTopping` are unchanged |
| OrderWriter.CommittedValid | Endpoints/OrderEndpoints.cs:73-98 | a commit keeps the store valid, and every generated key is one that no existing row of its table holds |
| OrderWriter.PlaceKeepsValid | Endpoints/OrderEndpoints.cs:55-123 | POST keeps the store valid, whether it commits, rolls back or rejects the body |
| OrderWriter.JoinRowsCount | Endpoints/OrderEndpoints.cs:101-110 | the join rows written number exactly the toppings of all the pizzas |
| OrderWriter.JoinRowsMembers | Endpoints/OrderEndpoints.cs:101-110 | a join row is written if and only if it pairs some pizza's new id with one of that pizza's topping ids |
| OrderWriter.PizzaRowsAt | Endpoints/OrderEndpoints.cs:92-98 | the k-th pizza row written has id first+k, the new order id, and the k-th pizza's special and size |
| OrderWriter.ToppingRowsAt | Endpoints/OrderEndpoints.cs:101-109 | the j-th join row of a pizza pairs the pizza's id with the j-th topping's id |
| OrderWriter.StampPizzasAt | Endpoints/OrderEndpoints.cs:92-103 | the k-th pizza of the stamped graph carries the order id, and its toppings carry the pizza's new id |
| OrderWriter.StampToppingsAt | Endpoints/OrderEndpoints.cs:103 | each stamped topping keeps its data and carries the pizza's new id |
| OrderReader.ReadPizza | Endpoints/OrderEndpoints.cs:150-187 | a readable pizza row is rebuilt with the row's id, order id, special id and size, the stored special with that id, and an empty topping list |
| OrderReader.ReadPizzas | Endpoints/OrderEndpoints.cs:148-188 | the pizza loop returns if and only if every pizza row is readable, and then gives one pizza per row, in row order |
| OrderReader.ReadOrder | Endpoints/OrderEndpoints.cs:127-193 | `GetOrder` returns if and only if the row's address exists, and every pizza's special and every topping its `PizzaTopping` rows name exist; a null address id always throws |
| OrderReader.ReadOrderFields | Endpoints/OrderEndpoints.cs:129-190 | a rebuilt order carries its row's id, user and creation time, and the stored address its row names; it has one pizza per `Pizzas` row of the order, each with the row's columns, the stored special it names, and an empty topping list |
| OrderReader.OrderResponse | Endpoints/OrderEndpoints.cs:38-53 | an id below 1 is a bad request, and an id of 1 or more is not found exactly when it has no `Orders` row; when the row is found and rebuilding returns, the response is Ok with the converted rebuilt order, and it fails exactly when rebuilding throws |
| OrderReader.CollectShape | Endpoints/OrderEndpoints.cs:28-35 | the list loop completes if and only if every read returns, and then yields the reads' results in row order |
| OrderReader.OrdersResponse | Endpoints/OrderEndpoints.cs:17-36 | GET /orders is Ok if and only if every order row can be rebuilt, and then gives one converted order per row, in row order; otherwise it fails |
| OrderEndpoints.Store.AddAddress | Endpoints/OrderEndpoints.cs:73-76 | appends the address under the next address id and returns that id |
| OrderEndpoints.Store.AddOrder | Endpoints/OrderEndpoints.cs:80-88 | appends the order row under the next order id and returns that id |
| OrderEndpoints.Store.AddPizza | Endpoints/OrderEndpoints.cs:95-98 | appends the pizza row under the next pizza id and returns that id |
| OrderEndpoints.Store.AddJoin | Endpoints/OrderEndpoints.cs:106-109 | appends one `PizzaToppings` row |
| OrderEndpoints.Store.Rollback | Endpoints/OrderEndpoints.cs:121 | restores every table and counter to the transaction's snapshot |
| OrderEndpoints.Store.PostOrder | Endpoints/OrderEndpoints.cs:55-123 | the handler's response, final graph and tables are those of `Place`, and the store stays valid |
| OrderEndpoints.Store.WritePizzas | Endpoints/OrderEndpoints.cs:90-111 | the pizza loop over the store ends as `InsertPizzas` does: either it throws with the same graph, or it goes on with the same graph, tables and insert count |
| OrderEndpoints.Store.WriteToppings | Endpoints/OrderEndpoints.cs:101-110 | the topping loop over the store ends as `InsertToppings` does |
| OrderEndpoints.Store.GetOrder | Endpoints/OrderEndpoints.cs:127-193 | returns what `ReadOrder` specifies for the current tables |
| OrderEndpoints.Store.GetPizzas | Endpoints/OrderEndpoints.cs:144-188 | returns what `ReadPizzas` specifies for the order's pizza rows |
| OrderEndpoints.Store.GetPizza | Endpoints/OrderEndpoints.cs:150-187 | returns exactly when the pizza row is readable, and then gives the pizza with its special and an empty topping list |
| OrderEndpoints.Store.GetOrderById | Endpoints/OrderEndpoints.cs:38-53 | returns what `OrderResponse` specifies for the current tables |
| OrderEndpoints.Store.GetOrders | Endpoints/OrderEndpoints.cs:17-36 | returns what `OrdersResponse` specifies for the current tables |
| RoundTrip.OrderRowFound | Endpoints/OrderEndpoints.cs:45-46 | after a commit, the lookup by the new order id finds the new `Orders` row |
| RoundTrip.AddressRowFound | Endpoints/OrderEndpoints.cs:140-141 | after a commit of an order with an address, the lookup by the new address id finds the posted address under that id |
| RoundTrip.PizzaRowsFound | Endpoints/OrderEndpoints.cs:145-146 | after a commit, the reader's pizza query for the new order returns exactly the pizza rows written, in order |
| RoundTrip.CommittedPizzasReadable | Endpoints/OrderEndpoints.cs:161-183 | after a commit over catalogs that cover the order, every pizza row of the new order has its special and its reader-side toppings in the catalogs |
| RoundTrip.CommittedPizzasRead | Endpoints/OrderEndpoints.cs:148-188 | after a commit over covering catalogs, the pizzas of the new order are read back with their new ids, specials and sizes, and no toppings |
| RoundTrip.ReadCommitted | Endpoints/OrderEndpoints.cs:127-193 | after a commit of an order with an address over covering catalogs, `GetOrder` on the new row returns the read-back order |
| RoundTrip.PostThenRead | Endpoints/OrderEndpoints.cs:55-193 | in a valid store, when no insert throws, POST of an order with an address answers with the new id; over catalogs that cover it, `GetOrder` on the new row then returns the posted user, `now`, the address under its new id, and the pizzas under their new ids with specials and sizes but without toppings |
| RoundTrip.PostThenGet | Endpoints/OrderEndpoints.cs:38-53 | in a valid store, when no insert throws, for an order with an address over catalogs that cover it, GET /orders/{id} for the id POST returned is Ok with the read-back order converted |
| RoundTrip.PostWithoutAddressUnreadable | Endpoints/OrderEndpoints.cs:68-88 | in a valid store, when no insert throws, an order posted without an address is committed, but GET of its id and GET of the list both fail |
| RoundTrip.ReadBackMatchesGraph | Endpoints/OrderEndpoints.cs:90-110 | the read-back order agrees with the graph POST left behind on order id, user, creation time, and each pizza's order id, special and size; each pizza id read back is the id POST wrote into that pizza's toppings, and none of those toppings is read back |

## Left out

- `Program.cs` (service registration, the middleware pipeline, Swagger, and database creation and seeding) is not part of this model. The seeded catalogs and the `PizzaTopping` table are the parameters of the `Store` constructor.
- The SQL text, Dapper's mapping, async/await, connections and `using` disposal are left out. Each statement is one table operation, and each `await` completes in program order.
- `SCOPE_IDENTITY()` is modelled as one counter per table, incremented per insert. The program promises only that the returned key is fresh. The exact values in the contracts (POST answering `Ok(nextOrderId)`, the k-th pizza getting `nextPizzaId + k`) come from this counter model, not from the program. A rollback restores the counters, which a real identity column does not.
- OrderWriter.PlaceRollsBack: does not state which pizzas and toppings of the returned graph already carry the order id and their new pizza ids when the throw comes from a pizza or topping insert. It states only the graph's content, creation time and order id.
- OrderWriter.InsertPizzasEffect: on a throw it states only the graph's content, order id and creation time, not which `OrderId` and `PizzaId` stamps were made before the throw.
- OrderWriter.InsertToppingsEffect: on a throw it states only the graph's content, order id and creation time, not which `OrderId` and `PizzaId` stamps were made before the throw.
- OrderWriter.PizzaStep: on a throw it states only the graph's content, order id and creation time, not which `OrderId` and `PizzaId` stamps were made before the throw.
- OrderWriter.PizzaTurnThrew: on a throw it states only the graph's content, order id and creation time, not which `OrderId` and `PizzaId` stamps were made before the throw.
- `DateTime.Now` is the parameter `now`, and `DateTime` is an `int`. The `decimal` prices are `real`.
- `OrderWithStatus.FromOrder` is not part of this model. It is the function parameter `fromOrder`.
- Foreign-key enforcement and any other reason for an insert to throw are captured only by the fault oracle `fault`, which names the throwing insert. `transaction.Commit()` is modelled as never failing.
- `Topping.GetFormattedPrice` is formatting of a decimal and is left out.
- The model has no null `Pizzas` or `Toppings` list and no null element in them. The source would throw at `foreach` there, and that throw would land in the same rollback path.
- Concurrency is not modelled. Each handler runs as one atomic step against the store. How concurrent requests interleave is left to the database's transaction isolation.
- Exception types are not distinguished. Any exception in POST is the rollback path; any exception in a GET is `InternalError`.
- Aliasing between the request graph's objects is not modelled. The graph is a value, and the handler returns it as it leaves it.
- `PizzaSpecial` columns other than id, name and base price are left out.
