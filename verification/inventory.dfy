/** The inventory service: handlers of the product routes over an immutable products table. */
module Inventory {

  import opened Common
  import opened Tables

  /** A stored product; its id is the table key. */
  datatype Product = Product(name: string, description: string, price: Money, quantity: int)

  /** A request body over the product keys; `None` means the key was not sent. */
  datatype ProductRequest = ProductRequest(
    name: Option<string>,
    description: Option<string>,
    price: Option<Money>,
    quantity: Option<int>)

  type Products = Table<Product>

  /** POST /products: name, price and quantity are read by subscript, so an absent one
      raises before anything is written (an unhandled error, HTTP 500); the description
      defaults to the empty string. The new id is returned. */
  function Create(t: Products, req: ProductRequest): (r: Step<int, (), Product>)
    requires Valid(t)
    ensures r.outcome.Ok? || r.outcome.ServerError?
    ensures r.outcome.Ok? <==> req.name.Some? && req.price.Some? && req.quantity.Some?
    ensures r.outcome.ServerError? ==> r.table == t
    ensures r.outcome.Ok? ==>
              && r.outcome.value !in t.rows
              && r.table.rows == t.rows[r.outcome.value := Product(
                   req.name.value,
                   if req.description.Some? then req.description.value else "",
                   req.price.value,
                   req.quantity.value)]
    ensures Valid(r.table) && Extends(t, r.table)
  {
    if req.name.None? || req.price.None? || req.quantity.None? then
      Step(ServerError, t)
    else
      var (id, t') := Insert(t, Product(req.name.value, req.description.GetOr(""), req.price.value, req.quantity.value));
      Step(Ok(id), t')
  }

  /** The product after a request: every field sent replaces the stored one. */
  function Patch(p: Product, req: ProductRequest): (q: Product)
    ensures q.name == (if req.name.Some? then req.name.value else p.name)
    ensures q.description == (if req.description.Some? then req.description.value else p.description)
    ensures q.price == (if req.price.Some? then req.price.value else p.price)
    ensures q.quantity == (if req.quantity.Some? then req.quantity.value else p.quantity)
  {
    Product(req.name.GetOr(p.name), req.description.GetOr(p.description),
            req.price.GetOr(p.price), req.quantity.GetOr(p.quantity))
  }

  /** The requests that change the products table. Listing and reading by id
      (`Tables.Scan`, `Tables.Fetch`) leave it as it is. */
  datatype Request =
    | PostProduct(body: ProductRequest)
    | PutProduct(id: int, body: ProductRequest)
    | DeleteProduct(id: int)

  /** The table after one request: POST is `Create`, PUT patches the stored product
      (404 on a missing id), DELETE is `Tables.Drop`. */
  function Serve(t: Products, q: Request): (t': Products)
    requires Valid(t)
    ensures Valid(t') && Extends(t, t')
  {
    match q
    case PostProduct(body) => Create(t, body).table
    case PutProduct(id, body) => Revise(t, id, p => Patch(p, body)).table
    case DeleteProduct(id) => Drop(t, id).table
  }

  /** The table after a sequence of requests, served in order. Over any history the
      key invariant holds and no id is ever handed out twice. */
  function Replay(t: Products, qs: seq<Request>): (t': Products)
    requires Valid(t)
    ensures Valid(t') && Extends(t, t')
    decreases |qs|
  {
    if qs == [] then t else Replay(Serve(t, qs[0]), qs[1..])
  }

  /** A created product reads back with the fields it was created with. */
  lemma CreateThenGet(t: Products, name: string, description: Option<string>, price: Money, quantity: int)
    requires Valid(t)
    ensures var r := Create(t, ProductRequest(Some(name), description, Some(price), Some(quantity)));
            r.outcome.Ok? && Fetch(r.table, r.outcome.value) == Ok(Product(name, description.GetOr(""), price, quantity))
  {
  }

  /** Updating only the name and the price keeps the description and the quantity. */
  lemma UpdateNameAndPriceKeepsRest(t: Products, id: int, name: string, price: Money)
    requires Valid(t) && id in t.rows
    ensures var r := Serve(t, PutProduct(id, ProductRequest(Some(name), None, Some(price), None)));
            Fetch(r, id) == Ok(t.rows[id].(name := name, price := price))
  {
  }

  /** Create, then delete, then get: the product is gone and the rest of the table is as before. */
  lemma CreateDeleteGet(t: Products, req: ProductRequest)
    requires Valid(t) && req.name.Some? && req.price.Some? && req.quantity.Some?
    ensures var c := Create(t, req);
            var d := Drop(c.table, c.outcome.value);
            d.outcome.Ok? && Fetch(d.table, c.outcome.value) == NotFound && d.table.rows == t.rows
  {
  }

  /** A request that sends nothing leaves the product as it was. */
  lemma EmptyPatchIsIdentity(p: Product)
    ensures Patch(p, ProductRequest(None, None, None, None)) == p
  {
  }

  /** A deleted product stays deleted: whatever requests follow, its id answers 404,
      because ids are never handed out again. */
  lemma DeletedIdStaysGone(t: Products, id: int, qs: seq<Request>)
    requires Valid(t) && id in t.rows
    ensures var d := Drop(t, id);
            d.outcome.Ok? && Fetch(Replay(d.table, qs), id) == NotFound
  {
  }
}
