/** The sales service: handlers of the sale routes over an immutable sales table. */
module Sales {

  import opened Common
  import opened Tables

  /** A stored sale; its id is the table key. `createdAt` is the creation time the
      database stamps once, as read from the clock passed to `Create`. */
  datatype Sale = Sale(customerId: int, productId: int, quantity: int, totalPrice: Money, createdAt: int)

  /** A request body over the four sale keys; `None` means the key was not sent. */
  datatype SaleRequest = SaleRequest(
    customerId: Option<int>,
    productId: Option<int>,
    quantity: Option<int>,
    totalPrice: Option<Money>)

  type Sales = Table<Sale>

  /** All four keys are present. */
  predicate Complete(req: SaleRequest) {
    req.customerId.Some? && req.productId.Some? && req.quantity.Some? && req.totalPrice.Some?
  }

  /** POST /sales: any absent key rejects the request with nothing stored; otherwise
      the sale is stored under a fresh id, which is returned. */
  function Create(t: Sales, req: SaleRequest, now: int): (r: Step<int, (), Sale>)
    requires Valid(t)
    ensures r.outcome.Ok? || r.outcome.Invalid?
    ensures r.outcome.Invalid? <==>
              req.customerId.None? || req.productId.None? || req.quantity.None? || req.totalPrice.None?
    ensures r.outcome.Invalid? ==> r.table == t
    ensures r.outcome.Ok? ==>
              && r.outcome.value !in t.rows
              && r.table.rows == t.rows[r.outcome.value := Sale(
                   req.customerId.value, req.productId.value, req.quantity.value, req.totalPrice.value, now)]
    ensures Valid(r.table) && Extends(t, r.table)
  {
    if !Complete(req) then
      Step(Invalid(()), t)
    else
      var (id, t') := Insert(t, Sale(req.customerId.value, req.productId.value, req.quantity.value,
                                     req.totalPrice.value, now));
      Step(Ok(id), t')
  }

  /** The sale after a request: each of the four keys that was sent is assigned;
      nothing else, the creation time included, changes. */
  function Patch(s: Sale, req: SaleRequest): (s': Sale)
    ensures s'.customerId == (if req.customerId.Some? then req.customerId.value else s.customerId)
    ensures s'.productId == (if req.productId.Some? then req.productId.value else s.productId)
    ensures s'.quantity == (if req.quantity.Some? then req.quantity.value else s.quantity)
    ensures s'.totalPrice == (if req.totalPrice.Some? then req.totalPrice.value else s.totalPrice)
    ensures s'.createdAt == s.createdAt
  {
    var s1 := if req.customerId.Some? then s.(customerId := req.customerId.value) else s;
    var s2 := if req.productId.Some? then s1.(productId := req.productId.value) else s1;
    var s3 := if req.quantity.Some? then s2.(quantity := req.quantity.value) else s2;
    if req.totalPrice.Some? then s3.(totalPrice := req.totalPrice.value) else s3
  }

  /** The requests that change the sales table, each POST with the clock reading at
      which it arrives. Listing and reading by id leave the table as it is. */
  datatype Request =
    | PostSale(body: SaleRequest, at: int)
    | PutSale(id: int, body: SaleRequest)
    | DeleteSale(id: int)

  /** Every sale present both before and after keeps its creation time. */
  ghost predicate KeepsCreationTimes(t: Sales, t': Sales) {
    forall id :: id in t.rows && id in t'.rows ==> t'.rows[id].createdAt == t.rows[id].createdAt
  }

  /** The table after one request: POST is `Create`, PUT patches the stored sale
      (404 on a missing id), DELETE is `Tables.Drop`. */
  function Serve(t: Sales, q: Request): (t': Sales)
    requires Valid(t)
    ensures Valid(t') && Extends(t, t')
    ensures KeepsCreationTimes(t, t')
  {
    match q
    case PostSale(body, at) => Create(t, body, at).table
    case PutSale(id, body) => Revise(t, id, s => Patch(s, body)).table
    case DeleteSale(id) => Drop(t, id).table
  }

  /** The table after a sequence of requests, served in order. Over any history no id
      is handed out twice, and a sale that survives it still carries the time it was
      created at: updates never rewrite `created_at`, and a deleted id never comes back
      as a new sale. */
  function Replay(t: Sales, qs: seq<Request>): (t': Sales)
    requires Valid(t)
    ensures Valid(t') && Extends(t, t')
    ensures KeepsCreationTimes(t, t')
    decreases |qs|
  {
    if qs == [] then t else Replay(Serve(t, qs[0]), qs[1..])
  }

  /** A complete request reads back with exactly the values sent. */
  lemma CreateThenGet(t: Sales, req: SaleRequest, now: int)
    requires Valid(t) && Complete(req)
    ensures var r := Create(t, req, now);
            && r.outcome.Ok?
            && Fetch(r.table, r.outcome.value)
               == Ok(Sale(req.customerId.value, req.productId.value, req.quantity.value, req.totalPrice.value, now))
  {
  }

  /** Sending the values already stored, or sending nothing, leaves a sale as it was. */
  lemma PatchWithStoredValuesIsIdentity(s: Sale)
    ensures Patch(s, SaleRequest(Some(s.customerId), Some(s.productId), Some(s.quantity), Some(s.totalPrice))) == s
    ensures Patch(s, SaleRequest(None, None, None, None)) == s
  {
  }

  /** A delete followed by a listing: the deleted sale is gone and every other one is listed. */
  method DeleteThenList(t: Sales, id: int) returns (rows: seq<(int, Sale)>)
    requires Valid(t)
    ensures forall i :: 0 <= i < |rows| ==> rows[i].0 != id && rows[i].0 in t.rows && t.rows[rows[i].0] == rows[i].1
    ensures forall k :: k in t.rows && k != id ==> exists i :: 0 <= i < |rows| && rows[i].0 == k
  {
    var d := Drop(t, id);
    rows := Scan(d.table.rows);
    forall k | k in t.rows && k != id ensures exists i :: 0 <= i < |rows| && rows[i].0 == k {
      assert k in d.table.rows;
    }
  }
}
