/** The reviews service: request validation (the review schema) and the
    handlers of the review routes over an immutable reviews table. */
module Reviews {

  import opened Common
  import opened Tables

  const MinRating := 1
  const MaxRating := 5
  const MaxCommentLength := 500

  /** A stored review; its id is the table key. */
  datatype Review = Review(productId: int, customerId: int, rating: int, comment: Option<string>)

  /** A request body restricted to the schema's keys; `None` means the key was not sent. */
  datatype Payload = Payload(productId: Option<int>, customerId: Option<int>, rating: Option<int>, comment: Option<string>)

  /** The schema fields a validation error can be reported under. */
  datatype Field = ProductIdField | CustomerIdField | RatingField | CommentField

  /** A full load (create) insists on the required keys; a partial load (update) does not. */
  datatype Load = Full | Partial

  type Store = Table<Review>

  predicate RatingInRange(rating: int) {
    MinRating <= rating <= MaxRating
  }

  predicate CommentFits(comment: string) {
    |comment| <= MaxCommentLength
  }

  /** First pass of a load: on a full load, every required key that is absent. */
  function MissingRequired(p: Payload, mode: Load): set<Field> {
    if mode == Partial then {}
    else
      (if p.productId.None? then {ProductIdField} else {})
      + (if p.customerId.None? then {CustomerIdField} else {})
      + (if p.rating.None? then {RatingField} else {})
  }

  /** Second pass: the field validators, which only see values that were sent. */
  function ValidatorErrors(p: Payload): set<Field> {
    (match p.rating
     case Some(v) => if RatingInRange(v) then {} else {RatingField}
     case None => {})
    + (match p.comment
       case Some(c) => if CommentFits(c) then {} else {CommentField}
       case None => {})
  }

  /** Loading a payload: the set of fields with an error, empty when the load succeeds. */
  function Errors(p: Payload, mode: Load): (errs: set<Field>)
    ensures ProductIdField in errs <==> mode == Full && p.productId.None?
    ensures CustomerIdField in errs <==> mode == Full && p.customerId.None?
    ensures RatingField in errs <==>
              (mode == Full && p.rating.None?) || (p.rating.Some? && !(1 <= p.rating.value <= 5))
    ensures CommentField in errs <==> p.comment.Some? && |p.comment.value| > 500
  {
    MissingRequired(p, mode) + ValidatorErrors(p)
  }

  /** The payloads a load accepts, described positively. */
  predicate Acceptable(p: Payload, mode: Load) {
    && (mode == Full ==> p.productId.Some? && p.customerId.Some? && p.rating.Some?)
    && (p.rating.Some? ==> 1 <= p.rating.value <= 5)
    && (p.comment.Some? ==> |p.comment.value| <= 500)
  }

  /** A load succeeds exactly on the acceptable payloads. */
  lemma ErrorsEmptyIffAcceptable(p: Payload, mode: Load)
    ensures Errors(p, mode) == {} <==> Acceptable(p, mode)
  {
  }

  /** A partial load reports a subset of what a full load reports, and differs only
      by the required keys that are absent. */
  lemma PartialErrorsWithinFull(p: Payload)
    ensures Errors(p, Partial) <= Errors(p, Full)
    ensures Errors(p, Full) - Errors(p, Partial) <= {ProductIdField, CustomerIdField, RatingField}
    ensures p.productId.Some? && p.customerId.Some? && p.rating.Some? ==> Errors(p, Full) == Errors(p, Partial)
  {
  }

  /** What every review written through the validated routes satisfies. */
  ghost predicate WellFormed(r: Review) {
    RatingInRange(r.rating) && (r.comment.Some? ==> CommentFits(r.comment.value))
  }

  ghost predicate StoreOk(t: Store) {
    Valid(t) && forall id :: id in t.rows ==> WellFormed(t.rows[id])
  }

  /** POST /reviews/: validate the whole payload, then insert under a fresh id;
      an absent comment is stored as none. */
  function Create(t: Store, p: Payload): (r: Step<(int, Review), set<Field>, Review>)
    requires Valid(t)
    ensures r.outcome.Ok? || r.outcome.Invalid?
    ensures r.outcome.Invalid? <==> !Acceptable(p, Full)
    ensures r.outcome.Invalid? ==> r.table == t && r.outcome.errors != {}
    ensures r.outcome.Ok? ==>
              var (id, rev) := r.outcome.value;
              && id !in t.rows
              && r.table.rows == t.rows[id := rev]
              && rev == Review(p.productId.value, p.customerId.value, p.rating.value, p.comment)
              && WellFormed(rev)
    ensures Valid(r.table) && Extends(t, r.table)
    ensures StoreOk(t) ==> StoreOk(r.table)
  {
    ErrorsEmptyIffAcceptable(p, Full);
    var errs := Errors(p, Full);
    if errs != {} then
      Step(Invalid(errs), t)
    else
      var rev := Review(p.productId.value, p.customerId.value, p.rating.value, p.comment);
      var (id, t') := Insert(t, rev);
      Step(Ok((id, rev)), t')
  }

  /** PUT /reviews/<id>: look the review up first, then validate the payload as a
      partial load, then overwrite only the rating and the comment that were sent. */
  function Update(t: Store, id: int, p: Payload): (r: Step<Review, set<Field>, Review>)
    requires Valid(t)
    ensures r.outcome.Ok? || r.outcome.NotFound? || r.outcome.Invalid?
    ensures r.outcome.NotFound? <==> id !in t.rows
    ensures id !in t.rows ==> r.table == t
    ensures id in t.rows ==> (r.outcome.Invalid? <==> !Acceptable(p, Partial))
    ensures !r.outcome.Ok? ==> r.table == t
    ensures r.outcome.Ok? ==>
              && id in t.rows
              && var old_ := t.rows[id];
              && r.table.rows == t.rows[id := r.outcome.value]
              && r.outcome.value.productId == old_.productId
              && r.outcome.value.customerId == old_.customerId
              && r.outcome.value.rating == (if p.rating.Some? then p.rating.value else old_.rating)
              && r.outcome.value.comment == (if p.comment.Some? then p.comment else old_.comment)
    ensures Valid(r.table) && Extends(t, r.table)
    ensures StoreOk(t) ==> StoreOk(r.table)
  {
    if id !in t.rows then
      Step(NotFound, t)
    else
      ErrorsEmptyIffAcceptable(p, Partial);
      var errs := Errors(p, Partial);
      if errs != {} then
        Step(Invalid(errs), t)
      else
        var current := t.rows[id];
        var withRating := match p.rating
          case Some(v) => current.(rating := v)
          case None => current;
        var updated := match p.comment
          case Some(_) => withRating.(comment := p.comment)
          case None => withRating;
        Step(Ok(updated), Put(t, id, updated))
  }

  /** The moderation actions the route recognises. */
  const ModerationActions: set<string> := {"approve", "flag"}

  /** POST /reviews/moderate/<id>: look the review up, check the action, and
      acknowledge it; no moderation state is recorded. */
  function Moderate(t: Store, id: int, action: Option<string>): (r: Step<Review, (), Review>)
    ensures r.table == t
    ensures id !in t.rows ==> r.outcome.NotFound?
    ensures id in t.rows && !(action == Some("approve") || action == Some("flag")) ==> r.outcome.Invalid?
    ensures r.outcome.Ok? <==> id in t.rows && (action == Some("approve") || action == Some("flag"))
    ensures r.outcome.Ok? ==> r.outcome.value == t.rows[id]
  {
    if id !in t.rows then Step(NotFound, t)
    else if action.None? || action.value !in ModerationActions then Step(Invalid(()), t)
    else Step(Ok(t.rows[id]), t)
  }

  /** The two columns the listing routes filter on. */
  datatype Column = ProductColumn | CustomerColumn

  function ColumnValue(r: Review, c: Column): int {
    match c
    case ProductColumn => r.productId
    case CustomerColumn => r.customerId
  }

  /** GET /reviews/product/<product_id> and GET /reviews/customer/<customer_id>:
      the reviews whose column holds `value`, each once, in id order. */
  method FilterBy(t: Store, c: Column, value: int) returns (rows: seq<(int, Review)>)
    ensures forall i :: 0 <= i < |rows| ==>
              rows[i].0 in t.rows && t.rows[rows[i].0] == rows[i].1 && ColumnValue(rows[i].1, c) == value
    ensures forall id :: id in t.rows && ColumnValue(t.rows[id], c) == value ==>
              exists i :: 0 <= i < |rows| && rows[i].0 == id
    ensures forall i, j :: 0 <= i < j < |rows| ==> rows[i].0 < rows[j].0
  {
    var matching := map id | id in t.rows && ColumnValue(t.rows[id], c) == value :: t.rows[id];
    rows := Scan(matching);
    assert forall id :: id in t.rows && ColumnValue(t.rows[id], c) == value ==> id in matching;
  }

  /** The requests that change the reviews table, or could: moderation is served but
      writes nothing. Reads leave the table as it is. */
  datatype Request =
    | PostReview(payload: Payload)
    | PutReview(id: int, payload: Payload)
    | DeleteReview(id: int)
    | ModerateReview(id: int, action: Option<string>)

  /** The table after one request: POST is `Create`, PUT is `Update`, DELETE is
      `Tables.Drop`, moderation is `Moderate`. */
  function Serve(t: Store, q: Request): (t': Store)
    requires Valid(t)
    ensures Valid(t') && Extends(t, t')
    ensures StoreOk(t) ==> StoreOk(t')
  {
    match q
    case PostReview(p) => Create(t, p).table
    case PutReview(id, p) => Update(t, id, p).table
    case DeleteReview(id) => Drop(t, id).table
    case ModerateReview(id, action) => Moderate(t, id, action).table
  }

  /** The table after a sequence of requests, served in order. Since both write
      routes validate first, every review the service ever stores, over any history
      from a well-formed table, has a rating in 1..5 and a comment of at most 500
      characters. */
  function Replay(t: Store, qs: seq<Request>): (t': Store)
    requires Valid(t)
    ensures Valid(t') && Extends(t, t')
    ensures StoreOk(t) ==> StoreOk(t')
    decreases |qs|
  {
    if qs == [] then t else Replay(Serve(t, qs[0]), qs[1..])
  }

  /** Starting from the empty table, every stored review is well-formed. */
  lemma FromEmptyEveryReviewWellFormed(qs: seq<Request>)
    ensures forall id :: id in Replay(Empty(), qs).rows ==> WellFormed(Replay(Empty(), qs).rows[id])
  {
  }

  /** A created review reads back unchanged. */
  lemma CreateThenGet(t: Store, p: Payload)
    requires Valid(t) && Acceptable(p, Full)
    ensures Create(t, p).outcome.Ok?
    ensures Fetch(Create(t, p).table, Create(t, p).outcome.value.0)
            == Ok(Review(p.productId.value, p.customerId.value, p.rating.value, p.comment))
  {
  }

  /** After a delete the id reads as missing, and a second delete is a 404. */
  lemma DeleteThenGet(t: Store, id: int)
    requires Valid(t)
    ensures Fetch(Drop(t, id).table, id) == NotFound
    ensures Drop(Drop(t, id).table, id).outcome == NotFound
  {
  }

  /** Sending the same update twice leaves the table as sending it once. */
  lemma UpdateIdempotent(t: Store, id: int, p: Payload)
    requires Valid(t)
    ensures Update(Update(t, id, p).table, id, p).table == Update(t, id, p).table
  {
  }

  /** The verdicts the service's tests expect from the schema. */
  lemma ValidationExamples()
    ensures RatingField in Errors(Payload(Some(1), Some(2), Some(6), Some("Invalid rating test")), Full)
    ensures RatingField in Errors(Payload(None, None, Some(10), Some("Updated with invalid rating")), Partial)
    ensures Errors(Payload(Some(1), Some(2), Some(5), Some("Excellent product!")), Full) == {}
    ensures Errors(Payload(Some(1), None, Some(5), None), Full) == {CustomerIdField}
    ensures Errors(Payload(None, None, Some(4), Some("Updated comment")), Partial) == {}
  {
  }

  /** The rating bounds are inclusive: 1 and 5 pass, 0 and 6 fail, on either load. */
  lemma RatingBoundaries(mode: Load)
    ensures RatingField in Errors(Payload(Some(1), Some(2), Some(0), None), mode)
    ensures RatingField in Errors(Payload(Some(1), Some(2), Some(6), None), mode)
    ensures Errors(Payload(Some(1), Some(2), Some(1), None), mode) == {}
    ensures Errors(Payload(Some(1), Some(2), Some(5), None), mode) == {}
  {
  }
}
