# E-commerce microservices: rule logic of the services, modelled in Dafny

The system is a small e-commerce platform split into independent CRUD services
(customers, inventory, sales, reviews) plus a collaborative-filtering
recommendation script. Each service answers HTTP requests over one database
table. This project models the rule logic behind those handlers. Each table is an
immutable value (`Tables.Table`: a map from id to record plus the auto-increment
counter). Each handler is a pure function that returns an `Outcome`
(`Ok`, `NotFound`, `Invalid`, `ServerError`, standing for 200/201, 404, 400 and 500)
together with the table it leaves behind (`Tables.Step`).

- `Common`: `Option` (a request key that was or was not sent; a nullable column),
  `Outcome`, and `Money` (float columns that are only stored, never computed with).
- `Tables`: insert under a fresh id, update in place, delete, and a primary-key scan
  that lists every row once in id order. It also holds the three routes that all
  services share: read by id, delete by id, and the unvalidated update that patches
  a stored row. The invariant `Valid` says every key was drawn from the counter.
  `Extends` says a key is never handed out twice (under a never-rewound counter).
  Every mutating handler keeps both.
- `Reviews`: the review schema as a function from a payload to the set of fields in
  error, for a full load (create) and a partial load (update). Also the create,
  update, moderate and filter-by-product/customer handlers. `Replay` serves any
  sequence of write requests, and carries what the schema buys over the service's
  whole life: every stored review is well-formed.
- `Customers`: the registration schema as a function from a registration to the set
  of fields in error, and the shape of a stored account.
- `Inventory`, `Sales`: the product and sale handlers, with partial update as a patch
  of optional fields. Each service's `Replay` shows that ids are never reused. For
  sales it also shows that a stored creation time is never rewritten.
- `Recommendation`: the discrete part of the recommender. It assigns dense indices to
  the distinct customers and products, builds the rating matrix in which the last
  review wins, and handles the empty and unknown-customer cases. Then it ranks the
  product columns by score and cuts the ranking at `top_n` and at the first
  non-positive score. The score of a product column is a function parameter
  (`Scorer`) standing for the cosine-similarity-weighted sum.

What the code does at three points where one might expect otherwise:
- The recommender keeps only products whose score is strictly positive
  (`scores[idx] > 0`, recommendation.py:101).
- Inventory create reads `name`, `price` and `quantity` by subscript without
  validating the body (inventory/app/routes.py:40-46). A missing key raises before
  anything is written, and the service answers HTTP 500. The model answers
  `ServerError` and leaves the table unchanged.
- Sales can be updated after creation (sales/app/routes.py:124-136). Only
  `created_at` is never rewritten.

Modelling choices:
- New ids come from a counter that is never rewound. This is what MySQL 8's InnoDB
  AUTO_INCREMENT does, and MySQL 8 is the engine the services are configured for
  (shared/config.py:11-13). Other engines differ; see "## Left out".
- Listings come back in ascending id order. The source issues no ORDER BY.
- The recommender numbers distinct ids in order of first occurrence. The source uses
  Python's set iteration order, which is implementation-defined. The contracts only
  rely on the numbering being a bijection.
- Ties between equal scores may come in any order; the ranking contract does not fix it.

## Model

| member | source | states |
|---|---|---|
| Tables.Insert | reviews/app/models.py:26 | a new row gets a key no existing row has and no deleted row had, every other row is kept, and the key invariant still holds |
| Tables.Put | reviews/app/routes.py:158-162 | an update in place replaces exactly one row and keeps the set of keys |
| Tables.Remove | reviews/app/routes.py:189-190 | a delete removes exactly one key, leaves the other rows as they were, and does not rewind the id counter, so the key is never reused |
| Tables.Fetch | reviews/app/routes.py:88-91 | reading a row by id answers the stored row when the id exists and 404 exactly when it does not; inventory/app/routes.py:92-99 and sales/app/routes.py:97-104 are the same route over products and sales |
| Tables.Drop | reviews/app/routes.py:185-191 | deleting by id: 404 and no change on a missing id, otherwise exactly that id disappears, every other row is kept as it was, and the id is never handed out again; inventory/app/routes.py:144-147 and sales/app/routes.py:154-157 are the same route |
| Tables.Revise | sales/app/routes.py:124-137 | updating by id: 404 and no change on a missing id, otherwise only that row is replaced by its patched version; inventory/app/routes.py:121-128 is the same route over products |
| Tables.SortedKeys | inventory/app/routes.py:64 | the keys of a table, each once, strictly increasing, no key missing |
| Tables.Scan | inventory/app/routes.py:64-71 | a full scan lists every stored row exactly once, with its stored record, in key order; sales/app/routes.py:73-80 lists sales the same way |
| Reviews.Errors | reviews/app/schemas.py:3-17 | per field: product_id and customer_id are errors only when absent on a full load; the rating when absent on a full load or outside 1..5 when present; the comment only when present and longer than 500 characters |
| Reviews.ErrorsEmptyIffAcceptable | reviews/app/schemas.py:4-17 | a load succeeds exactly when the required keys are present (full load) and any present rating is in 1..5 and any present comment is at most 500 characters |
| Reviews.PartialErrorsWithinFull | reviews/app/routes.py:157 | a partial load reports a subset of the full load's errors; they differ only in absent required keys |
| Reviews.Create | reviews/app/routes.py:56-71 | an invalid payload answers 400 with a non-empty error set and writes nothing; a valid one stores exactly the given fields under a fresh id (absent comment stored as none), and the result satisfies the rating and comment rules |
| Reviews.Update | reviews/app/routes.py:152-165 | the answer is 404 exactly when the id is missing, decided before the body is looked at; on an existing id an unacceptable partial payload answers 400 and writes nothing, and an acceptable one succeeds, changing only the rating and/or comment that were sent, never product_id or customer_id |
| Reviews.Moderate | reviews/app/routes.py:218-228 | a missing id answers 404; otherwise an action other than approve or flag answers 400; an accepted action echoes the review; the table never changes |
| Reviews.FilterBy | reviews/app/routes.py:107-125 | the listing by product (or by customer) holds exactly the stored reviews whose product_id (customer_id) is the argument, each once |
| Reviews.Serve | reviews/app/routes.py:56-228 | no write route reuses an id, and none stores a review with a rating outside 1..5 or a comment over 500 characters |
| Reviews.Replay | reviews/app/models.py:26-30 | over any sequence of requests, ids are never reused, and a table whose reviews all satisfy the schema keeps that property |
| Reviews.FromEmptyEveryReviewWellFormed | reviews/app/schemas.py:6-17 | every review stored by any history starting from the empty table has a valid rating and a comment within the limit |
| Reviews.CreateThenGet | reviews/app/routes.py:58-67 | a valid create followed by a get of the returned id reads back the review as sent |
| Reviews.DeleteThenGet | reviews/app/routes.py:185-191 | after a delete the id answers 404, and deleting again answers 404 |
| Reviews.UpdateIdempotent | reviews/app/routes.py:158-161 | sending the same update twice leaves the table as sending it once |
| Reviews.ValidationExamples | tests/test_reviews.py:32-98 | the test payloads get the verdicts the tests expect: rating 6 rejected on create and 10 on update, a missing customer_id is the only error, a full valid review and a valid partial update are accepted |
| Reviews.RatingBoundaries | reviews/app/schemas.py:9-12 | the rating bounds are inclusive on both loads: 1 and 5 pass, 0 and 6 are reported under rating |
| Customers.Errors | customers/app/validators.py:3-10 | per field: full_name and username absent or empty, password absent or shorter than 6, age absent or below 1, address absent; gender and marital status only when present and outside their enumerations |
| Customers.ErrorsEmptyIffAdmissible | customers/app/validators.py:4-10 | a registration loads without error exactly when every required field is present and within its constraint and every optional field present is one of its allowed values |
| Customers.AcceptsTestRegistration | customers/tests/test_registration.py:1-10 | the complete registration of the service's tests has no error |
| Customers.RejectsNegativeAge | customers/tests/test_registration.py:26-35 | age -5 is reported under age and under no other field |
| Customers.ReportsEachMissingField | customers/tests/test_registration.py:38-46 | absent full_name and address are each reported under their own names |
| Customers.EmptyUsernameButEmptyAddressFine | customers/app/validators.py:5-8 | an empty username is reported under username, while an empty address is accepted |
| Inventory.Create | inventory/app/routes.py:40-49 | with name, price and quantity present the product is stored as given under a fresh returned id, description defaulting to empty; with any of them absent the handler fails with 500 and writes nothing |
| Inventory.Patch | inventory/app/routes.py:123-126 | each of name, description, price and quantity is the sent value if present, else the old one |
| Inventory.Serve | inventory/app/routes.py:40-147 | creating, updating or deleting a product never hands out an id below the counter that was not there already |
| Inventory.Replay | inventory/app/models.py:6 | over any sequence of requests, the key invariant holds and no product id is ever handed out twice |
| Inventory.CreateThenGet | inventory/app/routes.py:92-99 | a created product reads back with the fields it was created with |
| Inventory.UpdateNameAndPriceKeepsRest | tests/test_inventory.py:78-104 | updating name and price keeps description and quantity |
| Inventory.CreateDeleteGet | tests/test_inventory.py:106-126 | create then delete answers 404 on a later get and restores the other products exactly |
| Inventory.EmptyPatchIsIdentity | inventory/app/routes.py:123-126 | a request that sends no field leaves the product as it was |
| Inventory.DeletedIdStaysGone | tests/test_inventory.py:106-126 | once a product is deleted, its id answers 404 after any further sequence of requests |
| Sales.Create | sales/app/routes.py:39-57 | any of the four keys absent answers 400 and writes nothing; otherwise exactly the sent values are stored under a fresh returned id, stamped with the creation time |
| Sales.Patch | sales/app/routes.py:127-134 | each of the four keys is assigned only if sent; created_at never changes |
| Sales.Serve | sales/app/routes.py:39-157 | no write route reuses an id or changes the creation time of a sale that survives it |
| Sales.Replay | sales/app/models.py:18-23 | over any sequence of requests, no id is handed out twice, and every sale that survives keeps the creation time it was stored with |
| Sales.CreateThenGet | tests/test_sales.py:36-56 | a complete create reads back with exactly the values sent |
| Sales.PatchWithStoredValuesIsIdentity | sales/app/routes.py:127-134 | sending the stored values, or nothing, leaves a sale as it was |
| Sales.DeleteThenList | sales/app/routes.py:154-157 | after a delete the listing omits the deleted sale and still holds every other one |
| Recommendation.Distinct | recommendation.py:75-76 | the distinct ids, each once, and exactly the ids that occur |
| Recommendation.Customers | recommendation.py:75 | no duplicates, and exactly the customers that wrote some review |
| Recommendation.Products | recommendation.py:76 | no duplicates, and exactly the products that received some review |
| Recommendation.IndexMap | recommendation.py:78-79 | the index dictionary is a bijection between the distinct ids and 0..n-1 |
| Recommendation.BuildMatrix | recommendation.py:81-84 | the matrix has one row per customer and one column per product, and each cell holds the rating of the last review for that pair in list order, or 0 |
| Recommendation.WriteRating | recommendation.py:83-84 | writing one review's rating into its cell turns the matrix of the earlier reviews into the matrix including it, so a later review for the same pair overwrites an earlier one |
| Recommendation.RatingMatrixUnique | recommendation.py:82-84 | the rating matrix is determined by the reviews and the two index orders |
| Recommendation.InsertionPoint | recommendation.py:96 | in a ranking sorted by non-increasing score, the first position whose score is below the new one: every entry before it scores at least as much, the entry at it scores less |
| Recommendation.RankDescending | recommendation.py:96 | the ranking lists every product column once, by non-increasing score |
| Recommendation.InsertRanked | recommendation.py:96 | inserting the next column at its insertion point keeps the ranking sorted and complete |
| Recommendation.PositiveKeepsExactly | recommendation.py:101 | the `> 0` filter keeps exactly the indices whose score is positive: every kept index comes from the input and scores above 0, and every such input index is kept |
| Recommendation.LeadingPositive | recommendation.py:99-105 | the length of the run of positive scores at the head of the ranking: all before it are positive, the entry at it is not |
| Recommendation.PositiveIsPrefix | recommendation.py:99-105 | on a ranking, keeping the entries with positive score keeps a prefix of it |
| Recommendation.CutIsPrefix | recommendation.py:99-105 | the result is the ranking's first c entries, c at most top_n, stopping at the first non-positive score |
| Recommendation.CutIsComplete | recommendation.py:96-101 | no positive-scoring product is passed over unless top_n products with scores at least as high were returned |
| Recommendation.Cut | recommendation.py:98-105 | the result of the slice and the filter loop: at most top_n entries, and no more than the ranking holds, all with positive score; its exact shape is stated by CutIsPrefix |
| Recommendation.Select | recommendation.py:96-105 | at most top_n results, all with positive score, distinct products, non-increasing scores, each with its own column's score, and none better left out |
| Recommendation.Ratings | recommendation.py:75-84 | the id lists and the matrix built are the ones defined from the reviews |
| Recommendation.Scores | recommendation.py:95 | the score vector has exactly one entry per reviewed product, in product-index order; it is the reference against which the recommendation contract is stated |
| Recommendation.SelectionByProduct | recommendation.py:95-105 | the selection's promises over score columns carry over to product ids and their scores |
| Recommendation.Recommend | recommendation.py:57-107 | no reviews, or a customer with no review, gives the empty list; otherwise at most top_n distinct reviewed products, positive and non-increasing scores equal to the product's score, and no positive-scoring product omitted unless top_n at least as good were returned |

## Left out

- HTTP routing, JSON parsing and status-code plumbing: a request body is modelled as a record of optional typed fields, and an answer as an `Outcome`. Error message texts are not modelled, only which request was rejected and, for the two schemas, under which fields.
- Request bodies with a wrong JSON type, a JSON `null` value, keys outside a schema, or no JSON body at all. What the services do with those depends on the validation and web libraries, which are not part of this model.
- The database session, commits and rollbacks. The handlers that catch storage errors answer 500 on them; storage errors come from an external engine and are not modelled. The health-check routes are left out for the same reason.
- Review timestamps (`created_at`, `updated_at`): the database sets them from its clock and no rule reads them. Sale `created_at` is kept as a clock value passed in, because update must not change it.
- Wallet charge and deduct, registration persistence, duplicate-username rejection, and customer update and delete. The customers routes file holds only an empty registration stub, and the module that defines the customer blueprint is not part of this model. `Customers.Customer` records the shape of a stored account only.
- Token issue and verification, and password hashing. These are calls into cryptographic libraries and read the wall clock.
- Cosine similarity and the dot product in the recommender. These are floating-point numerics in numerical libraries; the score of each product column is the `Scorer` parameter.
- A negative `top_n`, which Python would treat as a slice from the end. `topN` is a `nat`.
- The recommendation route's lookup of product details, which drops recommended ids that have no product row. It reads a second table through the ORM.
- Recommendation.Recommend: the order among products with equal scores is not stated, because the sort the source uses does not fix it.
- Price and total price are floats in the source. `Money` is a `real` that is only stored and returned, so rounding is not modelled.
- Memory-profiling scripts, the load-testing script, configuration and run scripts, and test fixtures. These are tooling.
- Tables.Insert, Tables.Remove, Tables.Drop, Reviews.Replay, Inventory.Replay, Inventory.DeletedIdStaysGone, Sales.Replay: "ids are never reused" holds for the never-rewound counter of MySQL 8 InnoDB, the configured engine. It does not hold for SQLite, which the test suites and the recommendation script use. There, the id columns have no AUTOINCREMENT keyword, so a new row gets the highest current id plus one, and the highest deleted id can come back. It also does not hold for MySQL before 8.0 after a restart. The model does not cover those engines.
- Response shapes. The review listings are serialised through the review schema, which has no review id (reviews/app/routes.py:108,125; reviews/app/schemas.py:4-7). The sale routes leave out `created_at` (sales/app/routes.py:74-80, 98-104). Reviews.FilterBy, Tables.Fetch and Tables.Scan return the whole stored record with its id. The model does not promise the reduced serialised form.
- Concurrency. `Serve` and `Replay` handle requests one after another. The update routes read, modify and write a row without a lock (reviews/app/routes.py:152-162, inventory/app/routes.py:121-127, sales/app/routes.py:124-136), so two concurrent updates of the same row can lose one write. Interleaved requests and lost updates are not modelled.
- The default `top_n` of 5 (recommendation.py:57) and the route's fallback to it for a missing or non-integer query value (recommendation.py:115). Recommendation.Recommend takes `topN` as an explicit argument; parsing the query string is HTTP plumbing.
