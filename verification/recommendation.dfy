/** The discrete part of the collaborative-filtering recommender: dense indices for
    the customers and products that occur in the reviews, the customer-by-product
    rating matrix, and the selection of the top-scoring products. The score of a
    product for a customer (cosine similarity of rating rows, then a weighted sum of
    ratings) is floating-point numerics and is taken as a function parameter. */
module Recommendation {

  import opened Reviews

  /** The score of product column `j` for customer row `target` of a rating matrix. */
  type Scorer = (seq<seq<int>>, nat, nat) -> real

  ghost predicate NoDups<T>(xs: seq<T>) {
    forall i, j :: 0 <= i < j < |xs| ==> xs[i] != xs[j]
  }

  /** The distinct values of `xs`, each once, in order of first occurrence. */
  function Distinct(xs: seq<int>): (r: seq<int>)
    ensures NoDups(r)
    ensures forall x :: x in r <==> x in xs
    ensures |r| <= |xs|
  {
    if xs == [] then []
    else
      var front := Distinct(xs[..|xs| - 1]);
      var x := xs[|xs| - 1];
      assert xs == xs[..|xs| - 1] + [x];
      if x in front then front else front + [x]
  }

  /** The customers that wrote some review, each once. */
  function Customers(reviews: seq<Review>): (cs: seq<int>)
    ensures NoDups(cs)
    ensures forall c :: c in cs <==> exists i :: 0 <= i < |reviews| && reviews[i].customerId == c
  {
    var ids := seq(|reviews|, i requires 0 <= i < |reviews| => reviews[i].customerId);
    assert forall i :: 0 <= i < |reviews| ==> ids[i] == reviews[i].customerId;
    forall c | c in ids ensures exists i :: 0 <= i < |reviews| && reviews[i].customerId == c {
      var i :| 0 <= i < |ids| && ids[i] == c;
    }
    Distinct(ids)
  }

  /** The products that received some review, each once. */
  function Products(reviews: seq<Review>): (ps: seq<int>)
    ensures NoDups(ps)
    ensures forall p :: p in ps <==> exists i :: 0 <= i < |reviews| && reviews[i].productId == p
  {
    var ids := seq(|reviews|, i requires 0 <= i < |reviews| => reviews[i].productId);
    assert forall i :: 0 <= i < |reviews| ==> ids[i] == reviews[i].productId;
    forall p | p in ids ensures exists i :: 0 <= i < |reviews| && reviews[i].productId == p {
      var i :| 0 <= i < |ids| && ids[i] == p;
    }
    Distinct(ids)
  }

  /** The dictionary from each id to its position: a bijection between the ids
      and 0 .. |ids| - 1. */
  function IndexMap(ids: seq<int>): (m: map<int, nat>)
    requires NoDups(ids)
    ensures forall x :: x in m <==> x in ids
    ensures forall x :: x in m ==> m[x] < |ids| && ids[m[x]] == x
    ensures forall i :: 0 <= i < |ids| ==> ids[i] in m && m[ids[i]] == i
  {
    map i | 0 <= i < |ids| :: ids[i] := i
  }

  /** The rating of the last review, in list order, by customer `c` of product `p`;
      0 when there is none. */
  function LastRating(reviews: seq<Review>, c: int, p: int): int {
    if reviews == [] then 0
    else
      var last := reviews[|reviews| - 1];
      if last.customerId == c && last.productId == p then last.rating
      else LastRating(reviews[..|reviews| - 1], c, p)
  }

  /** `m` has a row per customer and a column per product, holding the last rating. */
  ghost predicate IsRatingMatrix(m: seq<seq<int>>, reviews: seq<Review>, cs: seq<int>, ps: seq<int>) {
    && |m| == |cs|
    && (forall i :: 0 <= i < |m| ==> |m[i]| == |ps|)
    && (forall i, j :: 0 <= i < |cs| && 0 <= j < |ps| ==> m[i][j] == LastRating(reviews, cs[i], ps[j]))
  }

  /** The rating matrix of a list of reviews, by definition. */
  ghost function RatingMatrix(reviews: seq<Review>): (m: seq<seq<int>>)
    ensures IsRatingMatrix(m, reviews, Customers(reviews), Products(reviews))
  {
    var cs := Customers(reviews);
    var ps := Products(reviews);
    seq(|cs|, i requires 0 <= i < |cs| =>
      seq(|ps|, j requires 0 <= j < |ps| => LastRating(reviews, cs[i], ps[j])))
  }

  /** The matrix is determined by the reviews and the two index orders. */
  lemma RatingMatrixUnique(m: seq<seq<int>>, m': seq<seq<int>>, reviews: seq<Review>, cs: seq<int>, ps: seq<int>)
    requires IsRatingMatrix(m, reviews, cs, ps) && IsRatingMatrix(m', reviews, cs, ps)
    ensures m == m'
  {
    forall i | 0 <= i < |m| ensures m[i] == m'[i] {
      assert |m[i]| == |m'[i]|;
      forall j | 0 <= j < |m[i]| ensures m[i][j] == m'[i][j] {
        assert m[i][j] == LastRating(reviews, cs[i], ps[j]);
      }
    }
  }

  /** Writing review k's rating into its cell turns the matrix of the first k reviews
      into the matrix of the first k + 1. */
  lemma WriteRating(m: seq<seq<int>>, reviews: seq<Review>, k: nat, cs: seq<int>, ps: seq<int>, ci: nat, pj: nat)
    requires k < |reviews| && NoDups(cs) && NoDups(ps)
    requires IsRatingMatrix(m, reviews[..k], cs, ps)
    requires ci < |cs| && cs[ci] == reviews[k].customerId
    requires pj < |ps| && ps[pj] == reviews[k].productId
    ensures IsRatingMatrix(m[ci := m[ci][pj := reviews[k].rating]], reviews[..k + 1], cs, ps)
  {
    var m' := m[ci := m[ci][pj := reviews[k].rating]];
    assert reviews[..k + 1][..k] == reviews[..k];
    forall i, j | 0 <= i < |cs| && 0 <= j < |ps|
      ensures m'[i][j] == LastRating(reviews[..k + 1], cs[i], ps[j])
    {
      if i == ci && j == pj {
      } else {
        assert cs[i] != reviews[k].customerId || ps[j] != reviews[k].productId;
      }
    }
  }

  /** Builds the rating matrix as the recommender does: start from zeros and write
      each review's rating into its cell, in list order, so later reviews overwrite. */
  method BuildMatrix(reviews: seq<Review>, cs: seq<int>, ps: seq<int>) returns (m: seq<seq<int>>)
    requires NoDups(cs) && NoDups(ps)
    requires forall k :: 0 <= k < |reviews| ==> reviews[k].customerId in cs && reviews[k].productId in ps
    ensures IsRatingMatrix(m, reviews, cs, ps)
  {
    var customerIdx := IndexMap(cs);
    var productIdx := IndexMap(ps);
    m := seq(|cs|, _ => seq(|ps|, _ => 0));
    var k := 0;
    while k < |reviews|
      invariant 0 <= k <= |reviews|
      invariant IsRatingMatrix(m, reviews[..k], cs, ps)
    {
      var review := reviews[k];
      var ci := customerIdx[review.customerId];
      var pj := productIdx[review.productId];
      WriteRating(m, reviews, k, cs, ps, ci, pj);
      m := m[ci := m[ci][pj := review.rating]];
      k := k + 1;
    }
    assert reviews[..k] == reviews;
  }

  /** The position of the first entry of the non-increasingly sorted `order` whose score
      is below `v`, or |order| when there is none. */
  function InsertionPoint(order: seq<nat>, s: seq<real>, v: real): (p: nat)
    requires forall a :: 0 <= a < |order| ==> order[a] < |s|
    ensures p <= |order|
    ensures forall a :: 0 <= a < p ==> s[order[a]] >= v
    ensures p < |order| ==> s[order[p]] < v
  {
    if order == [] || s[order[0]] < v then 0
    else 1 + InsertionPoint(order[1..], s, v)
  }

  /** `order` ranks the indices 0 .. n - 1 of `s` by non-increasing score. */
  ghost predicate RanksFirst(order: seq<nat>, s: seq<real>, n: nat) {
    && n <= |s|
    && |order| == n
    && NoDups(order)
    && (forall a :: 0 <= a < |order| ==> order[a] < n)
    && (forall j :: 0 <= j < n ==> j in order)
    && (forall a, b :: 0 <= a < b < |order| ==> s[order[a]] >= s[order[b]])
  }

  /** `order` ranks all the indices of `s` by non-increasing score. */
  ghost predicate RanksDescending(order: seq<nat>, s: seq<real>) {
    RanksFirst(order, s, |s|)
  }

  /** Inserting index n at its insertion point extends a ranking of the first n indices. */
  lemma InsertRanked(before: seq<nat>, s: seq<real>, n: nat, p: nat)
    requires RanksFirst(before, s, n) && n < |s|
    requires p <= |before|
    requires forall a :: 0 <= a < p ==> s[before[a]] >= s[n]
    requires forall a :: p <= a < |before| ==> s[before[a]] < s[n]
    ensures RanksFirst(before[..p] + [n] + before[p..], s, n + 1)
  {
    var order := before[..p] + [n] + before[p..];
    assert forall a :: 0 <= a < p ==> order[a] == before[a];
    assert order[p] == n;
    assert forall a :: p < a < |order| ==> order[a] == before[a - 1];
    forall j | 0 <= j <= n ensures j in order {
      if j < n {
        assert j in before;
        var a :| 0 <= a < |before| && before[a] == j;
        if a < p { assert order[a] == j; } else { assert order[a + 1] == j; }
      }
    }
    forall a, b | 0 <= a < b < |order| ensures order[a] != order[b] && s[order[a]] >= s[order[b]] {
      if b < p {
      } else if b == p {
      } else if a < p {
      } else if a == p {
        assert s[order[b]] == s[before[b - 1]];
      } else {
        assert order[a] == before[a - 1] && order[b] == before[b - 1];
      }
    }
  }

  /** The argsort of the negated scores: every index once, highest score first.
      The order among equal scores is not part of the contract. */
  method RankDescending(s: seq<real>) returns (order: seq<nat>)
    ensures RanksDescending(order, s)
  {
    order := [];
    var i := 0;
    while i < |s|
      invariant 0 <= i <= |s|
      invariant RanksFirst(order, s, i)
    {
      var p := InsertionPoint(order, s, s[i]);
      InsertRanked(order, s, i, p);
      order := order[..p] + [i] + order[p..];
      i := i + 1;
    }
  }

  /** The indices among `idxs` with a positive score, in order: the test each
      ranked index passes before its product is appended. */
  function Positive(idxs: seq<nat>, s: seq<real>): (r: seq<nat>)
    requires forall a :: 0 <= a < |idxs| ==> idxs[a] < |s|
    ensures |r| <= |idxs|
    ensures forall k :: 0 <= k < |r| ==> r[k] < |s|
  {
    if idxs == [] then []
    else (if s[idxs[0]] > 0.0 then [idxs[0]] else []) + Positive(idxs[1..], s)
  }

  /** The filter keeps exactly the indices with a positive score: each kept index
      comes from `idxs` and scores above 0, and each such index of `idxs` is kept. */
  lemma {:induction false} PositiveKeepsExactly(idxs: seq<nat>, s: seq<real>)
    requires forall a :: 0 <= a < |idxs| ==> idxs[a] < |s|
    ensures forall k :: 0 <= k < |Positive(idxs, s)| ==>
              Positive(idxs, s)[k] in idxs && s[Positive(idxs, s)[k]] > 0.0
    ensures forall a :: 0 <= a < |idxs| && s[idxs[a]] > 0.0 ==> idxs[a] in Positive(idxs, s)
  {
    if idxs != [] {
      PositiveKeepsExactly(idxs[1..], s);
      var head := if s[idxs[0]] > 0.0 then [idxs[0]] else [];
      var r := Positive(idxs, s);
      assert r == head + Positive(idxs[1..], s);
      forall k | 0 <= k < |r| ensures r[k] in idxs && s[r[k]] > 0.0 {
        if k >= |head| {
          assert r[k] == Positive(idxs[1..], s)[k - |head|];
        }
      }
      forall a | 0 <= a < |idxs| && s[idxs[a]] > 0.0 ensures idxs[a] in r {
        if a > 0 {
          assert idxs[a] == idxs[1..][a - 1];
        }
      }
    }
  }

  /** How many leading entries of `idxs` have a positive score. */
  function LeadingPositive(idxs: seq<nat>, s: seq<real>): (c: nat)
    requires forall a :: 0 <= a < |idxs| ==> idxs[a] < |s|
    ensures c <= |idxs|
    ensures forall a :: 0 <= a < c ==> s[idxs[a]] > 0.0
    ensures c < |idxs| ==> s[idxs[c]] <= 0.0
  {
    if idxs == [] || s[idxs[0]] <= 0.0 then 0
    else 1 + LeadingPositive(idxs[1..], s)
  }

  /** On indices ranked by non-increasing score, keeping the positive ones keeps a prefix. */
  lemma {:induction false} PositiveIsPrefix(idxs: seq<nat>, s: seq<real>)
    requires forall a :: 0 <= a < |idxs| ==> idxs[a] < |s|
    requires forall a, b :: 0 <= a < b < |idxs| ==> s[idxs[a]] >= s[idxs[b]]
    ensures Positive(idxs, s) == idxs[..LeadingPositive(idxs, s)]
  {
    if idxs != [] {
      PositiveIsPrefix(idxs[1..], s);
      if s[idxs[0]] <= 0.0 && |idxs| > 1 {
        assert s[idxs[1..][0]] <= 0.0;
      }
    }
  }

  /** Cutting a ranking after its first `c` entries, where `c` stops at the first
      non-positive score or at `topN`, passes over no positive score unless `topN`
      entries at least as good were kept. */
  lemma CutIsComplete(order: seq<nat>, scores: seq<real>, topN: nat, c: nat)
    requires RanksDescending(order, scores)
    requires c <= topN && c <= |order|
    requires forall a :: 0 <= a < c ==> scores[order[a]] > 0.0
    requires c < topN && c < |order| ==> scores[order[c]] <= 0.0
    ensures forall j ::
              (0 <= j < |scores| && scores[j] > 0.0 && forall a :: 0 <= a < c ==> order[a] != j)
              ==>
              (c == topN && forall a :: 0 <= a < c ==> scores[order[a]] >= scores[j])
  {
    forall j | 0 <= j < |scores| && scores[j] > 0.0 && forall a :: 0 <= a < c ==> order[a] != j
      ensures c == topN && forall a :: 0 <= a < c ==> scores[order[a]] >= scores[j]
    {
      assert j in order;
      var q :| 0 <= q < |order| && order[q] == j;
      assert c <= q;
      if c < topN {
        assert false;
      }
    }
  }

  /** The cut of a ranking: its first `topN` entries with a positive score, each
      paired with its product id and score. */
  function Cut(order: seq<nat>, scores: seq<real>, ps: seq<int>, topN: nat): (recs: seq<(int, real)>)
    requires |scores| == |ps|
    requires forall a :: 0 <= a < |order| ==> order[a] < |scores|
    ensures |recs| <= topN && |recs| <= |order|
    ensures forall k :: 0 <= k < |recs| ==> recs[k].1 > 0.0
  {
    var n := if topN < |order| then topN else |order|;
    var kept := Positive(order[..n], scores);
    PositiveKeepsExactly(order[..n], scores);
    seq(|kept|, k requires 0 <= k < |kept| => (ps[kept[k]], scores[kept[k]]))
  }

  /** On a ranking, the cut is a prefix of the ranking, of length at most `topN`,
      that stops at the first non-positive score. */
  lemma CutIsPrefix(order: seq<nat>, scores: seq<real>, ps: seq<int>, topN: nat)
    returns (c: nat)
    requires |scores| == |ps| && RanksDescending(order, scores)
    ensures c <= topN && c <= |order|
    ensures |Cut(order, scores, ps, topN)| == c
    ensures forall k :: 0 <= k < c ==> Cut(order, scores, ps, topN)[k] == (ps[order[k]], scores[order[k]])
    ensures forall a :: 0 <= a < c ==> scores[order[a]] > 0.0
    ensures c < topN && c < |order| ==> scores[order[c]] <= 0.0
  {
    var n := if topN < |order| then topN else |order|;
    var top := order[..n];
    PositiveIsPrefix(top, scores);
    c := LeadingPositive(top, scores);
    assert Positive(top, scores) == order[..c];
  }

  /** The ranking and cut of the recommender: rank the product columns by
      non-increasing score, take the first `topN`, and keep those with a positive score,
      each paired with its product id. */
  method Select(scores: seq<real>, ps: seq<int>, topN: nat) returns (recs: seq<(int, real)>)
    requires |scores| == |ps| && NoDups(ps)
    ensures |recs| <= topN
    ensures forall k :: 0 <= k < |recs| ==> recs[k].1 > 0.0
    ensures forall k, l :: 0 <= k < l < |recs| ==> recs[k].0 != recs[l].0
    ensures forall k, l :: 0 <= k < l < |recs| ==> recs[k].1 >= recs[l].1
    ensures forall k :: 0 <= k < |recs| ==> recs[k].0 in ps
    ensures forall k, j :: 0 <= k < |recs| && 0 <= j < |ps| && ps[j] == recs[k].0 ==> recs[k].1 == scores[j]
    ensures forall j ::
              (0 <= j < |ps| && scores[j] > 0.0 && forall k :: 0 <= k < |recs| ==> recs[k].0 != ps[j])
              ==>
              (|recs| == topN && forall k :: 0 <= k < |recs| ==> recs[k].1 >= scores[j])
  {
    var order := RankDescending(scores);
    recs := Cut(order, scores, ps, topN);
    var c := CutIsPrefix(order, scores, ps, topN);
    forall k, l | 0 <= k < l < |recs| ensures recs[k].0 != recs[l].0 {
      assert order[k] != order[l];
    }
    forall k, j | 0 <= k < |recs| && 0 <= j < |ps| && ps[j] == recs[k].0 ensures recs[k].1 == scores[j] {
      assert ps[order[k]] == ps[j];
    }
    CutIsComplete(order, scores, topN, c);
  }

  /** The score vector of the recommender for customer `c`, one entry per product column. */
  ghost function Scores(reviews: seq<Review>, c: int, score: Scorer): (s: seq<real>)
    requires c in Customers(reviews)
    ensures |s| == |Products(reviews)|
  {
    var ps := Products(reviews);
    var target := IndexMap(Customers(reviews))[c];
    seq(|ps|, j requires 0 <= j < |ps| => score(RatingMatrix(reviews), target, j))
  }

  /** The score the recommender gives product `p` for customer `c`. */
  ghost function ScoreOf(reviews: seq<Review>, c: int, p: int, score: Scorer): real
    requires c in Customers(reviews) && p in Products(reviews)
  {
    Scores(reviews, c, score)[IndexMap(Products(reviews))[p]]
  }

  /** The id lists and the rating matrix of a list of reviews, built as the recommender does. */
  method Ratings(reviews: seq<Review>) returns (cs: seq<int>, ps: seq<int>, matrix: seq<seq<int>>)
    ensures cs == Customers(reviews) && ps == Products(reviews)
    ensures matrix == RatingMatrix(reviews)
  {
    cs := Customers(reviews);
    ps := Products(reviews);
    forall k | 0 <= k < |reviews| ensures reviews[k].customerId in cs && reviews[k].productId in ps {
    }
    matrix := BuildMatrix(reviews, cs, ps);
    RatingMatrixUnique(matrix, RatingMatrix(reviews), reviews, cs, ps);
  }

  /** What the selection over the score vector promises, restated per product id. */
  lemma SelectionByProduct(reviews: seq<Review>, c: int, score: Scorer, topN: nat,
                           ps: seq<int>, scores: seq<real>, recs: seq<(int, real)>)
    requires c in Customers(reviews)
    requires ps == Products(reviews) && scores == Scores(reviews, c, score)
    requires forall k :: 0 <= k < |recs| ==> recs[k].0 in ps
    requires forall k, j :: 0 <= k < |recs| && 0 <= j < |ps| && ps[j] == recs[k].0 ==> recs[k].1 == scores[j]
    requires forall j ::
               (0 <= j < |ps| && scores[j] > 0.0 && forall k :: 0 <= k < |recs| ==> recs[k].0 != ps[j])
               ==>
               (|recs| == topN && forall k :: 0 <= k < |recs| ==> recs[k].1 >= scores[j])
    ensures forall k :: 0 <= k < |recs| ==>
              recs[k].0 in Products(reviews) && recs[k].1 == ScoreOf(reviews, c, recs[k].0, score)
    ensures forall p ::
              (&& p in Products(reviews)
               && ScoreOf(reviews, c, p, score) > 0.0
               && (forall k :: 0 <= k < |recs| ==> recs[k].0 != p))
              ==>
              (&& |recs| == topN
               && forall k :: 0 <= k < |recs| ==> recs[k].1 >= ScoreOf(reviews, c, p, score))
  {
  }

  /** At most `topN` products the customer's neighbours rated, best score first, each
      with a positive score; no positive-scoring product is passed over unless
      `topN` better-or-equal ones were returned. Nothing without reviews, and nothing
      for a customer who has written none. */
  method Recommend(reviews: seq<Review>, customerId: int, topN: nat, score: Scorer)
    returns (recs: seq<(int, real)>)
    ensures reviews == [] ==> recs == []
    ensures customerId !in Customers(reviews) ==> recs == []
    ensures |recs| <= topN
    ensures forall k :: 0 <= k < |recs| ==> recs[k].1 > 0.0
    ensures forall k, l :: 0 <= k < l < |recs| ==> recs[k].0 != recs[l].0
    ensures forall k, l :: 0 <= k < l < |recs| ==> recs[k].1 >= recs[l].1
    ensures forall k :: 0 <= k < |recs| ==>
              && customerId in Customers(reviews)
              && recs[k].0 in Products(reviews)
              && recs[k].1 == ScoreOf(reviews, customerId, recs[k].0, score)
    ensures forall p ::
              (&& customerId in Customers(reviews) && p in Products(reviews)
               && ScoreOf(reviews, customerId, p, score) > 0.0
               && (forall k :: 0 <= k < |recs| ==> recs[k].0 != p))
              ==>
              (&& |recs| == topN
               && forall k :: 0 <= k < |recs| ==> recs[k].1 >= ScoreOf(reviews, customerId, p, score))
  {
    if reviews == [] {
      return [];
    }
    var cs, ps, matrix := Ratings(reviews);
    var customerIdx := IndexMap(cs);
    if customerId !in customerIdx {
      return [];
    }
    var target := customerIdx[customerId];
    var scores := seq(|ps|, j requires 0 <= j < |ps| => score(matrix, target, j));
    assert scores == Scores(reviews, customerId, score);
    recs := Select(scores, ps, topN);
    SelectionByProduct(reviews, customerId, score, topN, ps, scores, recs);
  }
}
