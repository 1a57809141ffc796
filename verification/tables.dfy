/** A database table as an immutable value: rows keyed by an auto-increment
    primary key, plus the counter the database draws the next key from. */
module Tables {

  import opened Common

  datatype Table<R> = Table(rows: map<int, R>, nextId: int)

  /** What a handler answers, together with the table as the handler leaves it. */
  datatype Step<T, E, R> = Step(outcome: Outcome<T, E>, table: Table<R>)

  /** The table every service starts from: no rows, first key 1. */
  function Empty<R>(): (t: Table<R>)
    ensures Valid(t) && t.rows == map[]
  {
    Table(map[], 1)
  }

  /** Every key was drawn from the counter: keys start at 1 and lie below `nextId`. */
  ghost predicate Valid<R>(t: Table<R>) {
    1 <= t.nextId && forall k :: k in t.rows ==> 1 <= k < t.nextId
  }

  /** `t'` comes from `t` without reusing a key: the counter never moves back, and
      no key below the old counter appears that was not already there. */
  ghost predicate Extends<R>(t: Table<R>, t': Table<R>) {
    t.nextId <= t'.nextId && forall k :: k in t'.rows && k < t.nextId ==> k in t.rows
  }

  /** INSERT of a new row: the row is stored under a key no existing row has,
      that key is returned, and every other row is kept. */
  function Insert<R>(t: Table<R>, row: R): (res: (int, Table<R>))
    requires Valid(t)
    ensures res.0 !in t.rows && res.0 >= 1
    ensures res.1.rows == t.rows[res.0 := row]
    ensures Valid(res.1) && Extends(t, res.1)
  {
    (t.nextId, Table(t.rows[t.nextId := row], t.nextId + 1))
  }

  /** UPDATE of an existing row in place. */
  function Put<R>(t: Table<R>, id: int, row: R): (t': Table<R>)
    requires Valid(t) && id in t.rows
    ensures t'.rows.Keys == t.rows.Keys
    ensures t'.rows[id] == row
    ensures forall k :: k in t.rows && k != id ==> t'.rows[k] == t.rows[k]
    ensures Valid(t') && Extends(t, t')
  {
    Table(t.rows[id := row], t.nextId)
  }

  /** DELETE of one row: exactly `id` disappears, the counter is not rewound. */
  function Remove<R>(t: Table<R>, id: int): (t': Table<R>)
    requires Valid(t)
    ensures t'.rows.Keys == t.rows.Keys - {id}
    ensures forall k :: k in t'.rows ==> t'.rows[k] == t.rows[k]
    ensures t'.nextId == t.nextId
    ensures Valid(t') && Extends(t, t')
  {
    Table(t.rows - {id}, t.nextId)
  }

  /** GET of one row by primary key: the stored row, or 404 when no row has that key. */
  function Fetch<R>(t: Table<R>, id: int): (r: Outcome<R, ()>)
    ensures r.Ok? || r.NotFound?
    ensures r.Ok? <==> id in t.rows
    ensures r.Ok? ==> r.value == t.rows[id]
  {
    if id in t.rows then Ok(t.rows[id]) else NotFound
  }

  /** DELETE route: 404 with nothing changed on a missing key, otherwise that row is removed. */
  function Drop<R>(t: Table<R>, id: int): (r: Step<(), (), R>)
    requires Valid(t)
    ensures r.outcome.Ok? || r.outcome.NotFound?
    ensures r.outcome.Ok? <==> id in t.rows
    ensures r.outcome.NotFound? ==> r.table == t
    ensures r.table.rows.Keys == t.rows.Keys - {id}
    ensures forall k :: k in r.table.rows ==> r.table.rows[k] == t.rows[k]
    ensures Valid(r.table) && Extends(t, r.table)
  {
    if id !in t.rows then Step(NotFound, t) else Step(Ok(()), Remove(t, id))
  }

  /** PUT route without validation: 404 with nothing changed on a missing key,
      otherwise the stored row is replaced by `patch` applied to it. */
  function Revise<R>(t: Table<R>, id: int, patch: R -> R): (r: Step<(), (), R>)
    requires Valid(t)
    ensures r.outcome.Ok? || r.outcome.NotFound?
    ensures r.outcome.Ok? <==> id in t.rows
    ensures r.outcome.NotFound? ==> r.table == t
    ensures r.outcome.Ok? ==> r.table.rows == t.rows[id := patch(t.rows[id])]
    ensures Valid(r.table) && Extends(t, r.table)
  {
    if id !in t.rows then Step(NotFound, t) else Step(Ok(()), Put(t, id, patch(t.rows[id])))
  }

  /** `rows` lists exactly the entries of `m`, in strictly increasing key order. */
  ghost predicate Lists<R>(rows: seq<(int, R)>, m: map<int, R>) {
    && (forall i :: 0 <= i < |rows| ==> rows[i].0 in m && m[rows[i].0] == rows[i].1)
    && (forall k :: k in m ==> exists i :: 0 <= i < |rows| && rows[i].0 == k)
    && (forall i, j :: 0 <= i < j < |rows| ==> rows[i].0 < rows[j].0)
  }

  /** Every finite non-empty set of keys has a least element. */
  lemma {:induction false} LeastKeyExists(s: set<int>)
    requires s != {}
    ensures exists k :: k in s && forall j :: j in s ==> k <= j
  {
    if forall x :: x !in s {
      // Mentioning `s == {}` makes the verifier apply set extensionality, which
      // contradicts the precondition.
      ghost var empty := s == {};
      assert false;
    }
    var x :| x in s;
    var rest := s - {x};
    if forall y :: y !in rest {
      forall j | j in s ensures x <= j {
        assert j !in rest;
      }
    } else {
      LeastKeyExists(rest);
      var y :| y in rest && forall j :: j in rest ==> y <= j;
      var least := if x < y then x else y;
      forall j | j in s ensures least <= j {
        if j != x { assert j in rest; }
      }
      assert least in s;
    }
  }

  /** The keys of `s` in strictly increasing order. */
  method SortedKeys(s: set<int>) returns (ks: seq<int>)
    ensures forall i, j :: 0 <= i < j < |ks| ==> ks[i] < ks[j]
    ensures forall k :: k in s <==> k in ks
    ensures |ks| == |s|
  {
    ks := [];
    var rest := s;
    while rest != {}
      invariant rest <= s
      invariant forall k :: k in s <==> k in rest || k in ks
      invariant forall i, j :: 0 <= i < j < |ks| ==> ks[i] < ks[j]
      invariant forall i, k :: 0 <= i < |ks| && k in rest ==> ks[i] < k
      invariant |ks| + |rest| == |s|
      decreases rest
    {
      LeastKeyExists(rest);
      var k :| k in rest && forall j :: j in rest ==> k <= j;
      ks := ks + [k];
      rest := rest - {k};
    }
  }

  /** SELECT * over a table: every row once, in ascending key order (a primary-key scan). */
  method Scan<R>(m: map<int, R>) returns (rows: seq<(int, R)>)
    ensures Lists(rows, m)
    ensures |rows| == |m|
  {
    var ks := SortedKeys(m.Keys);
    assert forall i :: 0 <= i < |ks| ==> ks[i] in ks;
    rows := seq(|ks|, i requires 0 <= i < |ks| => (ks[i], m[ks[i]]));
    forall k | k in m ensures exists i :: 0 <= i < |rows| && rows[i].0 == k {
      var i :| 0 <= i < |ks| && ks[i] == k;
      assert rows[i].0 == k;
    }
  }
}
