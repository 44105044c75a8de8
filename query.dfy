/** The two query shapes the controllers build with Eloquent: `where(...)
    ->orderBy(...)->get()` over a table, and `where(...)->first()`.  A table
    is a map from primary key to row. */
module Query {

  /** `x` sorts no later than `y`: by key, and by primary key among equal keys. */
  predicate Precedes(key: map<nat, int>, x: nat, y: nat)
    requires x in key && y in key
  {
    key[x] < key[y] || (key[x] == key[y] && x <= y)
  }

  lemma {:induction false} FirstExists(ids: set<nat>, key: map<nat, int>)
    requires ids != {} && ids <= key.Keys
    ensures exists m :: m in ids && forall y | y in ids :: Precedes(key, m, y)
  {
    var x :| x in ids;
    var rest := ids - {x};
    if rest == {} {
      forall y | y in ids ensures y == x {
        assert y !in rest;
      }
    } else {
      FirstExists(rest, key);
      var m :| m in rest && forall y | y in rest :: Precedes(key, m, y);
      if Precedes(key, x, m) {
        forall y | y in ids ensures Precedes(key, x, y) {
          if y != x { assert y in rest && Precedes(key, m, y); }
        }
      } else {
        forall y | y in ids ensures Precedes(key, m, y) {
          if y != x { assert y in rest; }
        }
      }
    }
  }

  /** The element of `ids` that sorts first. */
  function First(ids: set<nat>, key: map<nat, int>): (m: nat)
    requires ids != {} && ids <= key.Keys
    ensures m in ids && forall y | y in ids :: Precedes(key, m, y)
  {
    FirstExists(ids, key);
    var m :| m in ids && forall y | y in ids :: Precedes(key, m, y);
    m
  }

  /** The primary keys `ids` listed in ascending order of `key`. */
  function OrderBy(ids: set<nat>, key: map<nat, int>): (r: seq<nat>)
    requires ids <= key.Keys
    ensures |r| == |ids|
    ensures forall i | 0 <= i < |r| :: r[i] in ids
    ensures forall x | x in ids :: x in r
    ensures forall i, j | 0 <= i < j < |r| :: r[i] != r[j] && key[r[i]] <= key[r[j]]
    decreases |ids|
  {
    if ids == {} then []
    else
      var m := First(ids, key);
      var rest := OrderBy(ids - {m}, key);
      PrependFirstKeepsOrder(ids, key, m, rest);
      [m] + rest
  }

  /** Putting the first key of `ids` in front of an ordered listing of the
      others keeps the listing ordered and free of duplicates. */
  lemma PrependFirstKeepsOrder(ids: set<nat>, key: map<nat, int>, m: nat, rest: seq<nat>)
    requires ids <= key.Keys && m in ids && forall y | y in ids :: Precedes(key, m, y)
    requires forall i | 0 <= i < |rest| :: rest[i] in ids - {m}
    requires forall i, j | 0 <= i < j < |rest| :: rest[i] != rest[j] && key[rest[i]] <= key[rest[j]]
    ensures var r := [m] + rest;
      forall i, j | 0 <= i < j < |r| :: r[i] != r[j] && key[r[i]] <= key[r[j]]
  {
    var r := [m] + rest;
    forall i, j | 0 <= i < j < |r| ensures r[i] != r[j] && key[r[i]] <= key[r[j]] {
      assert r[j] == rest[j - 1] && rest[j - 1] in ids - {m};
      if i > 0 {
        assert r[i] == rest[i - 1];
      }
    }
  }

  /** The primary keys of the rows of `table` that satisfy `p`. */
  function Where<R>(table: map<nat, R>, p: R -> bool): (ids: set<nat>)
    ensures forall k :: k in ids <==> k in table && p(table[k])
  {
    set k | k in table && p(table[k])
  }

  /** The rows of `table` at the primary keys `order`, in that order. */
  function RowsAt<R>(table: map<nat, R>, order: seq<nat>): (rows: seq<R>)
    requires forall i | 0 <= i < |order| :: order[i] in table
    ensures |rows| == |order|
    ensures forall i | 0 <= i < |rows| :: rows[i] == table[order[i]]
  {
    seq(|order|, i requires 0 <= i < |order| => table[order[i]])
  }

  /** The rows of `table` that satisfy `p`. */
  function Matching<R(==)>(table: map<nat, R>, p: R -> bool): set<R>
  {
    set k | k in table && p(table[k]) :: table[k]
  }

  /** Listing the rows at an enumeration of `ids` lists exactly the rows at `ids`. */
  lemma RowsAtEnumeration<R>(table: map<nat, R>, ids: set<nat>, order: seq<nat>)
    requires ids <= table.Keys
    requires forall i | 0 <= i < |order| :: order[i] in ids
    requires forall k | k in ids :: k in order
    ensures (set x | x in RowsAt(table, order)) == (set k | k in ids :: table[k])
  {
    var rows := RowsAt(table, order);
    forall x | x in rows ensures x in (set k | k in ids :: table[k]) {
      var i :| 0 <= i < |rows| && rows[i] == x;
      assert order[i] in ids;
    }
    forall x | x in (set k | k in ids :: table[k]) ensures x in rows {
      var k :| k in ids && table[k] == x;
      var i :| 0 <= i < |order| && order[i] == k;
      assert rows[i] == x;
    }
  }

  /** `where(p)->orderBy(key)->get()`: the rows satisfying `p`, one entry per
      primary key, ascending by `key`. */
  function SortedRows<R(==)>(table: map<nat, R>, p: R -> bool, key: R -> int): (rows: seq<R>)
    ensures |rows| == |Where(table, p)|
    ensures (set x | x in rows) == Matching(table, p)
    ensures forall i | 0 <= i < |rows| :: p(rows[i])
    ensures forall i, j | 0 <= i < j < |rows| :: key(rows[i]) <= key(rows[j])
  {
    var ids := Where(table, p);
    var keys := map k | k in ids :: key(table[k]);
    var order := OrderBy(ids, keys);
    RowsAtEnumeration(table, ids, order);
    assert (set k | k in ids :: table[k]) == Matching(table, p);
    var rows := RowsAt(table, order);
    forall i | 0 <= i < |rows| ensures p(rows[i]) {
      assert order[i] in ids;
    }
    forall i, j | 0 <= i < j < |rows| ensures key(rows[i]) <= key(rows[j]) {
      assert keys[order[i]] <= keys[order[j]];
    }
    rows
  }

  /** A row whose key is strictly above every other row's is listed last. */
  lemma GreatestIsListedLast<R>(table: map<nat, R>, p: R -> bool, key: R -> int, newest: nat)
    requires newest in table && p(table[newest])
    requires forall k | k in table && p(table[k]) && k != newest :: key(table[k]) < key(table[newest])
    ensures |SortedRows(table, p, key)| > 0
    ensures SortedRows(table, p, key)[|SortedRows(table, p, key)| - 1] == table[newest]
  {
    var rows := SortedRows(table, p, key);
    assert table[newest] in Matching(table, p);
    assert table[newest] in (set x | x in rows);
    var j :| 0 <= j < |rows| && rows[j] == table[newest];
    var n := |rows| - 1;
    assert rows[n] in (set x | x in rows);
    var k :| k in table && p(table[k]) && table[k] == rows[n];
    assert key(rows[j]) <= key(rows[n]);
    assert k == newest;
  }

  /** The least key of a non-empty set: the row `first()` picks when the
      database scans in primary-key order. */
  function Least(ids: set<nat>): (m: nat)
    requires ids != {}
    ensures m in ids && forall y | y in ids :: m <= y
  {
    First(ids, map k | k in ids :: 0)
  }
}
