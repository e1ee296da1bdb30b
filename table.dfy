/**
 * A relational table as the handlers see it through the store: rows in
 * insertion order, each with a natural key. `Lookup` is `findUnique`,
 * appending a row is `create`, and `Upsert` is the store's native upsert
 * with an update branch that overwrites the row (the cursor upsert; an
 * upsert with an empty update branch is a `Lookup` and then an append).
 */
module Table {
  import opened Wrappers

  /** The natural keys present in the table. */
  function Keys<R(==), K(==)>(rows: seq<R>, keyOf: R -> K): set<K> {
    set r | r in rows :: keyOf(r)
  }

  /** At most one row per natural key. */
  predicate Unique<R, K(==)>(rows: seq<R>, keyOf: R -> K) {
    forall i, j :: 0 <= i < j < |rows| ==> keyOf(rows[i]) != keyOf(rows[j])
  }

  lemma KeysAppend<R, K>(rows: seq<R>, keyOf: R -> K, row: R)
    ensures Keys(rows + [row], keyOf) == Keys(rows, keyOf) + {keyOf(row)}
  {
    var both := rows + [row];
    forall k | k in Keys(both, keyOf) ensures k in Keys(rows, keyOf) + {keyOf(row)} {
      var r :| r in both && keyOf(r) == k;
      if r != row {
        assert r in rows;
      }
    }
    assert row in both;
  }

  lemma KeysOfPrefix<R, K>(rows: seq<R>, more: seq<R>, keyOf: R -> K)
    ensures Keys(rows, keyOf) <= Keys(rows + more, keyOf)
  {
    forall k | k in Keys(rows, keyOf) ensures k in Keys(rows + more, keyOf) {
      var r :| r in rows && keyOf(r) == k;
      assert r in rows + more;
    }
  }

  /** The `findUnique` of the store: the first row with key `k`. */
  function Lookup<R(==), K(==)>(rows: seq<R>, keyOf: R -> K, k: K): (r: Option<R>)
    ensures r.Some? <==> k in Keys(rows, keyOf)
    ensures r.Some? ==> r.value in rows && keyOf(r.value) == k
  {
    if rows == [] then None
    else if keyOf(rows[0]) == k then Some(rows[0])
    else
      Lookup(rows[1..], keyOf, k)
  }

  /** Appending rows never changes what a lookup of a present key finds. */
  lemma {:induction false} LookupStable<R, K>(rows: seq<R>, more: seq<R>, keyOf: R -> K, k: K)
    requires k in Keys(rows, keyOf)
    ensures Lookup(rows + more, keyOf, k) == Lookup(rows, keyOf, k)
  {
    assert (rows + more)[0] == rows[0];
    if keyOf(rows[0]) != k {
      assert (rows + more)[1..] == rows[1..] + more;
      LookupStable(rows[1..], more, keyOf, k);
    }
  }

  /** A row appended under a key the table does not hold is what a lookup of that key finds. */
  lemma {:induction false} LookupAppendFresh<R, K>(rows: seq<R>, keyOf: R -> K, row: R)
    requires keyOf(row) !in Keys(rows, keyOf)
    ensures Lookup(rows + [row], keyOf, keyOf(row)) == Some(row)
  {
    if rows != [] {
      assert rows[0] in rows;
      assert (rows + [row])[1..] == rows[1..] + [row];
      assert Keys(rows[1..], keyOf) <= Keys(rows, keyOf) by {
        forall k | k in Keys(rows[1..], keyOf) ensures k in Keys(rows, keyOf) {
          var x :| x in rows[1..] && keyOf(x) == k;
          assert x in rows;
        }
      }
      LookupAppendFresh(rows[1..], keyOf, row);
    }
  }

  lemma UniqueAppend<R, K>(rows: seq<R>, keyOf: R -> K, row: R)
    requires Unique(rows, keyOf) && keyOf(row) !in Keys(rows, keyOf)
    ensures Unique(rows + [row], keyOf)
  {
    forall i | 0 <= i < |rows| ensures keyOf(rows[i]) != keyOf(row) {
      assert rows[i] in rows;
    }
  }

  /** In a table with unique keys, a key names at most one row. */
  lemma UniqueSameKey<R, K>(rows: seq<R>, keyOf: R -> K, k: K)
    ensures Unique(rows, keyOf) ==>
      forall x, y :: x in rows && y in rows && keyOf(x) == k && keyOf(y) == k ==> x == y
  {
    forall x, y | Unique(rows, keyOf) && x in rows && y in rows && keyOf(x) == k && keyOf(y) == k
      ensures x == y
    {
      var i :| 0 <= i < |rows| && rows[i] == x;
      var j :| 0 <= j < |rows| && rows[j] == y;
      assert i == j;
    }
  }

  /** The keys of a table with one more row at the front. */
  lemma KeysCons<R, K>(h: R, rows: seq<R>, keyOf: R -> K)
    ensures Keys([h] + rows, keyOf) == {keyOf(h)} + Keys(rows, keyOf)
  {
    var both := [h] + rows;
    forall k | k in Keys(both, keyOf) ensures k in {keyOf(h)} + Keys(rows, keyOf) {
      var x :| x in both && keyOf(x) == k;
      if x != h {
        assert x in rows;
      }
    }
    forall k | k in Keys(rows, keyOf) ensures k in Keys(both, keyOf) {
      var x :| x in rows && keyOf(x) == k;
      assert x in both;
    }
    assert h in both;
  }

  /** Replacing the front row by one with the same key changes the lookup of that key only. */
  lemma LookupReplaceHead<R, K>(rows: seq<R>, keyOf: R -> K, row: R)
    requires rows != [] && keyOf(rows[0]) == keyOf(row)
    ensures Lookup([row] + rows[1..], keyOf, keyOf(row)) == Some(row)
    ensures forall k :: k != keyOf(row) ==> Lookup([row] + rows[1..], keyOf, k) == Lookup(rows, keyOf, k)
  {
    assert ([row] + rows[1..])[1..] == rows[1..];
  }

  /** Under a front row with another key, lookups follow the rest of the table. */
  lemma LookupUnderHead<R, K>(rows: seq<R>, tail: seq<R>, keyOf: R -> K, row: R)
    requires rows != [] && keyOf(rows[0]) != keyOf(row)
    requires Lookup(tail, keyOf, keyOf(row)) == Some(row)
    requires forall k :: k != keyOf(row) ==> Lookup(tail, keyOf, k) == Lookup(rows[1..], keyOf, k)
    ensures Lookup([rows[0]] + tail, keyOf, keyOf(row)) == Some(row)
    ensures forall k :: k != keyOf(row) ==> Lookup([rows[0]] + tail, keyOf, k) == Lookup(rows, keyOf, k)
  {
    assert ([rows[0]] + tail)[1..] == tail;
  }

  /** A row at the front keeps the keys unique exactly when its key is new to the rest. */
  lemma UniqueCons<R, K>(h: R, rows: seq<R>, keyOf: R -> K)
    ensures Unique([h] + rows, keyOf) <==> Unique(rows, keyOf) && keyOf(h) !in Keys(rows, keyOf)
  {
    var both := [h] + rows;
    if Unique(both, keyOf) {
      forall i, j | 0 <= i < j < |rows| ensures keyOf(rows[i]) != keyOf(rows[j]) {
        assert both[i + 1] == rows[i] && both[j + 1] == rows[j];
      }
      forall x | x in rows ensures keyOf(x) != keyOf(h) {
        var m :| 0 <= m < |rows| && rows[m] == x;
        assert both[0] == h && both[m + 1] == x;
      }
    }
    if Unique(rows, keyOf) && keyOf(h) !in Keys(rows, keyOf) {
      forall i, j | 0 <= i < j < |both| ensures keyOf(both[i]) != keyOf(both[j]) {
        assert both[j] == rows[j - 1];
        if i > 0 {
          assert both[i] == rows[i - 1];
        } else {
          assert rows[j - 1] in rows;
        }
      }
    }
  }

  /**
   * The store's upsert with an overwriting update branch: the row with the
   * same key is replaced in place, otherwise the row is appended.
   */
  function Upsert<R(==), K(==,!new)>(rows: seq<R>, keyOf: R -> K, row: R): (r: seq<R>)
    ensures Lookup(r, keyOf, keyOf(row)) == Some(row)
    ensures forall k :: k != keyOf(row) ==> Lookup(r, keyOf, k) == Lookup(rows, keyOf, k)
    ensures Keys(r, keyOf) == Keys(rows, keyOf) + {keyOf(row)}
    ensures Unique(rows, keyOf) ==> Unique(r, keyOf)
  {
    if rows == [] then
      assert Keys([row], keyOf) == {keyOf(row)} by { KeysCons(row, [], keyOf); }
      [row]
    else
      var rest := rows[1..];
      assert rows == [rows[0]] + rest;
      KeysCons(rows[0], rest, keyOf);
      UniqueCons(rows[0], rest, keyOf);
      if keyOf(rows[0]) == keyOf(row) then
        var r := [row] + rest;
        assert r[1..] == rest;
        KeysCons(row, rest, keyOf);
        UniqueCons(row, rest, keyOf);
        LookupReplaceHead(rows, keyOf, row);
        r
      else
        var tail := Upsert(rest, keyOf, row);
        var r := [rows[0]] + tail;
        assert r[1..] == tail;
        KeysCons(rows[0], tail, keyOf);
        UniqueCons(rows[0], tail, keyOf);
        LookupUnderHead(rows, tail, keyOf, row);
        r
  }


  /** Two upserts of the same key leave the table as the second alone would: the last write wins. */
  lemma {:induction false} UpsertTwice<R, K(!new)>(rows: seq<R>, keyOf: R -> K, first: R, second: R)
    requires keyOf(first) == keyOf(second)
    ensures Upsert(Upsert(rows, keyOf, first), keyOf, second) == Upsert(rows, keyOf, second)
    decreases |rows|
  {
    if rows == [] {
    } else if keyOf(rows[0]) == keyOf(first) {
      assert ([first] + rows[1..])[1..] == rows[1..];
    } else {
      UpsertTwice(rows[1..], keyOf, first, second);
      var once := Upsert(rows, keyOf, first);
      assert once[1..] == Upsert(rows[1..], keyOf, first);
    }
  }

  /** Number of rows satisfying `p`: what the store's `count` and `_count` return. */
  function Count<R>(rows: seq<R>, p: R -> bool): (n: nat)
    ensures n <= |rows|
    ensures n == 0 <==> forall i :: 0 <= i < |rows| ==> !p(rows[i])
  {
    if rows == [] then 0
    else
      var n := Count(rows[1..], p);
      assert forall i :: 1 <= i < |rows| ==> rows[1..][i - 1] == rows[i];
      (if p(rows[0]) then 1 else 0) + n
  }

  /** The rows satisfying `p`, in table order: a `findMany` with a `where` filter. */
  function Filter<R(==,!new)>(rows: seq<R>, p: R -> bool): (r: seq<R>)
    ensures |r| == Count(rows, p)
    ensures forall x :: x in r <==> x in rows && p(x)
  {
    if rows == [] then []
    else
      var rest := Filter(rows[1..], p);
      assert forall x :: x in rows <==> x == rows[0] || x in rows[1..];
      if p(rows[0]) then [rows[0]] + rest else rest
  }

  /**
   * A query over two stretches of a table returns the first stretch's
   * matches followed by the second's: the rows are kept in table order,
   * each as often as it occurs.
   */
  lemma {:induction false} FilterConcat<R(!new)>(a: seq<R>, b: seq<R>, p: R -> bool)
    ensures Filter(a + b, p) == Filter(a, p) + Filter(b, p)
    decreases |a|
  {
    if a == [] {
      assert a + b == b;
    } else {
      assert (a + b)[0] == a[0];
      assert (a + b)[1..] == a[1..] + b;
      FilterConcat(a[1..], b, p);
    }
  }

  /** A one-row table yields that row exactly when it matches. */
  lemma FilterSingle<R(!new)>(x: R, p: R -> bool)
    ensures Filter([x], p) == if p(x) then [x] else []
  {
    assert [x][1..] == [];
  }

  /**
   * Counting is additive over stretches of a table. With `CountSingle` this
   * fixes `Count` as the number of matching rows.
   */
  lemma CountConcat<R(!new)>(a: seq<R>, b: seq<R>, p: R -> bool)
    ensures Count(a + b, p) == Count(a, p) + Count(b, p)
  {
    FilterConcat(a, b, p);
  }

  /** A one-row table counts one exactly when the row matches. */
  lemma CountSingle<R(!new)>(x: R, p: R -> bool)
    ensures Count([x], p) == if p(x) then 1 else 0
  {
    FilterSingle(x, p);
  }

  /** A predicate that holds more often counts at least as many rows. */
  lemma {:induction false} CountMono<R>(rows: seq<R>, p: R -> bool, q: R -> bool)
    requires forall x :: p(x) ==> q(x)
    ensures Count(rows, p) <= Count(rows, q)
    decreases |rows|
  {
    if rows != [] {
      CountMono(rows[1..], p, q);
    }
  }

  /** `f` applied to every row, in table order: the `map` a route applies to a query result. */
  function Project<R, T>(rows: seq<R>, f: R -> T): (r: seq<T>)
    ensures |r| == |rows|
    ensures forall i :: 0 <= i < |rows| ==> r[i] == f(rows[i])
  {
    seq(|rows|, i requires 0 <= i < |rows| => f(rows[i]))
  }

  /**
   * `f` applied to every row, newest row first: a query ordered by
   * `createdAt` descending, rows being in insertion order.
   */
  function NewestFirst<R, T>(rows: seq<R>, f: R -> T): (r: seq<T>)
    ensures |r| == |rows|
    ensures forall i :: 0 <= i < |rows| ==> r[i] == f(rows[|rows| - 1 - i])
    decreases |rows|
  {
    if rows == [] then []
    else
      var rest := NewestFirst(rows[..|rows| - 1], f);
      [f(rows[|rows| - 1])] + rest
  }

  /** A row inserted last heads the newest-first listing, ahead of the listing before it. */
  lemma NewestFirstAppend<R, T>(rows: seq<R>, x: R, f: R -> T)
    ensures NewestFirst(rows + [x], f) == [f(x)] + NewestFirst(rows, f)
  {
    assert (rows + [x])[..|rows|] == rows;
  }

  /** Newest first lists exactly the projections of the rows, the last inserted row at the head. */
  lemma NewestFirstContents<R, T>(rows: seq<R>, f: R -> T)
    ensures forall x :: x in rows ==> f(x) in NewestFirst(rows, f)
    ensures forall t :: t in NewestFirst(rows, f) ==> exists x :: x in rows && f(x) == t
    ensures rows != [] ==> NewestFirst(rows, f)[0] == f(rows[|rows| - 1])
  {
    var r := NewestFirst(rows, f);
    forall x | x in rows ensures f(x) in r {
      var i :| 0 <= i < |rows| && rows[i] == x;
      assert r[|rows| - 1 - i] == f(x);
    }
    forall t | t in r ensures exists x :: x in rows && f(x) == t {
      var i :| 0 <= i < |r| && r[i] == t;
      assert rows[|rows| - 1 - i] in rows;
    }
  }

  /** A filtered projection holds exactly the projections of the rows that pass the filter. */
  lemma ProjectFilterMembers<R(!new), T>(rows: seq<R>, p: R -> bool, f: R -> T)
    ensures forall t :: t in Project(Filter(rows, p), f) <==> exists x :: x in rows && p(x) && f(x) == t
  {
    var kept := Filter(rows, p);
    var r := Project(kept, f);
    forall t | t in r ensures exists x :: x in rows && p(x) && f(x) == t {
      var i :| 0 <= i < |r| && r[i] == t;
      assert kept[i] in kept;
    }
    forall t | exists x :: x in rows && p(x) && f(x) == t ensures t in r {
      var x :| x in rows && p(x) && f(x) == t;
      var i :| 0 <= i < |kept| && kept[i] == x;
      assert r[i] == t;
    }
  }

  /** Some row passes the filter exactly when the count is positive. */
  lemma CountPositive<R>(rows: seq<R>, p: R -> bool)
    ensures Count(rows, p) > 0 <==> exists x :: x in rows && p(x)
  {
    if Count(rows, p) > 0 {
      var i :| 0 <= i < |rows| && p(rows[i]);
      assert rows[i] in rows;
    } else {
      forall x | x in rows ensures !p(x) {
        var i :| 0 <= i < |rows| && rows[i] == x;
      }
    }
  }
}
