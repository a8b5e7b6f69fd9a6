/**
 * The contents of the SQLite table behind a sqlitemap, as this connection
 * sees it: a finite map from keys to values plus the order in which
 * `SELECT key, value FROM :table` returns the rows (rowid order). REPLACE
 * deletes the old row and inserts a new one, which moves the key to the end.
 */
module Table {
  import opened Wrappers

  datatype Table<K, V> = Table(entries: map<K, V>, order: seq<K>)

  /** No key occurs twice in `s`. */
  predicate NoDuplicates<K(==, !new)>(s: seq<K>) {
    forall i, j :: 0 <= i < j < |s| ==> s[i] != s[j]
  }

  /** The row order lists every key of the table exactly once. */
  ghost predicate Valid<K(!new), V>(t: Table<K, V>) {
    NoDuplicates(t.order) && (forall k :: k in t.order <==> k in t.entries)
  }

  function Empty<K(==, !new), V>(): (t: Table<K, V>)
    ensures Valid(t) && Size(t) == 0
  {
    Table(map[], [])
  }

  /** `s` without the key `k`. */
  function Without<K(==, !new)>(s: seq<K>, k: K): (r: seq<K>)
    ensures forall x :: x in r <==> x in s && x != k
    ensures |r| <= |s|
  {
    if s == [] then []
    else if s[0] == k then Without(s[1..], k)
    else [s[0]] + Without(s[1..], k)
  }

  lemma {:induction false} WithoutNoDuplicates<K(!new)>(s: seq<K>, k: K)
    requires NoDuplicates(s)
    ensures NoDuplicates(Without(s, k))
  {
    if s != [] {
      WithoutNoDuplicates(s[1..], k);
      var rest := Without(s[1..], k);
      assert s[0] !in s[1..] by {
        forall i | 0 <= i < |s| - 1 ensures s[1..][i] != s[0] {
          assert s[1..][i] == s[i + 1];
        }
      }
      assert s[0] !in rest;
    }
  }

  function Size<K(==, !new), V>(t: Table<K, V>): nat {
    |t.entries|
  }

  /** SELECT value FROM :table WHERE key = ? */
  function Lookup<K(==, !new), V>(t: Table<K, V>, k: K): (r: Option<V>)
    ensures r.Some? <==> k in t.entries
    ensures r.Some? ==> r.value == t.entries[k]
  {
    if k in t.entries then Some(t.entries[k]) else None
  }

  /** REPLACE INTO :table (key, value) VALUES (?,?) */
  function Put<K(==, !new), V>(t: Table<K, V>, k: K, v: V): (r: Table<K, V>)
    requires Valid(t)
    ensures Valid(r)
  {
    var order := Without(t.order, k) + [k];
    assert NoDuplicates(order) by {
      var w := Without(t.order, k);
      WithoutNoDuplicates(t.order, k);
      forall i, j | 0 <= i < j < |order|
        ensures order[i] != order[j]
      {
        if j == |order| - 1 {
          assert order[i] == w[i] && w[i] in w;
        }
      }
    }
    Table(t.entries[k := v], order)
  }

  /** DELETE FROM :table WHERE key = ? */
  function Delete<K(==, !new), V>(t: Table<K, V>, k: K): (r: Table<K, V>)
    requires Valid(t)
    ensures Valid(r)
  {
    WithoutNoDuplicates(t.order, k);
    Table(t.entries - {k}, Without(t.order, k))
  }

  /** The rows of `SELECT key, value FROM :table`, in order. */
  function Rows<K(==, !new), V>(t: Table<K, V>): (rows: seq<(K, V)>)
    requires Valid(t)
    ensures |rows| == |t.order|
    ensures forall i :: 0 <= i < |rows| ==> rows[i].0 == t.order[i] && rows[i].1 == t.entries[t.order[i]]
  {
    seq(|t.order|, i requires 0 <= i < |t.order| => (t.order[i], t.entries[t.order[i]]))
  }

  /**
   * The keys of `SELECT key FROM :table`, in order: one per row, each key of
   * the table exactly once.
   */
  function Keys<K(==, !new), V>(t: Table<K, V>): (keys: seq<K>)
    requires Valid(t)
    ensures |keys| == |Rows(t)| == Size(t)
    ensures forall i :: 0 <= i < |keys| ==> keys[i] == Rows(t)[i].0
    ensures NoDuplicates(keys)
    ensures forall k :: k in keys <==> k in t.entries
  {
    OrderLength(t);
    t.order
  }

  /**
   * The values of `SELECT value FROM :table`, in order: the i-th value is the
   * one stored under the i-th key.
   */
  function Values<K(==, !new), V>(t: Table<K, V>): (values: seq<V>)
    requires Valid(t)
    ensures |values| == |Rows(t)| == Size(t)
    ensures forall i :: 0 <= i < |values| ==> values[i] == Rows(t)[i].1 && Lookup(t, Rows(t)[i].0) == Some(values[i])
  {
    OrderLength(t);
    seq(|t.order|, i requires 0 <= i < |t.order| => t.entries[t.order[i]])
  }

  /** Keys and values line up: the i-th value is stored under the i-th key. */
  lemma KeysValuesAligned<K(!new), V>(t: Table<K, V>)
    requires Valid(t)
    ensures |Keys(t)| == |Values(t)|
    ensures forall i :: 0 <= i < |Keys(t)| ==> Lookup(t, Keys(t)[i]) == Some(Values(t)[i])
  {
  }

  /** The table without every row of `rows` that satisfies `pred`. */
  function EraseMatching<K(==, !new), V>(t: Table<K, V>, rows: seq<(K, V)>, pred: ((K, V)) -> bool): (r: Table<K, V>)
    requires Valid(t)
    ensures Valid(r)
  {
    if rows == [] then t
    else
      var t1 := EraseMatching(t, rows[..|rows| - 1], pred);
      var last := rows[|rows| - 1];
      if pred(last) then Delete(t1, last.0) else t1
  }

  /** How many rows of `rows` satisfy `pred`. */
  function CountMatching<K(==, !new), V>(rows: seq<(K, V)>, pred: ((K, V)) -> bool): (n: nat)
    ensures n <= |rows|
  {
    if rows == [] then 0
    else CountMatching(rows[..|rows| - 1], pred) + (if pred(rows[|rows| - 1]) then 1 else 0)
  }

  /** The ranged insert: each pair is stored unless its key is present by then. */
  function InsertAbsent<K(==, !new), V>(t: Table<K, V>, kvs: seq<(K, V)>): (r: Table<K, V>)
    requires Valid(t)
    ensures Valid(r)
  {
    if kvs == [] then t
    else
      var t1 := InsertAbsent(t, kvs[..|kvs| - 1]);
      var last := kvs[|kvs| - 1];
      if last.0 in t1.entries then t1 else Put(t1, last.0, last.1)
  }

  // ---------------------------------------------------------------------
  // Laws of the table operations

  /** In a table without duplicates the row order has exactly one entry per key. */
  lemma {:induction false} OrderLength<K(!new), V>(t: Table<K, V>)
    requires Valid(t)
    ensures |t.order| == Size(t)
  {
    DistinctCardinality(t.order);
    assert (set k | k in t.order) == t.entries.Keys;
  }

  lemma {:induction false} DistinctCardinality<K(!new)>(s: seq<K>)
    requires NoDuplicates(s)
    ensures |set k | k in s| == |s|
  {
    if s != [] {
      var tail := s[1..];
      DistinctCardinality(tail);
      assert (set k | k in s) == (set k | k in tail) + {s[0]};
      assert s[0] !in tail by {
        forall i | 0 <= i < |tail| ensures tail[i] != s[0] {
          assert tail[i] == s[i + 1];
        }
      }
    }
  }

  /** After put(k, v), k maps to v and every other key is untouched. */
  lemma PutLookup<K(!new), V>(t: Table<K, V>, k: K, v: V, other: K)
    requires Valid(t)
    ensures Lookup(Put(t, k, v), k) == Some(v)
    ensures other != k ==> Lookup(Put(t, k, v), other) == Lookup(t, other)
  {
  }

  /** put grows the table by one exactly when the key was absent. */
  lemma PutSize<K(!new), V>(t: Table<K, V>, k: K, v: V)
    requires Valid(t)
    ensures k in t.entries ==> Size(Put(t, k, v)) == Size(t)
    ensures k !in t.entries ==> Size(Put(t, k, v)) == Size(t) + 1
  {
  }

  /** A second put of the same key replaces the first entirely. */
  lemma PutPut<K(!new), V>(t: Table<K, V>, k: K, a: V, b: V)
    requires Valid(t)
    ensures Put(Put(t, k, a), k, b) == Put(t, k, b)
  {
    WithoutAppended(Without(t.order, k), k);
    WithoutIdempotent(t.order, k);
  }

  lemma {:induction false} WithoutAppended<K(!new)>(s: seq<K>, k: K)
    ensures Without(s + [k], k) == Without(s, k)
  {
    if s == [] {
      assert Without([k], k) == Without([k][1..], k);
    } else {
      assert (s + [k])[1..] == s[1..] + [k];
      WithoutAppended(s[1..], k);
    }
  }

  lemma {:induction false} WithoutIdempotent<K(!new)>(s: seq<K>, k: K)
    ensures Without(Without(s, k), k) == Without(s, k)
  {
    if s != [] {
      WithoutIdempotent(s[1..], k);
      if s[0] != k {
        assert ([s[0]] + Without(s[1..], k))[1..] == Without(s[1..], k);
      }
    }
  }

  /** After del(k) the key is absent and every other key is untouched. */
  lemma DeleteLookup<K(!new), V>(t: Table<K, V>, k: K, other: K)
    requires Valid(t)
    ensures Lookup(Delete(t, k), k) == None
    ensures other != k ==> Lookup(Delete(t, k), other) == Lookup(t, other)
    ensures k in t.entries ==> Size(Delete(t, k)) == Size(t) - 1
    ensures k !in t.entries ==> Delete(t, k).entries == t.entries
  {
    var r := Delete(t, k);
    assert r.entries == t.entries - {k};
    if k in t.entries {
      assert t.entries.Keys == r.entries.Keys + {k};
    }
  }

  /** Iterating the table visits every key exactly once, in row order. */
  lemma RowsCoverTable<K(!new), V>(t: Table<K, V>)
    requires Valid(t)
    ensures |Rows(t)| == Size(t)
    ensures forall k :: k in t.entries <==> exists i :: 0 <= i < |Rows(t)| && Rows(t)[i].0 == k
  {
    OrderLength(t);
    forall k | k in t.entries
      ensures exists i :: 0 <= i < |Rows(t)| && Rows(t)[i].0 == k
    {
      assert k in t.order;
      var i :| 0 <= i < |t.order| && t.order[i] == k;
      assert Rows(t)[i].0 == k;
    }
  }

  /**
   * Erasing the matching rows of a table's own row sequence removes exactly the
   * entries that satisfy the predicate and keeps the rest unchanged.
   */
  lemma {:induction false} EraseMatchingEntries<K(!new), V>(t: Table<K, V>, rows: seq<(K, V)>, pred: ((K, V)) -> bool)
    requires Valid(t)
    requires NoDuplicates(RowKeys(rows))
    requires forall i :: 0 <= i < |rows| ==> rows[i].0 in t.entries && t.entries[rows[i].0] == rows[i].1
    ensures forall k :: k in EraseMatching(t, rows, pred).entries <==>
      k in t.entries && !(k in RowKeys(rows) && pred((k, t.entries[k])))
    ensures forall k :: k in EraseMatching(t, rows, pred).entries ==> EraseMatching(t, rows, pred).entries[k] == t.entries[k]
    ensures Size(t) == Size(EraseMatching(t, rows, pred)) + CountMatching(rows, pred)
    decreases |rows|
  {
    if rows != [] {
      var init := rows[..|rows| - 1];
      var last := rows[|rows| - 1];
      assert init + [last] == rows;
      InitRowKeys(rows);
      EraseMatchingEntries(t, init, pred);
      EraseLastStep(t, init, last, pred);
    }
  }

  /** The induction step of EraseMatchingEntries: the last row is still present when it is reached. */
  lemma EraseLastStep<K(!new), V>(t: Table<K, V>, init: seq<(K, V)>, last: (K, V), pred: ((K, V)) -> bool)
    requires Valid(t)
    requires NoDuplicates(RowKeys(init + [last]))
    requires last.0 in t.entries && t.entries[last.0] == last.1
    requires forall k :: k in EraseMatching(t, init, pred).entries <==>
      k in t.entries && !(k in RowKeys(init) && pred((k, t.entries[k])))
    requires forall k :: k in EraseMatching(t, init, pred).entries ==> EraseMatching(t, init, pred).entries[k] == t.entries[k]
    requires Size(t) == Size(EraseMatching(t, init, pred)) + CountMatching(init, pred)
    ensures forall k :: k in EraseMatching(t, init + [last], pred).entries <==>
      k in t.entries && !(k in RowKeys(init + [last]) && pred((k, t.entries[k])))
    ensures forall k :: k in EraseMatching(t, init + [last], pred).entries ==> EraseMatching(t, init + [last], pred).entries[k] == t.entries[k]
    ensures Size(t) == Size(EraseMatching(t, init + [last], pred)) + CountMatching(init + [last], pred)
  {
    var rows := init + [last];
    assert rows[..|rows| - 1] == init;
    var t1 := EraseMatching(t, init, pred);
    assert RowKeys(rows) == RowKeys(init) + [last.0];
    assert last.0 !in RowKeys(init) by {
      forall i | 0 <= i < |init| ensures RowKeys(init)[i] != last.0 {
        assert RowKeys(rows)[i] == RowKeys(init)[i];
        assert RowKeys(rows)[|init|] == last.0;
      }
    }
    assert last == (last.0, t.entries[last.0]);
    assert last.0 in t1.entries;
  }

  function RowKeys<K(==, !new), V>(rows: seq<(K, V)>): (keys: seq<K>)
    ensures |keys| == |rows|
    ensures forall i :: 0 <= i < |rows| ==> keys[i] == rows[i].0
  {
    seq(|rows|, i requires 0 <= i < |rows| => rows[i].0)
  }

  /** Dropping the last row keeps the keys distinct, and the last key is not among the others. */
  lemma InitRowKeys<K(!new), V>(rows: seq<(K, V)>)
    requires rows != [] && NoDuplicates(RowKeys(rows))
    ensures NoDuplicates(RowKeys(rows[..|rows| - 1]))
    ensures rows[|rows| - 1].0 !in RowKeys(rows[..|rows| - 1])
  {
    var init := rows[..|rows| - 1];
    assert RowKeys(rows) == RowKeys(init) + [rows[|rows| - 1].0];
    forall i | 0 <= i < |init| ensures RowKeys(init)[i] != rows[|rows| - 1].0 {
      assert RowKeys(rows)[i] == RowKeys(init)[i];
    }
  }

  /** The keys of a table's own rows are its row order. */
  lemma RowKeysOfRows<K(!new), V>(t: Table<K, V>)
    requires Valid(t)
    ensures RowKeys(Rows(t)) == t.order
  {
  }

  /**
   * The ranged insert never overwrites: keys present before keep their value,
   * and every key of the range is present afterwards.
   */
  lemma {:induction false} InsertAbsentKeeps<K(!new), V>(t: Table<K, V>, kvs: seq<(K, V)>)
    requires Valid(t)
    ensures forall k :: k in t.entries ==> k in InsertAbsent(t, kvs).entries && InsertAbsent(t, kvs).entries[k] == t.entries[k]
    ensures forall i :: 0 <= i < |kvs| ==> kvs[i].0 in InsertAbsent(t, kvs).entries
    ensures forall k :: k in InsertAbsent(t, kvs).entries ==> k in t.entries || k in RowKeys(kvs)
    decreases |kvs|
  {
    if kvs != [] {
      var init := kvs[..|kvs| - 1];
      var last := kvs[|kvs| - 1];
      InsertAbsentKeeps(t, init);
      var t1 := InsertAbsent(t, init);
      var r := InsertAbsent(t, kvs);
      assert r.entries == if last.0 in t1.entries then t1.entries else t1.entries[last.0 := last.1];
      forall i | 0 <= i < |kvs|
        ensures kvs[i].0 in r.entries
      {
        if i < |init| {
          assert kvs[i] == init[i];
        }
      }
      forall k | k in RowKeys(init)
        ensures k in RowKeys(kvs)
      {
        var i :| 0 <= i < |init| && RowKeys(init)[i] == k;
        assert RowKeys(kvs)[i] == k;
      }
      assert RowKeys(kvs)[|kvs| - 1] == last.0;
    }
  }

  /** Among duplicate keys in the range, the first pair wins. */
  lemma {:induction false} InsertAbsentFirstWins<K(!new), V>(t: Table<K, V>, kvs: seq<(K, V)>, i: nat)
    requires Valid(t) && i < |kvs| && kvs[i].0 !in t.entries
    requires forall j :: 0 <= j < i ==> kvs[j].0 != kvs[i].0
    ensures kvs[i].0 in InsertAbsent(t, kvs).entries && InsertAbsent(t, kvs).entries[kvs[i].0] == kvs[i].1
    decreases |kvs|
  {
    InsertAbsentKeeps(t, kvs);
    var init := kvs[..|kvs| - 1];
    if i < |kvs| - 1 {
      InsertAbsentFirstWins(t, init, i);
      InsertAbsentKeeps(t, init);
    } else {
      InsertAbsentKeeps(t, init);
      var k := kvs[i].0;
      forall j | 0 <= j < |init| ensures RowKeys(init)[j] != k {
        assert RowKeys(init)[j] == kvs[j].0;
      }
      assert k !in InsertAbsent(t, init).entries;
    }
  }
}
