/**
 * What one sqlitemap connection sees of its table, and what a ROLLBACK would
 * return to. sqlitemap never checks the return codes of BEGIN, COMMIT and
 * ROLLBACK, so a BEGIN inside a transaction and a COMMIT or ROLLBACK outside
 * one leave everything as it was. Outside a transaction SQLite commits each
 * statement on its own.
 */
module Transactions {
  import opened Wrappers
  import T = Table

  datatype Db<K, V> = Db(store: T.Table<K, V>, committed: T.Table<K, V>, inTransaction: bool)

  /** Both tables are well formed, and outside a transaction nothing is pending. */
  ghost predicate DbValid<K(!new), V>(db: Db<K, V>) {
    T.Valid(db.store) && T.Valid(db.committed) && (!db.inTransaction ==> db.committed == db.store)
  }

  /** begin_transaction() */
  function BeginSpec<K(!new), V>(db: Db<K, V>): (r: Db<K, V>)
    ensures r.inTransaction && r.store == db.store
    ensures db.inTransaction ==> r == db
    ensures DbValid(db) ==> DbValid(r) && r.committed == db.committed
  {
    if db.inTransaction then db else Db(db.store, db.store, true)
  }

  /** commit() */
  function CommitSpec<K(!new), V>(db: Db<K, V>): (r: Db<K, V>)
    ensures !r.inTransaction && r.store == db.store
    ensures !db.inTransaction ==> r == db
    ensures DbValid(db) ==> DbValid(r)
  {
    if db.inTransaction then Db(db.store, db.store, false) else db
  }

  /** rollback() */
  function RollbackSpec<K(!new), V>(db: Db<K, V>): (r: Db<K, V>)
    ensures !r.inTransaction
    ensures !db.inTransaction ==> r == db
    ensures DbValid(db) ==> DbValid(r) && r.store == db.committed
  {
    if db.inTransaction then Db(db.committed, db.committed, false) else db
  }

  /**
   * One writing statement that changes the table to `t`. set and del open a
   * transaction first unless auto-commit is on; a statement outside a
   * transaction is committed at once.
   */
  function WriteSpec<K(!new), V>(db: Db<K, V>, autoCommit: bool, t: T.Table<K, V>): (r: Db<K, V>)
    ensures r.store == t
    ensures r.inTransaction <==> db.inTransaction || !autoCommit
    ensures DbValid(db) && T.Valid(t) ==> DbValid(r)
    ensures DbValid(db) && r.inTransaction ==> r.committed == db.committed
    ensures !r.inTransaction ==> r.committed == t
  {
    var d := if autoCommit then db else BeginSpec(db);
    if d.inTransaction then d.(store := t) else Db(t, t, false)
  }

  /** A run of writing statements, one table state per statement. */
  function WriteAll<K(!new), V>(db: Db<K, V>, autoCommit: bool, ts: seq<T.Table<K, V>>): (r: Db<K, V>)
    ensures ts != [] ==> r.store == ts[|ts| - 1]
  {
    if ts == [] then db else WriteSpec(WriteAll(db, autoCommit, ts[..|ts| - 1]), autoCommit, ts[|ts| - 1])
  }

  ghost predicate AllValid<K(!new), V>(ts: seq<T.Table<K, V>>) {
    forall i :: 0 <= i < |ts| ==> T.Valid(ts[i])
  }

  /**
   * Inside a transaction (an explicit one, or the one set and del open when
   * auto-commit is off) writes keep the last committed table, so a rollback
   * returns to it.
   */
  lemma {:induction false} RollbackUndoesWrites<K(!new), V>(db: Db<K, V>, autoCommit: bool, ts: seq<T.Table<K, V>>)
    requires DbValid(db) && AllValid(ts)
    requires db.inTransaction || !autoCommit
    ensures DbValid(WriteAll(db, autoCommit, ts))
    ensures db.inTransaction || ts != [] ==> WriteAll(db, autoCommit, ts).inTransaction
    ensures WriteAll(db, autoCommit, ts).committed == db.committed
    ensures RollbackSpec(WriteAll(db, autoCommit, ts)).store == db.committed
    decreases |ts|
  {
    if ts != [] {
      var init := ts[..|ts| - 1];
      assert AllValid(init) by {
        forall i | 0 <= i < |init| ensures T.Valid(init[i]) {
          assert init[i] == ts[i];
        }
      }
      RollbackUndoesWrites(db, autoCommit, init);
    }
  }

  /** With auto-commit on and no explicit transaction every write is committed, so a rollback changes nothing. */
  lemma {:induction false} AutoCommitWritesDurable<K(!new), V>(db: Db<K, V>, ts: seq<T.Table<K, V>>)
    requires DbValid(db) && AllValid(ts) && !db.inTransaction
    ensures DbValid(WriteAll(db, true, ts)) && !WriteAll(db, true, ts).inTransaction
    ensures RollbackSpec(WriteAll(db, true, ts)) == WriteAll(db, true, ts)
    decreases |ts|
  {
    if ts != [] {
      var init := ts[..|ts| - 1];
      assert AllValid(init) by {
        forall i | 0 <= i < |init| ensures T.Valid(init[i]) {
          assert init[i] == ts[i];
        }
      }
      AutoCommitWritesDurable(db, init);
    }
  }

  /** A second write replaces the first: only the last table state matters. */
  lemma WriteTwice<K(!new), V>(db: Db<K, V>, autoCommit: bool, a: T.Table<K, V>, b: T.Table<K, V>)
    requires DbValid(db) && T.Valid(a)
    ensures WriteSpec(WriteSpec(db, autoCommit, a), autoCommit, b) == WriteSpec(db, autoCommit, b)
  {
  }

  // ---------------------------------------------------------------------
  // close(): what survives the connection. SQLite rolls back a transaction
  // that is still open when the connection is closed, so the durable table
  // is the committed one.

  /**
   * close() as written: commit only when auto-commit is on, then close the
   * connection, which drops whatever is still uncommitted.
   */
  function CloseAsWritten<K(!new), V>(db: Db<K, V>, autoCommit: bool): (durable: T.Table<K, V>)
    ensures DbValid(db) ==> T.Valid(durable)
    ensures DbValid(db) && (autoCommit || !db.inTransaction) ==> durable == db.store
    ensures DbValid(db) && !autoCommit ==> durable == db.committed
  {
    (if autoCommit then CommitSpec(db) else db).committed
  }

  /**
   * With auto-commit off, close() as written loses every write since the
   * connection opened its transaction: the durable table is the one from
   * before the writes, even when the writes changed it.
   */
  lemma {:induction false} CloseAsWrittenLosesWrites<K(!new), V>(db: Db<K, V>, ts: seq<T.Table<K, V>>)
    requires DbValid(db) && !db.inTransaction && AllValid(ts) && ts != []
    ensures WriteAll(db, false, ts).inTransaction
    ensures CloseAsWritten(WriteAll(db, false, ts), false) == db.store
    ensures ts[|ts| - 1] != db.store ==> CloseAsWritten(WriteAll(db, false, ts), false) != WriteAll(db, false, ts).store
  {
    RollbackUndoesWrites(db, false, ts);
  }

  /** close(), corrected: commit any open transaction, then close the connection. */
  function CloseSpec<K(!new), V>(db: Db<K, V>): (durable: T.Table<K, V>)
    ensures DbValid(db) ==> T.Valid(durable) && durable == db.store
    ensures DbValid(db) && !db.inTransaction ==> durable == db.committed
  {
    CommitSpec(db).committed
  }

  /**
   * Whatever auto-commit says, the corrected close() keeps the last write of
   * a run of writes: a later connection reads it.
   */
  lemma {:induction false} CloseKeepsWrites<K(!new), V>(db: Db<K, V>, autoCommit: bool, ts: seq<T.Table<K, V>>)
    requires DbValid(db) && AllValid(ts) && ts != []
    ensures CloseSpec(WriteAll(db, autoCommit, ts)) == ts[|ts| - 1]
  {
    if db.inTransaction || !autoCommit {
      RollbackUndoesWrites(db, autoCommit, ts);
    } else {
      AutoCommitWritesDurable(db, ts);
    }
  }

  // ---------------------------------------------------------------------
  // The composite operations of the facade, stated on the connection state

  /**
   * insert and try_emplace: store the pair unless the key is present; a present
   * key leaves everything as it was.
   */
  function InsertSpec<K(==, !new), V>(db: Db<K, V>, autoCommit: bool, kv: (K, V)): (r: Db<K, V>)
    requires DbValid(db)
    ensures DbValid(r)
    ensures kv.0 in r.store.entries
    ensures kv.0 in db.store.entries ==> r == db
    ensures kv.0 !in db.store.entries ==> r.store.entries == db.store.entries[kv.0 := kv.1]
  {
    if kv.0 in db.store.entries then db else WriteSpec(db, autoCommit, T.Put(db.store, kv.0, kv.1))
  }

  /** The ranged insert: each pair in turn, as insert would. */
  function InsertAllSpec<K(==, !new), V>(db: Db<K, V>, autoCommit: bool, kvs: seq<(K, V)>): (r: Db<K, V>)
    requires DbValid(db)
    ensures DbValid(r)
    ensures r.store == T.InsertAbsent(db.store, kvs)
  {
    if kvs == [] then db
    else InsertSpec(InsertAllSpec(db, autoCommit, kvs[..|kvs| - 1]), autoCommit, kvs[|kvs| - 1])
  }

  /** erase(k): delete the row when the key is present, otherwise nothing happens. */
  function EraseSpec<K(==, !new), V>(db: Db<K, V>, autoCommit: bool, k: K): (r: Db<K, V>)
    requires DbValid(db)
    ensures DbValid(r)
    ensures k !in r.store.entries
    ensures k !in db.store.entries ==> r == db
    ensures k in db.store.entries ==> r.store.entries == db.store.entries - {k}
  {
    if k in db.store.entries then WriteSpec(db, autoCommit, T.Delete(db.store, k)) else db
  }

  /**
   * One row of erase_if: erase the row's key when the predicate accepts the
   * row, adding erase's 0 or 1 to the count.
   */
  function EraseIfStep<K(==, !new), V>(s: (Db<K, V>, nat), autoCommit: bool, row: (K, V), pred: ((K, V)) -> bool): (r: (Db<K, V>, nat))
    requires DbValid(s.0)
    ensures DbValid(r.0)
    ensures s.1 <= r.1 <= s.1 + 1
  {
    if pred(row) then (EraseSpec(s.0, autoCommit, row.0), s.1 + if row.0 in s.0.store.entries then 1 else 0)
    else s
  }

  /** erase_if over the rows `rows` read at begin(), one row at a time. */
  function EraseIfSpec<K(==, !new), V>(db: Db<K, V>, autoCommit: bool, rows: seq<(K, V)>, pred: ((K, V)) -> bool): (r: (Db<K, V>, nat))
    requires DbValid(db)
    ensures DbValid(r.0)
    ensures r.1 <= |rows|
  {
    if rows == [] then (db, 0)
    else EraseIfStep(EraseIfSpec(db, autoCommit, rows[..|rows| - 1], pred), autoCommit, rows[|rows| - 1], pred)
  }

  /** erase_if after one more row. */
  lemma EraseIfSpecStep<K(!new), V>(db: Db<K, V>, autoCommit: bool, rows: seq<(K, V)>, i: nat, pred: ((K, V)) -> bool)
    requires DbValid(db) && i < |rows|
    ensures EraseIfSpec(db, autoCommit, rows[..i + 1], pred)
         == EraseIfStep(EraseIfSpec(db, autoCommit, rows[..i], pred), autoCommit, rows[i], pred)
  {
    assert rows[..i + 1][..i] == rows[..i];
  }

  /**
   * Over rows of the table itself, erase_if erases exactly the matching rows
   * (each key is still present when its row is reached) and counts them.
   */
  lemma {:induction false} EraseIfSpecErasesMatching<K(!new), V>(db: Db<K, V>, autoCommit: bool, rows: seq<(K, V)>, pred: ((K, V)) -> bool)
    requires DbValid(db)
    requires T.NoDuplicates(T.RowKeys(rows))
    requires forall i :: 0 <= i < |rows| ==> rows[i].0 in db.store.entries && db.store.entries[rows[i].0] == rows[i].1
    ensures EraseIfSpec(db, autoCommit, rows, pred).0.store.entries == T.EraseMatching(db.store, rows, pred).entries
    ensures EraseIfSpec(db, autoCommit, rows, pred).1 == T.CountMatching(rows, pred)
    decreases |rows|
  {
    if rows != [] {
      var init := rows[..|rows| - 1];
      var last := rows[|rows| - 1];
      T.InitRowKeys(rows);
      EraseIfSpecErasesMatching(db, autoCommit, init, pred);
      T.EraseMatchingEntries(db.store, init, pred);
      var d := EraseIfSpec(db, autoCommit, init, pred).0;
      assert last.0 in d.store.entries;
    }
  }

  /**
   * erase_if over the whole table: what remains is exactly the entries the
   * predicate rejects, with their values, and the count is the number erased.
   */
  lemma EraseIfOverTable<K(!new), V>(db: Db<K, V>, autoCommit: bool, pred: ((K, V)) -> bool)
    requires DbValid(db)
    ensures var (r, n) := EraseIfSpec(db, autoCommit, T.Rows(db.store), pred);
      (forall k :: k in r.store.entries <==> k in db.store.entries && !pred((k, db.store.entries[k])))
      && (forall k :: k in r.store.entries ==> r.store.entries[k] == db.store.entries[k])
      && T.Size(db.store) == T.Size(r.store) + n
  {
    var rows := T.Rows(db.store);
    T.RowKeysOfRows(db.store);
    EraseIfSpecErasesMatching(db, autoCommit, rows, pred);
    T.EraseMatchingEntries(db.store, rows, pred);
  }
}
