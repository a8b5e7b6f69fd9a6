/**
 * The sqlitemap facade: a map-like object over one SQLite table. The table is
 * the abstract `store` this connection sees, `committed` is what a rollback
 * returns to, and `inTransaction` says whether a transaction is open. Every
 * mutator refuses, with its own message and before touching the table, when
 * the map was opened read-only (mode r).
 */
module Facade {
  import opened Wrappers
  import opened Errors
  import Cfg = Configuration
  import LR = LazyResult
  import It = MapIterator
  import T = Table
  import opened Transactions

  const WRITE_REFUSED: string := "Refusing to write to read-only sqlitemap"
  const DELETE_REFUSED: string := "Refusing to delete from read-only sqlitemap"
  const INSERT_REFUSED: string := "Refusing to insert into read-only sqlitemap"
  const CLEAR_REFUSED: string := "Refusing to clear read-only sqlitemap"
  const ERASE_REFUSED: string := "Refusing to erase from read-only sqlitemap"
  const EXTRACT_REFUSED: string := "Refusing to extract from read-only sqlitemap"
  const TERMINATE_REFUSED: string := "Refusing to terminate read-only sqlitemap"

  /** get()'s message for a missing key, given the key's text. */
  function NotFoundMessage(key: string): string {
    "Key '" + key + "' not found in database"
  }

  /** connect()'s message when mode r finds no such table. */
  function MissingTableMessage(table: string): string {
    "Refusing to create a new table '" + table + "' in read-only DB mode"
  }

  /** sqlitemap_node_type: an empty node, or one holding a key and its mapped value. */
  datatype Node<K, V> = EmptyNode | Holds(key: K, mapped: V)

  /** sqlitemap_insert_return_type */
  datatype InsertReturn<K, V> = InsertReturn(position: It.MapIterator<(K, V)>, inserted: bool, node: Node<K, V>)

  /**
   * An iterator walking the rows of a query that ends without error: it is on
   * row `i`, or at the end once every row has been visited.
   */
  ghost predicate Walking<R>(it: It.MapIterator<R>, rows: seq<R>, i: nat)
    reads it, it.result
  {
    it.Valid() && it.result != null && it.result.rows == rows && it.result.finish == LR.Done
    && i <= |rows| && (it.isEnd <==> i == |rows|) && (!it.isEnd ==> it.index == Some(i))
  }

  /** Dereference an iterator walking a statement that ends without error: the row at its index. */
  method ReadWalking<R>(it: It.MapIterator<R>, ghost rows: seq<R>, ghost i: nat) returns (row: R)
    requires Walking(it, rows, i) && i < |rows|
    modifies it.result
    ensures Walking(it, rows, i) && row == rows[i]
  {
    LR.LoadCacheDone(it.result.State(), i, |rows|);
    var r := it.Deref();
    row := r.value;
  }

  /** Increment an iterator walking a statement that ends without error: it moves to the next row, or to end. */
  method StepWalking<R>(it: It.MapIterator<R>, ghost rows: seq<R>, ghost i: nat)
    requires Walking(it, rows, i) && i < |rows|
    modifies it, it.result
    ensures Walking(it, rows, i + 1) && it.result == old(it.result)
  {
    It.StepDone(it.Position(), i, |rows|);
    var o := it.Increment();
  }

  /**
   * The iterator find(k) returns over table `t`: one over the single row
   * (k, value), positioned on it, or the end iterator when k is absent.
   */
  ghost predicate FindsKey<K(!new), V>(it: It.MapIterator<(K, V)>, t: T.Table<K, V>, k: K)
    reads it, it.result
  {
    if k in t.entries then
      it.Valid() && it.result != null && it.result.rows == [(k, t.entries[k])] && it.result.finish == LR.Done
      && it.Position() == It.Cursor(Some(0), false, LR.Cache(1, true))
    else
      it.Valid() && it.isEnd && it.result == null
  }

  class SqliteMap<K(==, !new), V> {
    const table: string
    const mode: Cfg.OperationMode
    const autoCommit: bool
    /** mapped_type(): what operator[] stores under a missing key. */
    const defaultValue: V
    /** as_string_or: the text of a key in error messages. */
    const describe: K -> string

    var store: T.Table<K, V>
    var committed: T.Table<K, V>
    var inTransaction: bool

    function State(): Db<K, V>
      reads this
    {
      Db(store, committed, inTransaction)
    }

    ghost predicate Valid()
      reads this
    {
      DbValid(State())
    }

    constructor Init(table: string, mode: Cfg.OperationMode, autoCommit: bool, defaultValue: V,
                     describe: K -> string, contents: T.Table<K, V>)
      requires T.Valid(contents)
      ensures Valid() && !inTransaction && store == contents
      ensures this.table == table && this.mode == mode && this.autoCommit == autoCommit
      ensures this.defaultValue == defaultValue && this.describe == describe
    {
      this.table := table;
      this.mode := mode;
      this.autoCommit := autoCommit;
      this.defaultValue := defaultValue;
      this.describe := describe;
      store := contents;
      committed := contents;
      inTransaction := false;
    }

    /**
     * The constructor and connect(): mode n starts from a removed file, mode r
     * refuses a missing table, the table is created if missing, and mode w
     * clears it. `existing` is the table the database file already holds.
     */
    static method Open(cfg: Cfg.Configuration, defaultValue: V, describe: K -> string, existing: Option<T.Table<K, V>>)
      returns (r: Result<SqliteMap<K, V>, Error>)
      requires existing.Some? ==> T.Valid(existing.value)
      ensures r.Failure? <==> cfg.mode.R? && existing.None?
      ensures r.Failure? ==> r.error == SqlitemapError(MissingTableMessage(cfg.table))
      ensures r.Success? ==> fresh(r.value) && r.value.Valid() && !r.value.inTransaction
      ensures r.Success? ==> r.value.table == cfg.table && r.value.mode == cfg.mode && r.value.autoCommit == cfg.autoCommit
      ensures r.Success? ==> r.value.defaultValue == defaultValue && r.value.describe == describe
      ensures r.Success? && (cfg.mode.W? || cfg.mode.N? || existing.None?) ==> r.value.store == T.Empty()
      ensures r.Success? && (cfg.mode.C? || cfg.mode.R?) && existing.Some? ==> r.value.store == existing.value
    {
      var contents := if cfg.mode.N? then None else existing;
      if cfg.mode.R? && contents.None? {
        return Failure(SqlitemapError(MissingTableMessage(cfg.table)));
      }
      var m := new SqliteMap.Init(cfg.table, cfg.mode, cfg.autoCommit, defaultValue, describe,
                                  if contents.Some? then contents.value else T.Empty());
      m.Commit();
      if cfg.mode.W? {
        var cleared := m.Clear();
      }
      return Success(m);
    }

    // -------------------------------------------------------------------
    // Transactions

    method BeginTransaction()
      requires Valid()
      modifies this
      ensures Valid() && State() == BeginSpec(old(State()))
    {
      if !inTransaction {
        inTransaction := true;
      }
    }

    method Commit()
      requires Valid()
      modifies this
      ensures Valid() && State() == CommitSpec(old(State()))
    {
      if inTransaction {
        committed := store;
        inTransaction := false;
      }
    }

    method Rollback()
      requires Valid()
      modifies this
      ensures Valid() && State() == RollbackSpec(old(State()))
    {
      if inTransaction {
        store := committed;
        inTransaction := false;
      }
    }

    /**
     * close(): commit what is still pending and close the connection.
     * `durable` is the table a later connection to the same file reads.
     */
    method Close() returns (durable: T.Table<K, V>)
      requires Valid()
      modifies this
      ensures Valid() && !inTransaction
      ensures durable == CloseSpec(old(State())) && store == durable && committed == durable
    {
      Commit();
      durable := committed;
    }

    /** Stepping a writing statement: outside a transaction SQLite commits it at once. */
    method Execute(t: T.Table<K, V>)
      requires Valid() && T.Valid(t)
      modifies this
      ensures Valid() && store == t && inTransaction == old(inTransaction)
      ensures committed == if inTransaction then old(committed) else t
    {
      store := t;
      if !inTransaction {
        committed := t;
      }
    }

    // -------------------------------------------------------------------
    // Reads

    /** try_get: the value stored under `k`, none when the key is absent. */
    function TryGet(k: K): (r: Option<V>)
      reads this
      ensures r.Some? <==> k in store.entries
      ensures r.Some? ==> r.value == store.entries[k]
    {
      T.Lookup(store, k)
    }

    /** get: the stored value, or sqlitemap_error naming the missing key. */
    function Get(k: K): (r: Result<V, Error>)
      reads this
      ensures r.Success? <==> TryGet(k).Some?
      ensures r.Success? ==> r.value == store.entries[k]
      ensures r.Failure? ==> r.error == SqlitemapError(NotFoundMessage(describe(k)))
    {
      match TryGet(k)
      case Some(v) => Success(v)
      case None => Failure(SqlitemapError(NotFoundMessage(describe(k))))
    }

    /** count: SELECT EXISTS(...), so 0 or 1. */
    function Count(k: K): (n: nat)
      reads this
      ensures n <= 1
      ensures n == 1 <==> k in store.entries
    {
      if k in store.entries then 1 else 0
    }

    function Contains(k: K): (b: bool)
      reads this
      ensures b <==> TryGet(k).Some?
    {
      Count(k) == 1
    }

    /** size: SELECT COUNT(*), the number of rows iteration visits. */
    function Size(): (n: nat)
      requires Valid()
      reads this
      ensures n == |T.Rows(store)|
    {
      T.OrderLength(store);
      |store.entries|
    }

    function Empty(): (b: bool)
      requires Valid()
      reads this
      ensures b <==> store.entries == map[]
      ensures b <==> T.Rows(store) == []
    {
      Size() == 0
    }

    /** find: an iterator over the one row for `k`, or end. */
    method Find(k: K) returns (it: It.MapIterator<(K, V)>)
      ensures fresh(it) && FindsKey(it, store, k)
    {
      var value := TryGet(k);
      if value.Some? {
        it := It.MapIterator.FromRow((k, value.value));
      } else {
        it := new It.MapIterator.End();
      }
    }

    /** equal_range: two copies of the find iterator, sharing its lazy result. */
    method EqualRange(k: K) returns (first: It.MapIterator<(K, V)>, second: It.MapIterator<(K, V)>)
      ensures fresh(first) && fresh(second) && FindsKey(first, store, k)
      ensures second.Valid() && first.Equals(second)
      ensures second.result == first.result && second.index == first.index && second.isEnd == first.isEnd
    {
      first := Find(k);
      second := new It.MapIterator.CopyOf(first);
    }

    /** begin(): an iterator over SELECT key, value, on its first row. */
    method Begin() returns (it: It.MapIterator<(K, V)>)
      requires Valid()
      ensures fresh(it) && fresh(it.result) && it.Valid() && it.result != null
      ensures it.result.rows == T.Rows(store) && it.result.finish == LR.Done
      ensures it.Position() == It.AdvanceSpec(It.FRESH, |T.Rows(store)|, LR.Done).0
    {
      var q := It.MapIterator.FromQuery(T.Rows(store), LR.Done);
      It.BeginOfQuery(|T.Rows(store)|);
      it := q.value;
    }

    /** keys_begin(): an iterator over SELECT key. */
    method KeysBegin() returns (it: It.MapIterator<K>)
      requires Valid()
      ensures fresh(it) && fresh(it.result) && it.Valid() && it.result != null
      ensures it.result.rows == T.Keys(store) && it.result.finish == LR.Done
      ensures it.Position() == It.AdvanceSpec(It.FRESH, |T.Keys(store)|, LR.Done).0
    {
      var q := It.MapIterator.FromQuery(T.Keys(store), LR.Done);
      It.BeginOfQuery(|T.Keys(store)|);
      it := q.value;
    }

    /** values_begin(): an iterator over SELECT value. */
    method ValuesBegin() returns (it: It.MapIterator<V>)
      requires Valid()
      ensures fresh(it) && fresh(it.result) && it.Valid() && it.result != null
      ensures it.result.rows == T.Values(store) && it.result.finish == LR.Done
      ensures it.Position() == It.AdvanceSpec(It.FRESH, |T.Values(store)|, LR.Done).0
    {
      var q := It.MapIterator.FromQuery(T.Values(store), LR.Done);
      It.BeginOfQuery(|T.Values(store)|);
      it := q.value;
    }

    // -------------------------------------------------------------------
    // Writes

    /** set: REPLACE the row for `k`, opening a transaction first unless auto-commit is on. */
    method Set(k: K, v: V) returns (o: Outcome<Error>)
      requires Valid()
      modifies this
      ensures Valid()
      ensures mode.R? ==> o == Fail(SqlitemapError(WRITE_REFUSED)) && State() == old(State())
      ensures !mode.R? ==> o.Pass? && State() == WriteSpec(old(State()), autoCommit, T.Put(old(store), k, v))
      ensures !mode.R? ==> TryGet(k) == Some(v) && forall x :: x != k ==> TryGet(x) == old(TryGet(x))
      ensures !mode.R? ==> Size() == old(Size()) + (if old(Contains(k)) then 0 else 1)
    {
      if mode.R? {
        return Fail(SqlitemapError(WRITE_REFUSED));
      }
      T.PutSize(store, k, v);
      T.OrderLength(store);
      T.OrderLength(T.Put(store, k, v));
      if !autoCommit {
        BeginTransaction();
      }
      Execute(T.Put(store, k, v));
      return Pass;
    }

    /** del: DELETE the row for `k`, opening a transaction first unless auto-commit is on. */
    method Del(k: K) returns (o: Outcome<Error>)
      requires Valid()
      modifies this
      ensures Valid()
      ensures mode.R? ==> o == Fail(SqlitemapError(DELETE_REFUSED)) && State() == old(State())
      ensures !mode.R? ==> o.Pass? && State() == WriteSpec(old(State()), autoCommit, T.Delete(old(store), k))
      ensures !mode.R? ==> TryGet(k).None? && forall x :: x != k ==> TryGet(x) == old(TryGet(x))
    {
      if mode.R? {
        return Fail(SqlitemapError(DELETE_REFUSED));
      }
      if !autoCommit {
        BeginTransaction();
      }
      Execute(T.Delete(store, k));
      return Pass;
    }

    /** insert(kv): store the pair unless the key is present; report whether it was stored. */
    method Insert(kv: (K, V)) returns (r: Result<(It.MapIterator<(K, V)>, bool), Error>)
      requires Valid()
      modifies this
      ensures Valid()
      ensures mode.R? ==> r == Failure(SqlitemapError(INSERT_REFUSED)) && State() == old(State())
      ensures !mode.R? ==> r.Success? && (r.value.1 <==> kv.0 !in old(store).entries)
      ensures !mode.R? ==> State() == InsertSpec(old(State()), autoCommit, kv)
      ensures !mode.R? ==> fresh(r.value.0) && FindsKey(r.value.0, store, kv.0)
    {
      if mode.R? {
        return Failure(SqlitemapError(INSERT_REFUSED));
      }
      var mapped := TryGet(kv.0);
      if mapped.Some? {
        var it := Find(kv.0);
        return Success((it, false));
      }
      var o := Set(kv.0, kv.1);
      var it := Find(kv.0);
      return Success((it, true));
    }

    /**
     * insert(node): an empty node gives (end, false, the node); otherwise the
     * pair is inserted, and the node is emptied exactly when it was stored.
     */
    method InsertNode(node: Node<K, V>) returns (r: Result<InsertReturn<K, V>, Error>)
      requires Valid()
      modifies this
      ensures Valid()
      ensures mode.R? ==> r == Failure(SqlitemapError(INSERT_REFUSED)) && State() == old(State())
      ensures !mode.R? && node.EmptyNode? ==>
        r.Success? && r.value.position.Valid() && r.value.position.isEnd && !r.value.inserted
        && r.value.node == EmptyNode && State() == old(State())
      ensures !mode.R? && node.Holds? ==>
        r.Success? && (r.value.inserted <==> node.key !in old(store).entries)
        && r.value.node == (if r.value.inserted then EmptyNode else node)
        && State() == InsertSpec(old(State()), autoCommit, (node.key, node.mapped))
        && FindsKey(r.value.position, store, node.key)
    {
      if mode.R? {
        return Failure(SqlitemapError(INSERT_REFUSED));
      }
      if node.EmptyNode? {
        var endIt := new It.MapIterator.End();
        return Success(InsertReturn(endIt, false, node));
      }
      var result := Insert((node.key, node.mapped));
      var (position, inserted) := result.value;
      return Success(InsertReturn(position, inserted, if inserted then EmptyNode else node));
    }

    /** insert(first, last): each pair whose key is not yet present is set, in order. */
    method InsertRange(kvs: seq<(K, V)>) returns (o: Outcome<Error>)
      requires Valid()
      modifies this
      ensures Valid()
      ensures mode.R? ==> o == Fail(SqlitemapError(INSERT_REFUSED)) && State() == old(State())
      ensures !mode.R? ==> o.Pass? && State() == InsertAllSpec(old(State()), autoCommit, kvs)
    {
      if mode.R? {
        return Fail(SqlitemapError(INSERT_REFUSED));
      }
      for i := 0 to |kvs|
        invariant Valid()
        invariant State() == InsertAllSpec(old(State()), autoCommit, kvs[..i])
      {
        assert kvs[..i + 1][..i] == kvs[..i];
        if !Contains(kvs[i].0) {
          var written := Set(kvs[i].0, kvs[i].1);
        }
      }
      assert kvs[..|kvs|] == kvs;
      return Pass;
    }

    /** emplace: insert, behind the write refusal. */
    method Emplace(k: K, v: V) returns (r: Result<(It.MapIterator<(K, V)>, bool), Error>)
      requires Valid()
      modifies this
      ensures Valid()
      ensures mode.R? ==> r == Failure(SqlitemapError(WRITE_REFUSED)) && State() == old(State())
      ensures !mode.R? ==> r.Success? && (r.value.1 <==> k !in old(store).entries)
      ensures !mode.R? ==> State() == InsertSpec(old(State()), autoCommit, (k, v))
      ensures !mode.R? ==> fresh(r.value.0) && FindsKey(r.value.0, store, k)
    {
      if mode.R? {
        return Failure(SqlitemapError(WRITE_REFUSED));
      }
      r := Insert((k, v));
    }

    /** emplace_hint: the hint is ignored; the iterator of emplace. */
    method EmplaceHint(hint: It.MapIterator<(K, V)>, k: K, v: V) returns (r: Result<It.MapIterator<(K, V)>, Error>)
      requires Valid()
      modifies this
      ensures Valid()
      ensures mode.R? ==> r == Failure(SqlitemapError(WRITE_REFUSED)) && State() == old(State())
      ensures !mode.R? ==> r.Success? && State() == InsertSpec(old(State()), autoCommit, (k, v))
      ensures !mode.R? ==> fresh(r.value) && FindsKey(r.value, store, k)
    {
      if mode.R? {
        return Failure(SqlitemapError(WRITE_REFUSED));
      }
      var result := Emplace(k, v);
      return Success(result.value.0);
    }

    /** try_emplace: a present key is left alone; otherwise emplace. */
    method TryEmplace(k: K, v: V) returns (r: Result<(It.MapIterator<(K, V)>, bool), Error>)
      requires Valid()
      modifies this
      ensures Valid()
      ensures mode.R? ==> r == Failure(SqlitemapError(WRITE_REFUSED)) && State() == old(State())
      ensures !mode.R? ==> r.Success? && (r.value.1 <==> k !in old(store).entries)
      ensures !mode.R? ==> State() == InsertSpec(old(State()), autoCommit, (k, v))
      ensures !mode.R? ==> fresh(r.value.0) && FindsKey(r.value.0, store, k)
    {
      if mode.R? {
        return Failure(SqlitemapError(WRITE_REFUSED));
      }
      if Contains(k) {
        var it := Find(k);
        return Success((it, false));
      }
      r := Emplace(k, v);
    }

    /** try_emplace(hint, k, v): the hint is ignored. */
    method TryEmplaceHint(hint: It.MapIterator<(K, V)>, k: K, v: V) returns (r: Result<It.MapIterator<(K, V)>, Error>)
      requires Valid()
      modifies this
      ensures Valid()
      ensures mode.R? ==> r == Failure(SqlitemapError(WRITE_REFUSED)) && State() == old(State())
      ensures !mode.R? ==> r.Success? && State() == InsertSpec(old(State()), autoCommit, (k, v))
      ensures !mode.R? ==> fresh(r.value) && FindsKey(r.value, store, k)
    {
      if mode.R? {
        return Failure(SqlitemapError(WRITE_REFUSED));
      }
      if Contains(k) {
        var it := Find(k);
        return Success(it);
      }
      r := EmplaceHint(hint, k, v);
    }

    /** insert_or_assign: the new value is always stored; `true` iff the key was absent. */
    method InsertOrAssign(k: K, v: V) returns (r: Result<(It.MapIterator<(K, V)>, bool), Error>)
      requires Valid()
      modifies this
      ensures Valid()
      ensures mode.R? ==> r == Failure(SqlitemapError(WRITE_REFUSED)) && State() == old(State())
      ensures !mode.R? ==> r.Success? && (r.value.1 <==> k !in old(store).entries)
      ensures !mode.R? ==> State() == WriteSpec(old(State()), autoCommit, T.Put(old(store), k, v))
      ensures !mode.R? ==> TryGet(k) == Some(v) && fresh(r.value.0) && FindsKey(r.value.0, store, k)
    {
      if mode.R? {
        return Failure(SqlitemapError(WRITE_REFUSED));
      }
      var result := TryEmplace(k, v);
      if result.value.1 {
        return result;
      }
      var o := Set(k, v);
      var it := Find(k);
      return Success((it, false));
    }

    /** operator[] then assignment leaves the same state as one set. */
    lemma IndexThenAssign(db: Db<K, V>, k: K, v: V)
      requires DbValid(db) && k !in db.store.entries
      ensures WriteSpec(WriteSpec(db, autoCommit, T.Put(db.store, k, defaultValue)), autoCommit,
                        T.Put(T.Put(db.store, k, defaultValue), k, v))
           == WriteSpec(db, autoCommit, T.Put(db.store, k, v))
    {
      T.PutPut(db.store, k, defaultValue, v);
      WriteTwice(db, autoCommit, T.Put(db.store, k, defaultValue), T.Put(db.store, k, v));
    }

    /** at: a reference to the stored value, or get's error. */
    method At(k: K) returns (r: Result<ValueRef<K, V>, Error>)
      ensures r.Success? <==> k in store.entries
      ensures r.Success? ==> fresh(r.value) && r.value.owner == this && r.value.key == k && r.value.val == store.entries[k]
      ensures r.Failure? ==> r.error == SqlitemapError(NotFoundMessage(describe(k)))
    {
      var value := Get(k);
      if value.Failure? {
        return Failure(value.error);
      }
      var ref := new ValueRef(this, k, value.value);
      return Success(ref);
    }

    /** operator[]: at(k), or when that fails, set the default value and refer to it. */
    method Index(k: K) returns (r: Result<ValueRef<K, V>, Error>)
      requires Valid()
      modifies this
      ensures Valid()
      ensures r.Success? ==> fresh(r.value) && r.value.owner == this && r.value.key == k
      ensures k in old(store).entries ==> r.Success? && r.value.val == old(store).entries[k] && State() == old(State())
      ensures k !in old(store).entries && mode.R? ==>
        r == Failure(SqlitemapError(WRITE_REFUSED)) && State() == old(State())
      ensures k !in old(store).entries && !mode.R? ==>
        r.Success? && r.value.val == defaultValue
        && State() == WriteSpec(old(State()), autoCommit, T.Put(old(store), k, defaultValue))
    {
      var found := At(k);
      if found.Success? {
        return found;
      }
      var o := Set(k, defaultValue);
      if o.Fail? {
        return Failure(o.error);
      }
      var ref := new ValueRef(this, k, defaultValue);
      return Success(ref);
    }

    // -------------------------------------------------------------------
    // Removal

    /** clear: commit, DELETE every row (committed at once), commit. */
    method Clear() returns (o: Outcome<Error>)
      requires Valid()
      modifies this
      ensures Valid()
      ensures mode.R? ==> o == Fail(SqlitemapError(CLEAR_REFUSED)) && State() == old(State())
      ensures !mode.R? ==> o.Pass? && State() == Db(T.Empty(), T.Empty(), false)
    {
      if mode.R? {
        return Fail(SqlitemapError(CLEAR_REFUSED));
      }
      Commit();
      Execute(T.Empty());
      Commit();
      return Pass;
    }

    /** erase(k): 1 and the row deleted when the key was present, else 0. */
    method Erase(k: K) returns (r: Result<nat, Error>)
      requires Valid()
      modifies this
      ensures Valid()
      ensures mode.R? ==> r == Failure(SqlitemapError(ERASE_REFUSED)) && State() == old(State())
      ensures !mode.R? ==> r == Success(if k in old(store).entries then 1 else 0)
      ensures !mode.R? ==> State() == EraseSpec(old(State()), autoCommit, k)
    {
      if mode.R? {
        return Failure(SqlitemapError(ERASE_REFUSED));
      }
      if !Contains(k) {
        return Success(0);
      }
      var o := Del(k);
      return Success(1);
    }

    /**
     * erase_if: walk an iterator from begin() to end() and erase the key of
     * every row the predicate accepts, counting what erase reports. The
     * iteration reads the rows as they were at begin().
     */
    method EraseIf(pred: ((K, V)) -> bool) returns (r: Result<nat, Error>)
      requires Valid()
      modifies this
      ensures Valid()
      ensures mode.R? ==> r == Failure(SqlitemapError(ERASE_REFUSED)) && State() == old(State())
      ensures !mode.R? ==> r.Success? && (State(), r.value) == EraseIfSpec(old(State()), autoCommit, T.Rows(old(store)), pred)
      ensures !mode.R? ==> forall k :: k in store.entries <==> k in old(store).entries && !pred((k, old(store).entries[k]))
      ensures !mode.R? ==> T.Size(old(store)) == T.Size(store) + r.value
    {
      if mode.R? {
        return Failure(SqlitemapError(ERASE_REFUSED));
      }
      ghost var start := State();
      ghost var rows := T.Rows(store);
      var it := Begin();
      It.BeginOfQuery(|rows|);
      var count := EraseIfWalk(it, pred, rows);
      EraseIfOverTable(start, autoCommit, pred);
      return Success(count);
    }

    /** erase_if's loop, from an iterator on the first of `rows` to end(). */
    method EraseIfWalk(it: It.MapIterator<(K, V)>, pred: ((K, V)) -> bool, ghost rows: seq<(K, V)>) returns (count: nat)
      requires Valid() && !mode.R? && Walking(it, rows, 0)
      modifies this, it, it.result
      ensures Valid() && (State(), count) == EraseIfSpec(old(State()), autoCommit, rows, pred)
    {
      ghost var start := State();
      var last := new It.MapIterator.End();
      count := 0;
      ghost var i := 0;
      while !it.Equals(last)
        invariant Valid() && last.isEnd && it.result == old(it.result)
        invariant Walking(it, rows, i)
        invariant (State(), count) == EraseIfSpec(start, autoCommit, rows[..i], pred)
        decreases |rows| - i
      {
        EraseIfSpecStep(start, autoCommit, rows, i, pred);
        count := EraseIfRow(it, pred, count, rows, i);
        i := i + 1;
      }
      assert rows[..i] == rows;
    }

    /**
     * One round of erase_if's loop: read the row under the iterator, erase its
     * key if the predicate accepts it, and step the iterator.
     */
    method EraseIfRow(it: It.MapIterator<(K, V)>, pred: ((K, V)) -> bool, count: nat, ghost rows: seq<(K, V)>, ghost i: nat)
      returns (newCount: nat)
      requires Valid() && !mode.R?
      requires Walking(it, rows, i) && i < |rows|
      modifies this, it, it.result
      ensures Valid() && it.result == old(it.result) && Walking(it, rows, i + 1)
      ensures (State(), newCount) == EraseIfStep((old(State()), count), autoCommit, rows[i], pred)
    {
      ghost var before := State();
      var row := ReadWalking(it, rows, i);
      newCount := count;
      if pred(row) {
        var erased := Erase(row.0);
        newCount := count + erased.value;
      }
      assert (State(), newCount) == EraseIfStep((before, count), autoCommit, row, pred);
      StepWalking(it, rows, i);
    }

    /** extract(k): remove the row and hand it back as a node, or an empty node. */
    method Extract(k: K) returns (r: Result<Node<K, V>, Error>)
      requires Valid()
      modifies this
      ensures Valid()
      ensures mode.R? ==> r == Failure(SqlitemapError(EXTRACT_REFUSED)) && State() == old(State())
      ensures !mode.R? && k in old(store).entries ==>
        r == Success(Holds(k, old(store).entries[k])) && State() == EraseSpec(old(State()), autoCommit, k)
      ensures !mode.R? && k !in old(store).entries ==> r == Success(EmptyNode) && State() == old(State())
    {
      if mode.R? {
        return Failure(SqlitemapError(EXTRACT_REFUSED));
      }
      var value := TryGet(k);
      if value.Some? {
        var o := Del(k);
        return Success(Holds(k, value.value));
      }
      return Success(EmptyNode);
    }

    /** extract(position): an empty node at end; otherwise extract the key the iterator points at. */
    method ExtractAt(position: It.MapIterator<(K, V)>) returns (r: Result<Node<K, V>, Error>)
      requires Valid() && position.Valid() && (position.isEnd || position.index.Some?)
      modifies this, position.result
      ensures Valid() && position.Valid()
      ensures mode.R? ==> r == Failure(SqlitemapError(EXTRACT_REFUSED)) && State() == old(State())
      ensures !mode.R? && position.isEnd ==> r == Success(EmptyNode) && State() == old(State())
      ensures !mode.R? && !position.isEnd ==>
        var (cache, o) := LR.LoadCache(old(position.result.State()), position.index.value,
                                       |position.result.rows|, position.result.finish);
        position.result.State() == cache
        && (o.Fail? ==> r == Failure(o.error) && State() == old(State()))
        && (o.Pass? ==>
              var k := position.result.rows[position.index.value].0;
              State() == EraseSpec(old(State()), autoCommit, k)
              && r == Success(if k in old(store).entries then Holds(k, old(store).entries[k]) else EmptyNode))
    {
      if mode.R? {
        return Failure(SqlitemapError(EXTRACT_REFUSED));
      }
      var endIt := new It.MapIterator.End();
      if position.Equals(endIt) {
        return Success(EmptyNode);
      }
      var row := position.Deref();
      if row.Failure? {
        return Failure(row.error);
      }
      r := Extract(row.value.0);
    }

    /** terminate: refused in mode r; closing and deleting the file are outside this model. */
    method Terminate() returns (o: Outcome<Error>)
      ensures o.Fail? <==> mode.R?
      ensures o.Fail? ==> o.error == SqlitemapError(TERMINATE_REFUSED)
    {
      if mode.R? {
        return Fail(SqlitemapError(TERMINATE_REFUSED));
      }
      return Pass;
    }
  }

  /**
   * value_ref: what at and operator[] return. Assigning through it sets the
   * value in the map and then updates the cached copy.
   */
  class ValueRef<K(==, !new), V> {
    const owner: SqliteMap<K, V>
    const key: K
    var val: V

    constructor (owner: SqliteMap<K, V>, key: K, value: V)
      ensures this.owner == owner && this.key == key && val == value
    {
      this.owner := owner;
      this.key := key;
      val := value;
    }

    /** operator=(value): set, then remember the value; a refused set leaves both as they were. */
    method Assign(v: V) returns (o: Outcome<Error>)
      requires owner.Valid()
      modifies this, owner
      ensures owner.Valid()
      ensures owner.mode.R? ==> o == Fail(SqlitemapError(WRITE_REFUSED)) && val == old(val) && owner.State() == old(owner.State())
      ensures !owner.mode.R? ==>
        o.Pass? && val == v
        && owner.State() == WriteSpec(old(owner.State()), owner.autoCommit, T.Put(old(owner.store), key, v))
    {
      o := owner.Set(key, v);
      if o.Pass? {
        val := v;
      }
    }
  }
}
