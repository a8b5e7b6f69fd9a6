/**
 * lazy_result: the rows of one prepared SELECT statement, stepped on demand
 * and cached, shared by every iterator copied from the same begin().
 *
 * The statement is given by what sqlite3_step would yield: the decoded
 * `rows`, in order, followed by a final step that either reports
 * SQLITE_DONE or fails with an error message. An error in the middle of a
 * result is a statement whose `rows` are the ones before the error.
 */
module LazyResult {
  import opened Wrappers
  import opened Errors

  /** What the step after the last row reports. */
  datatype Finish = Done | Failed(errmsg: string)

  const ITERATION_ERROR: string := "Error during SQLite iteration: "
  const MAX_ROWS_ERROR: string := "Tried to iterate over max num of rows"

  /** The exception eval_next raises when the final step fails. */
  function StepError(finish: Finish): (o: Outcome<Error>)
    ensures o.Pass? <==> finish.Done?
    ensures finish.Failed? ==> o.error == SqlitemapError(ITERATION_ERROR + finish.errmsg)
  {
    match finish
    case Done => Pass
    case Failed(m) => Fail(SqlitemapError(ITERATION_ERROR + m))
  }

  /** The observable state of a lazy result: how many rows are cached, and whether the statement is finalized. */
  datatype Cache = Cache(cached: nat, completed: bool)

  /**
   * cache_next on a live statement of `total` rows: the next row is cached, or
   * the final step finalizes the statement and, if it failed, raises its error.
   */
  function StepCache(c: Cache, total: nat, finish: Finish): (r: (Cache, Outcome<Error>))
    requires !c.completed && c.cached <= total
    ensures r.0.cached <= total && c.cached <= r.0.cached
    ensures r.0.completed <==> c.cached == total
    ensures !r.0.completed ==> r.0.cached == c.cached + 1
    ensures r.1.Fail? <==> c.cached == total && finish.Failed?
  {
    if c.cached < total then (Cache(c.cached + 1, false), Pass)
    else (Cache(c.cached, true), StepError(finish))
  }

  /**
   * load_data(index) followed by the read of operator[]: a finalized result
   * answers from the cache or raises range_error; a live one steps until
   * index + 1 rows are cached plus one row of look-ahead, or until the
   * statement ends.
   */
  function LoadCache(c: Cache, index: nat, total: nat, finish: Finish): (r: (Cache, Outcome<Error>))
    requires c.cached <= total
    requires !c.completed ==> index < total || finish.Failed?
    ensures r.0.cached <= total && c.cached <= r.0.cached
    ensures c.completed ==> r.0 == c
    ensures c.completed ==> (r.1.Pass? <==> index < c.cached)
    ensures !c.completed ==> (r.0.completed <==> index + 2 > total && c.cached <= index + 1)
    ensures r.1.Pass? ==> index < r.0.cached
    ensures c.completed && index >= c.cached ==> r.1 == Fail(RangeError(MAX_ROWS_ERROR))
    ensures !c.completed && index + 2 <= total ==> r == (Cache(if c.cached < index + 2 then index + 2 else c.cached, false), Pass)
    ensures !c.completed && index + 2 > total && c.cached <= index + 1 ==> r == (Cache(total, true), StepError(finish))
  {
    if c.completed then
      if index < c.cached then (c, Pass) else (c, Fail(RangeError(MAX_ROWS_ERROR)))
    else
      var target := if c.cached < index + 2 then index + 2 else c.cached;
      if target <= total then (Cache(target, false), Pass)
      else (Cache(total, true), StepError(finish))
  }

  /** Reading the same index again answers from the cache and steps no further. */
  lemma LoadCacheIdempotent(c: Cache, index: nat, total: nat, finish: Finish)
    requires c.cached <= total
    requires !c.completed ==> index < total || finish.Failed?
    requires LoadCache(c, index, total, finish).1.Pass?
    ensures LoadCache(LoadCache(c, index, total, finish).0, index, total, finish) == LoadCache(c, index, total, finish)
  {
  }

  /** On a statement that ends without error, reading a row that exists never fails. */
  lemma LoadCacheDone(c: Cache, index: nat, total: nat)
    requires c.cached <= total && index < total
    requires c.completed ==> index < c.cached
    ensures LoadCache(c, index, total, Done).1 == Pass
  {
  }

  class LazyResult<Row> {
    /** The rows sqlite3_step would yield, in order. */
    const rows: seq<Row>
    /** The result of the step after the last row. */
    const finish: Finish
    /** _data: the rows evaluated so far. */
    var data: seq<Row>
    /** _num_rows */
    var numRows: nat
    /** _stmt_completed: the statement is finalized (or there never was one). */
    var completed: bool

    /** The cache is a prefix of the statement's rows, complete once the statement is finalized. */
    ghost predicate Valid()
      reads this
    {
      numRows == |data| && data <= rows && (completed ==> data == rows)
    }

    function State(): Cache
      reads this
    {
      Cache(|data|, completed)
    }

    /** lazy_result(db, query, config): a prepared, not yet stepped statement. */
    constructor FromQuery(rows: seq<Row>, finish: Finish)
      ensures Valid() && this.rows == rows && this.finish == finish
      ensures data == [] && !completed
    {
      this.rows := rows;
      this.finish := finish;
      data := [];
      numRows := 0;
      completed := false;
    }

    /** lazy_result(row, config): a single cached row and no statement. */
    constructor FromRow(row: Row)
      ensures Valid() && rows == [row] && finish == Done
      ensures data == [row] && completed
    {
      rows := [row];
      finish := Done;
      data := [row];
      numRows := 1;
      completed := true;
    }

    /**
     * cache_next (also the public advance()): one sqlite3_step. Stepping a
     * finalized statement is undefined, so the statement must be live.
     */
    method CacheNext() returns (o: Outcome<Error>)
      requires Valid() && !completed
      modifies this
      ensures Valid()
      ensures (State(), o) == StepCache(old(State()), |rows|, finish)
    {
      if |data| < |rows| {
        data := data + [rows[|data|]];
        numRows := numRows + 1;
        o := Pass;
      } else {
        completed := true;
        o := StepError(finish);
      }
    }

    /**
     * operator[](index) with its load_data. Stepping past the final SQLITE_DONE
     * and reading past the cache are undefined, so a live statement that ends
     * without error must have more than `index` rows.
     */
    method Get(index: nat) returns (r: Result<Row, Error>)
      requires Valid()
      requires completed || index < |rows| || finish.Failed?
      modifies this
      ensures Valid()
      ensures (State(), if r.Success? then Pass else Fail(r.error)) == LoadCache(old(State()), index, |rows|, finish)
      ensures r.Success? ==> index < |rows| && r.value == rows[index]
    {
      if completed && index < |data| {
        return Success(data[index]);
      }
      if completed && index >= numRows {
        return Failure(RangeError(MAX_ROWS_ERROR));
      }
      ghost var d0 := |data|;
      ghost var target := if d0 < index + 2 then index + 2 else d0;
      var i := |data|;
      while i <= index || (!completed && i == index + 1)
        invariant Valid()
        invariant d0 <= |data| <= target
        invariant !completed ==> i == |data|
        invariant completed ==> finish.Done? && |data| == |rows| && i == |rows| + 1 && target > |rows|
        decreases index + 2 - i
      {
        var o := CacheNext();
        if o.Fail? {
          return Failure(o.error);
        }
        i := i + 1;
      }
      return Success(data[index]);
    }
  }
}
