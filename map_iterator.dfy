/**
 * sqlitemap_iterator (and the const_sqlitemap_iterator wrapping it): an
 * input iterator holding an optional current index, a shared reference to a
 * lazy result and an end flag. Copies share the lazy result, so stepping one
 * copy caches rows for all of them.
 */
module MapIterator {
  import opened Wrappers
  import opened Errors
  import opened LazyResult

  const PAST_END_ERROR: string := "Incrementing the iterator past the end is not allowed."

  /** The observable state of an iterator: its own index and end flag and the state of the shared cache. */
  datatype Cursor = Cursor(index: Option<nat>, isEnd: bool, cache: Cache)

  /** The state every iterator over a statement of `total` rows stays in. */
  predicate WellFormed(c: Cursor, total: nat) {
    c.cache.cached <= total
    && (c.cache.completed ==> c.cache.cached == total)
    && (c.index.Some? ==> c.index.value < c.cache.cached)
  }

  /**
   * check_for_end: the end flag is sticky; a finalized result ends an iterator
   * when it is empty or the iterator's index is at (or past) its last row. An
   * unset index is never at the last row.
   */
  predicate EndReached(c: Cursor)
    ensures c.isEnd ==> EndReached(c)
    ensures !c.cache.completed ==> (EndReached(c) <==> c.isEnd)
    ensures c.cache.completed && c.cache.cached == 0 ==> EndReached(c)
    ensures c.cache.completed && c.index.Some? && c.index.value + 1 >= c.cache.cached ==> EndReached(c)
  {
    c.isEnd
    || (c.cache.completed && (c.cache.cached == 0 || (c.index.Some? && c.index.value >= c.cache.cached - 1)))
  }

  /** The index after one step: the first row, or the next one. */
  function NextIndex(i: Option<nat>): nat {
    match i
    case None => 0
    case Some(k) => k + 1
  }

  /**
   * advance(): unless already at the end, step the shared statement (when it
   * is still live), then either move to the next index or become end.
   */
  function AdvanceSpec(c: Cursor, total: nat, finish: Finish): (r: (Cursor, Outcome<Error>))
    requires WellFormed(c, total)
    ensures WellFormed(r.0, total)
    ensures c.cache.cached <= r.0.cache.cached && (c.cache.completed ==> r.0.cache.completed)
    ensures c.isEnd ==> r == (c, Pass)
    ensures r.1.Fail? ==> finish.Failed? && r.0.index == c.index && !r.0.isEnd
    ensures r.1.Fail? ==> r.1 == StepError(finish)
    ensures !c.isEnd && r.1.Pass? ==> (r.0.isEnd <==> NextIndex(c.index) >= total)
    ensures !c.isEnd && r.1.Pass? && !r.0.isEnd ==> r.0.index == Some(NextIndex(c.index))
  {
    if EndReached(c) then (c.(isEnd := true), Pass)
    else
      var (cache, o) := if c.cache.completed then (c.cache, Pass) else StepCache(c.cache, total, finish);
      var c1 := c.(cache := cache);
      if o.Fail? then (c1, o)
      else if EndReached(c1) then (c1.(isEnd := true, index := None), Pass)
      else (c1.(index := Some(NextIndex(c.index))), Pass)
  }

  /** operator++: an end iterator refuses to move. */
  function IncrementSpec(c: Cursor, total: nat, finish: Finish): (r: (Cursor, Outcome<Error>))
    requires WellFormed(c, total)
    ensures WellFormed(r.0, total)
    ensures c.cache.cached <= r.0.cache.cached && (c.cache.completed ==> r.0.cache.completed)
    ensures c.isEnd ==> r == (c, Fail(OutOfRange(PAST_END_ERROR)))
  {
    if c.isEnd then (c, Fail(OutOfRange(PAST_END_ERROR))) else AdvanceSpec(c, total, finish)
  }

  /** `n` increments in a row, stopping at the first exception. */
  function Increments(c: Cursor, n: nat, total: nat, finish: Finish): (r: (Cursor, Outcome<Error>))
    requires WellFormed(c, total)
    ensures WellFormed(r.0, total)
    ensures c.cache.cached <= r.0.cache.cached
  {
    if n == 0 then (c, Pass)
    else
      var (c1, o) := Increments(c, n - 1, total, finish);
      if o.Fail? then (c1, o) else IncrementSpec(c1, total, finish)
  }

  /** An exception ends a run of increments: later increments are never attempted. */
  lemma {:induction false} IncrementsStopAtFailure(c: Cursor, m: nat, n: nat, total: nat, finish: Finish)
    requires WellFormed(c, total) && m <= n && Increments(c, m, total, finish).1.Fail?
    ensures Increments(c, n, total, finish) == Increments(c, m, total, finish)
    decreases n
  {
    if n > m {
      IncrementsStopAtFailure(c, m, n - 1, total, finish);
    }
  }

  /** The iterator state right after a query is prepared, before the constructor's advance(). */
  const FRESH: Cursor := Cursor(None, false, Cache(0, false))

  // ---------------------------------------------------------------------
  // Traversal

  /**
   * begin() over a statement that ends without error: the first row, or end
   * for an empty result.
   */
  lemma BeginOfQuery(total: nat)
    ensures AdvanceSpec(FRESH, total, Done).1 == Pass
    ensures total == 0 ==> AdvanceSpec(FRESH, total, Done).0.isEnd
    ensures total > 0 ==> !AdvanceSpec(FRESH, total, Done).0.isEnd && AdvanceSpec(FRESH, total, Done).0.index == Some(0)
  {
  }

  /**
   * From a live iterator at row `j` of a statement that ends without error,
   * `n` increments reach row j + n while it exists, end exactly when
   * j + n == total, and out_of_range beyond.
   */
  lemma {:induction false} IncrementsFrom(c: Cursor, j: nat, n: nat, total: nat)
    requires WellFormed(c, total) && !c.isEnd && c.index == Some(j)
    ensures j + n < total ==>
      Increments(c, n, total, Done).1.Pass? && !Increments(c, n, total, Done).0.isEnd
      && Increments(c, n, total, Done).0.index == Some(j + n)
    ensures j + n == total ==> Increments(c, n, total, Done).1.Pass? && Increments(c, n, total, Done).0.isEnd
    ensures j + n > total ==> Increments(c, n, total, Done).1 == Fail(OutOfRange(PAST_END_ERROR))
  {
    if n > 0 {
      IncrementsFrom(c, j, n - 1, total);
    }
  }

  /** One increment of a live iterator on a statement that ends without error. */
  lemma StepDone(c: Cursor, j: nat, total: nat)
    requires WellFormed(c, total) && !c.isEnd && c.index == Some(j)
    ensures IncrementSpec(c, total, Done).1 == Pass
    ensures IncrementSpec(c, total, Done).0.isEnd <==> j + 1 >= total
    ensures !IncrementSpec(c, total, Done).0.isEnd ==> IncrementSpec(c, total, Done).0.index == Some(j + 1)
  {
  }

  /** The iterator state of a sequential traversal at row j: one row cached past every earlier step. */
  function AtRow(j: nat): Cursor {
    Cursor(Some(j), false, Cache(j + 1, false))
  }

  /**
   * A traversal of a failing statement never ends silently: it visits every
   * row that came before the error and then raises the error.
   */
  lemma {:induction false} FailingTraversal(j: nat, n: nat, total: nat, msg: string)
    requires j < total
    ensures j + n < total ==> Increments(AtRow(j), n, total, Failed(msg)) == (AtRow(j + n), Pass)
    ensures j + n == total ==>
      Increments(AtRow(j), n, total, Failed(msg)).1 == Fail(SqlitemapError(ITERATION_ERROR + msg))
  {
    if n > 0 {
      FailingTraversal(j, n - 1, total, msg);
    }
  }

  /**
   * Once the error has been raised the statement is finalized, so incrementing
   * the same iterator again ends the traversal without an error.
   */
  lemma ErrorThenEnd(total: nat, msg: string)
    requires total > 0
    ensures var (c, o) := IncrementSpec(AtRow(total - 1), total, Failed(msg));
      o.Fail? && IncrementSpec(c, total, Failed(msg)) == (c.(isEnd := true), Pass)
  {
  }

  /** A one-row result (what find() returns) yields its row, and one increment makes it end. */
  lemma SingleRowResult()
    ensures AdvanceSpec(Cursor(None, false, Cache(1, true)), 1, Done) == (Cursor(Some(0), false, Cache(1, true)), Pass)
    ensures IncrementSpec(Cursor(Some(0), false, Cache(1, true)), 1, Done) == (Cursor(Some(0), true, Cache(1, true)), Pass)
  {
  }

  // ---------------------------------------------------------------------
  // Post-increment

  /**
   * operator++(int) as written: the copy is incremented and returned; the
   * iterator itself keeps its index and end flag (only the shared cache moved).
   * Returns the iterator's new state and the returned copy's state.
   */
  function PostIncrementAsWrittenSpec(c: Cursor, total: nat, finish: Finish): (r: (Cursor, Cursor, Outcome<Error>))
    requires WellFormed(c, total)
    ensures WellFormed(r.0, total) && WellFormed(r.1, total)
    ensures r.0.index == c.index && r.0.isEnd == c.isEnd
  {
    var (moved, o) := IncrementSpec(c, total, finish);
    (c.(cache := moved.cache), moved, o)
  }

  /** operator++(int) as an input iterator requires it: advance, return the previous position. */
  function PostIncrementSpec(c: Cursor, total: nat, finish: Finish): (r: (Cursor, Cursor, Outcome<Error>))
    requires WellFormed(c, total)
    ensures WellFormed(r.0, total) && WellFormed(r.1, total)
    ensures r.1.index == c.index && r.1.isEnd == c.isEnd
    ensures (r.0, r.2) == IncrementSpec(c, total, finish)
  {
    var (moved, o) := IncrementSpec(c, total, finish);
    (moved, c.(cache := moved.cache), o)
  }

  /** The iterator's own state after `n` post-increments as written (stopping at an exception). */
  function PostIncrementLoopAsWritten(c: Cursor, n: nat, total: nat, finish: Finish): (r: Cursor)
    requires WellFormed(c, total)
    ensures WellFormed(r, total)
  {
    if n == 0 then c
    else
      var c1 := PostIncrementLoopAsWritten(c, n - 1, total, finish);
      var (self, _, o) := PostIncrementAsWrittenSpec(c1, total, finish);
      if o.Fail? then c1 else self
  }

  /**
   * A loop `for (; it != end; it++)` over the code as written never reaches
   * end(): however many post-increments run, the iterator stays where it was.
   */
  lemma {:induction false} PostIncrementLoopNeverEnds(c: Cursor, n: nat, total: nat, finish: Finish)
    requires WellFormed(c, total) && !c.isEnd
    ensures !PostIncrementLoopAsWritten(c, n, total, finish).isEnd
    ensures PostIncrementLoopAsWritten(c, n, total, finish).index == c.index
  {
    if n > 0 {
      PostIncrementLoopNeverEnds(c, n - 1, total, finish);
    }
  }

  /** The iterator's own state after `n` corrected post-increments. */
  function PostIncrementLoop(c: Cursor, n: nat, total: nat, finish: Finish): (r: (Cursor, Outcome<Error>))
    requires WellFormed(c, total)
    ensures WellFormed(r.0, total)
  {
    if n == 0 then (c, Pass)
    else
      var (c1, o1) := PostIncrementLoop(c, n - 1, total, finish);
      if o1.Fail? then (c1, o1)
      else
        var (self, _, o) := PostIncrementSpec(c1, total, finish);
        (self, o)
  }

  /** With the corrected post-increment the same loop reaches end() after exactly the remaining rows. */
  lemma {:induction false} PostIncrementLoopEnds(c: Cursor, j: nat, n: nat, total: nat)
    requires WellFormed(c, total) && !c.isEnd && c.index == Some(j) && j + n == total
    ensures PostIncrementLoop(c, n, total, Done).1.Pass? && PostIncrementLoop(c, n, total, Done).0.isEnd
  {
    PostIncrementLoopIsIncrements(c, n, total, Done);
    IncrementsFrom(c, j, n, total);
  }

  lemma {:induction false} PostIncrementLoopIsIncrements(c: Cursor, n: nat, total: nat, finish: Finish)
    requires WellFormed(c, total)
    ensures PostIncrementLoop(c, n, total, finish) == Increments(c, n, total, finish)
  {
    if n > 0 {
      PostIncrementLoopIsIncrements(c, n - 1, total, finish);
    }
  }

  class MapIterator<Row> {
    /** _current_index */
    var index: Option<nat>
    /** _lazy_result: null for a default-constructed (end) iterator. */
    var result: LazyResult?<Row>
    /** _is_end */
    var isEnd: bool

    function Total(): nat
      reads this
    {
      if result == null then 0 else |result.rows|
    }

    function FinishOf(): Finish
      reads this
    {
      if result == null then Done else result.finish
    }

    function Position(): Cursor
      reads this, result
    {
      Cursor(index, isEnd, if result == null then Cache(0, true) else result.State())
    }

    ghost predicate Valid()
      reads this, result
    {
      (result == null ==> isEnd && index.None?)
      && (result != null ==> result.Valid())
      && WellFormed(Position(), Total())
    }

    /** sqlitemap_iterator(): the end iterator. */
    constructor End()
      ensures Valid() && isEnd && index.None? && result == null
    {
      index := None;
      result := null;
      isEnd := true;
    }

    /** The copy constructor: the copy shares the lazy result. */
    constructor CopyOf(other: MapIterator<Row>)
      requires other.Valid()
      ensures Valid()
      ensures index == other.index && isEnd == other.isEnd && result == other.result
    {
      index := other.index;
      result := other.result;
      isEnd := other.isEnd;
    }

    /** The member initialisation of the two non-default constructors, before their advance(). */
    constructor Attach(res: LazyResult<Row>)
      requires res.Valid()
      ensures Valid() && index.None? && !isEnd && result == res
    {
      index := None;
      result := res;
      isEnd := false;
    }

    /** sqlitemap_iterator(db, query, config): prepare the statement and advance to the first row. */
    static method FromQuery(rows: seq<Row>, finish: Finish) returns (r: Result<MapIterator<Row>, Error>)
      ensures r.Failure? <==> AdvanceSpec(FRESH, |rows|, finish).1.Fail?
      ensures r.Failure? ==> Fail(r.error) == AdvanceSpec(FRESH, |rows|, finish).1
      ensures r.Success? ==> fresh(r.value) && fresh(r.value.result) && r.value.Valid()
      ensures r.Success? ==> r.value.result != null && r.value.result.rows == rows && r.value.result.finish == finish
      ensures r.Success? ==> r.value.Position() == AdvanceSpec(FRESH, |rows|, finish).0
    {
      var res := new LazyResult.FromQuery(rows, finish);
      var it := new MapIterator.Attach(res);
      var o := it.Advance();
      if o.Fail? {
        return Failure(o.error);
      }
      return Success(it);
    }

    /** sqlitemap_iterator(row, config): an iterator over one already decoded row. */
    static method FromRow(row: Row) returns (it: MapIterator<Row>)
      ensures fresh(it) && fresh(it.result) && it.Valid()
      ensures it.result != null && it.result.rows == [row] && it.result.finish == Done
      ensures it.Position() == Cursor(Some(0), false, Cache(1, true))
    {
      var res := new LazyResult.FromRow(row);
      it := new MapIterator.Attach(res);
      var o := it.Advance();
    }

    /** check_for_end */
    method CheckForEnd() returns (atEnd: bool)
      requires Valid()
      modifies this
      ensures Valid() && result == old(result) && index == old(index)
      ensures atEnd == isEnd && isEnd == EndReached(old(Position()))
    {
      if result == null {
        isEnd := true;
      } else if result.completed {
        var isEmpty := result.numRows == 0;
        var reachedLastIndex := index.Some? && index.value >= result.numRows - 1;
        if isEmpty || reachedLastIndex {
          isEnd := true;
        }
      }
      return isEnd;
    }

    /** advance() */
    method Advance() returns (o: Outcome<Error>)
      requires Valid()
      modifies this, result
      ensures Valid() && result == old(result)
      ensures (Position(), o) == AdvanceSpec(old(Position()), Total(), FinishOf())
    {
      var atEnd := CheckForEnd();
      if atEnd {
        return Pass;
      }
      if !result.completed {
        o := result.CacheNext();
        if o.Fail? {
          return;
        }
      } else {
        o := Pass;
      }
      ghost var stepped := Position();
      atEnd := CheckForEnd();
      if atEnd {
        index := None;
      } else {
        index := Some(NextIndex(index));
      }
    }

    /** operator++ */
    method Increment() returns (o: Outcome<Error>)
      requires Valid()
      modifies this, result
      ensures Valid() && result == old(result)
      ensures (Position(), o) == IncrementSpec(old(Position()), Total(), FinishOf())
    {
      if isEnd {
        return Fail(OutOfRange(PAST_END_ERROR));
      }
      o := Advance();
    }

    /**
     * operator++(int) as written: increments a copy and returns it, leaving
     * this iterator's index and end flag as they were.
     */
    method PostIncrementAsWritten() returns (r: Result<MapIterator<Row>, Error>)
      requires Valid()
      modifies result
      ensures Valid()
      ensures var (self, moved, o) := PostIncrementAsWrittenSpec(old(Position()), Total(), FinishOf());
        Position() == self
        && (r.Success? <==> o.Pass?) && (r.Failure? ==> o == Fail(r.error))
        && (r.Success? ==> fresh(r.value) && r.value.Valid() && r.value.result == result && r.value.Position() == moved)
    {
      var temp := new MapIterator.CopyOf(this);
      var o := temp.Increment();
      if o.Fail? {
        return Failure(o.error);
      }
      return Success(temp);
    }

    /** operator++(int) corrected: advances this iterator and returns its previous position. */
    method PostIncrement() returns (r: Result<MapIterator<Row>, Error>)
      requires Valid()
      modifies this, result
      ensures Valid() && result == old(result)
      ensures var (self, previous, o) := PostIncrementSpec(old(Position()), Total(), FinishOf());
        Position() == self
        && (r.Success? <==> o.Pass?) && (r.Failure? ==> o == Fail(r.error))
        && (r.Success? ==> fresh(r.value) && r.value.Valid() && r.value.result == result && r.value.Position() == previous)
    {
      var temp := new MapIterator.CopyOf(this);
      var o := Increment();
      if o.Fail? {
        return Failure(o.error);
      }
      return Success(temp);
    }

    /**
     * The loop operator+ runs: `n` increments of this iterator, stopping at the
     * first exception (a negative `n` runs none).
     */
    method IncrementTimes(n: int) returns (o: Outcome<Error>)
      requires Valid()
      modifies this, result
      ensures Valid() && result == old(result)
      ensures (Position(), o) == Increments(old(Position()), if n < 0 then 0 else n, Total(), FinishOf())
    {
      ghost var start := Position();
      var i := 0;
      while i < n
        invariant 0 <= i && (n >= 0 ==> i <= n) && (n < 0 ==> i == 0)
        invariant Valid() && result == old(result)
        invariant (Position(), Pass) == Increments(start, i, Total(), FinishOf())
      {
        ghost var before := Position();
        o := Increment();
        assert Increments(start, i + 1, Total(), FinishOf()) == IncrementSpec(before, Total(), FinishOf());
        if o.Fail? {
          IncrementsStopAtFailure(start, i + 1, n, Total(), FinishOf());
          return;
        }
        i := i + 1;
      }
      o := Pass;
    }

    /** operator+(n): a copy advanced by n increments; this iterator keeps its index and end flag. */
    method Plus(n: int) returns (r: Result<MapIterator<Row>, Error>)
      requires Valid()
      modifies result
      ensures Valid()
      ensures var (moved, o) := Increments(old(Position()), if n < 0 then 0 else n, Total(), FinishOf());
        (r.Success? <==> o.Pass?) && (r.Failure? ==> o == Fail(r.error))
        && (r.Success? ==> fresh(r.value) && r.value.Valid() && r.value.result == result && r.value.Position() == moved)
    {
      var temp := new MapIterator.CopyOf(this);
      var o := temp.IncrementTimes(n);
      if o.Fail? {
        return Failure(o.error);
      }
      return Success(temp);
    }

    /**
     * const_sqlitemap_iterator::operator+(n) as written: the wrapped iterator
     * itself is incremented n times and a copy of it is returned.
     */
    method ConstPlusAsWritten(n: int) returns (r: Result<MapIterator<Row>, Error>)
      requires Valid()
      modifies this, result
      ensures Valid() && result == old(result)
      ensures var (moved, o) := Increments(old(Position()), if n < 0 then 0 else n, Total(), FinishOf());
        Position() == moved && (r.Success? <==> o.Pass?) && (r.Failure? ==> o == Fail(r.error))
        && (r.Success? ==> fresh(r.value) && r.value.Valid() && r.value.result == result && r.value.Position() == moved)
    {
      var o := IncrementTimes(n);
      if o.Fail? {
        return Failure(o.error);
      }
      var copy := new MapIterator.CopyOf(this);
      return Success(copy);
    }

    /** operator*: the row at the current index, read through the lazy result. */
    method Deref() returns (r: Result<Row, Error>)
      requires Valid() && result != null && index.Some?
      modifies result
      ensures Valid()
      ensures (result.State(), if r.Success? then Pass else Fail(r.error)) ==
        LoadCache(old(result.State()), index.value, |result.rows|, result.finish)
      ensures r.Success? ==> r.value == result.rows[index.value]
    {
      r := result.Get(index.value);
    }

    /**
     * operator==: two end iterators are equal; otherwise both the end flags, the
     * indices and the shared result object must agree.
     */
    function Equals(other: MapIterator<Row>): (eq: bool)
      reads this, other
      ensures isEnd && other.isEnd ==> eq
      ensures isEnd != other.isEnd ==> !eq
      ensures !isEnd && !other.isEnd ==> (eq <==> index == other.index && result == other.result)
    {
      if isEnd && other.isEnd then true
      else isEnd == other.isEnd && index == other.index && result == other.result
    }
  }
}
