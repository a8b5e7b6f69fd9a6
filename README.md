# sqlitemap, modelled in Dafny

sqlitemap is a header-only C++ library that puts a `std::map`-like interface
in front of one table of an SQLite database. Each key and each value passes
through a codec: a pair of encode and decode functions. The default codec
stores strings as they are. Every operation runs SQL against the table, with
the `:table` placeholder replaced by the quoted table name. Iteration goes
through a lazily stepped, cached statement result.

A map opened read-only (mode `r`) refuses every mutator with its own
`sqlitemap_error`. Without auto-commit, `set` and `del` open a transaction
that lasts until `commit`, `rollback` or `close`.

The project models these parts:

- `logging.dfy`: the logger. It has a threshold level and an optional custom sink.
- `configuration.dfy`: the configuration object. Its setters are modelled, and its pragma statements are normalized to start with `PRAGMA `.
- `errors.dfy`: `sqlitemap_error` and `require_return_code`, `check_ok` and `check_done`.
- `storage_class.dfy`: the mapping from the C++ type a codec stores to an SQLite storage class.
- `text.dfy`: decimal printing (`std::to_string`) and parsing (`std::stoi`, `std::atoi`), plus `std::string::find` and `substr`.
- `sql_template.dfy`: `sql()`, the placeholder substitution loop.
- `table.dfy`: the table as a map from key to value, plus the order in which SQLite returns rows. It includes the effect of `REPLACE INTO`, `DELETE` and `SELECT`.
- `transactions.dfy`: what the connection sees, and what a rollback returns to. This covers BEGIN/COMMIT/ROLLBACK and auto-commit.
- `lazy_result.dfy`: the `lazy_result` class, a cache of stepped rows with look-ahead.
- `map_iterator.dfy`: `sqlitemap_iterator` and the `const_sqlitemap_iterator` that wraps it.
- `sqlitemap.dfy`: the `sqlitemap` facade, covering reads, writes, inserts, erasure, extraction, iteration and transactions.
- `custom_codecs.dfy`: the `point`, `feature` and `custom` test types, with their text encodings.
- `test_codecs.dfy`: the codecs the codec tests install, and the default identity codecs.

The facade is a class. Its fields are:

- the table this connection sees;
- the last committed table;
- whether a transaction is open.

Each method is proved against a pure specification function of the old state, and the lemmas about those functions carry the properties. The SQLite database is not modelled: a statement is given by its effect on the table. A query is given by the rows `sqlite3_step` would yield, then by how the final step ends.

## Model

| member | source | states |
|---|---|---|
| Logging.LogLevel.Value | include/bw/sqlitemap/sqlitemap.hpp:44-52 | off is 6000, error 5000, warn 4000, info 3000, debug 2000 and trace 1000, each value for exactly one level |
| Logging.LevelOrder | include/bw/sqlitemap/sqlitemap.hpp:44-52 | the levels are strictly ordered trace < debug < info < warn < error < off |
| Logging.ValueInjective | include/bw/sqlitemap/sqlitemap.hpp:44-52 | two levels with the same value are the same level |
| Logging.Dispatch | include/bw/sqlitemap/sqlitemap.hpp:84-93 | a message is dropped iff its level is below the threshold. Otherwise it goes to the custom sink when one is set, else errors and warnings go to stderr and every other level goes to stdout |
| Logging.Logger.constructor | include/bw/sqlitemap/sqlitemap.hpp:125-127 | the default threshold is debug, with no custom sink |
| Logging.Logger.SetLevel | include/bw/sqlitemap/sqlitemap.hpp:100-103 | the threshold is replaced and the sink kept |
| Logging.Logger.RegisterLogImpl | include/bw/sqlitemap/sqlitemap.hpp:95-98 | the sink is replaced and the threshold kept |
| Logging.Logger.Log | include/bw/sqlitemap/sqlitemap.hpp:84-93 | log() drops exactly the messages below the threshold, and hands the rest to a registered sink unchanged |
| Logging.ThresholdMonotone | include/bw/sqlitemap/sqlitemap.hpp:86-87 | raising the threshold never lets through a message a lower threshold dropped |
| Logging.OffSilences | include/bw/sqlitemap/sqlitemap.hpp:667 | at the configuration's default level `off`, every message is dropped |
| Logging.TraceDeliversAll | include/bw/sqlitemap/sqlitemap.hpp:86-87 | at level trace, nothing is dropped |
| Logging.CustomDebugLogger | test/catch2/unit_tests/sqlitemap_helper_tests.cpp:99-124 | with a debug threshold and a custom sink: error, info and debug reach the sink with the test's prefixes, and trace is dropped |
| Configuration.NormalizePragma | include/bw/sqlitemap/sqlitemap.hpp:773-786 | the stored statement always starts with `PRAGMA ` (in any case). A statement that already has it is kept as written; any other gets the prefix |
| Configuration.NormalizePragmaIdempotent | include/bw/sqlitemap/sqlitemap.hpp:773-786 | normalizing a stored statement again changes nothing |
| Configuration.PragmaAssignmentKept | include/bw/sqlitemap/sqlitemap.hpp:768-771 | `PRAGMA <flag> = <value>` is stored exactly as built |
| Configuration.PragmaAssignment | include/bw/sqlitemap/sqlitemap.hpp:768-771 | builds `PRAGMA <flag> = <value>`: it starts with "PRAGMA " and then the flag, and it ends with " = " and the value; PragmaAssignmentKept shows normalisation keeps it |
| Configuration.LowerCasePrefixKept | include/bw/sqlitemap/sqlitemap.hpp:776-778 | the prefix comparison ignores case, so a `pragma ` prefix is not doubled |
| Configuration.Configuration.constructor | include/bw/sqlitemap/sqlitemap.hpp:663-667 | defaults are: empty file name, table "unnamed", mode c, no auto-commit, log level off, no sink, no pragmas |
| Configuration.Configuration.SetFilename | include/bw/sqlitemap/sqlitemap.hpp:697-701 | sets the file name, and every other setting is unchanged |
| Configuration.Configuration.SetTable | include/bw/sqlitemap/sqlitemap.hpp:708-712 | sets the table name, and every other setting is unchanged |
| Configuration.Configuration.SetMode | include/bw/sqlitemap/sqlitemap.hpp:719-723 | sets the mode, and every other setting is unchanged |
| Configuration.Configuration.SetAutoCommit | include/bw/sqlitemap/sqlitemap.hpp:730-734 | sets auto-commit, and every other setting is unchanged |
| Configuration.Configuration.SetLogLevel | include/bw/sqlitemap/sqlitemap.hpp:741-745 | sets the log level, and every other setting is unchanged |
| Configuration.Configuration.SetLogImpl | include/bw/sqlitemap/sqlitemap.hpp:752-756 | sets the sink, and every other setting is unchanged |
| Configuration.Configuration.Pragma | include/bw/sqlitemap/sqlitemap.hpp:773-786 | appends the normalized statement. Every stored pragma keeps its prefix |
| Configuration.Configuration.PragmaFlag | include/bw/sqlitemap/sqlitemap.hpp:768-771 | appends `PRAGMA <flag> = <value>` |
| Configuration.Configuration.PragmaInt | include/bw/sqlitemap/sqlitemap.hpp:763-766 | appends the assignment, with the value printed in decimal |
| Errors.What | include/bw/sqlitemap/sqlitemap.hpp:37-42 | a sqlitemap_error's message is prefixed with `sqlitemap_error - ` |
| Errors.RequireReturnCode | include/bw/sqlitemap/sqlitemap.hpp:188-204 | passes iff the return code is the expected one. A failure is a sqlitemap_error whose message is exactly the caller's text, or the default message when that text is empty, followed by " - sqlite3_errmsg: " and the connection's errmsg when there is a connection. Prefix, suffix and length pin it |
| Errors.CheckOk | include/bw/sqlitemap/sqlitemap.hpp:211-219 | passes iff the code is SQLITE_OK |
| Errors.CheckDone | include/bw/sqlitemap/sqlitemap.hpp:221-229 | passes iff the code is SQLITE_DONE |
| Errors.DefaultMessage | include/bw/sqlitemap/sqlitemap.hpp:194-199 | the message for an empty caller text is exactly "Statement failed. Expect return code ", the expected code's decimal text, " but was " and the actual code's decimal text. DefaultMessageDistinguishesCodes tells codes apart by it |
| Errors.DefaultMessageDistinguishesCodes | include/bw/sqlitemap/sqlitemap.hpp:194-199 | two different wrong codes give two different default messages |
| Errors.CheckOkFailureMessage | include/bw/sqlitemap/sqlitemap.hpp:194-202 | check_ok(SQLITE_ERROR) raises "Statement failed. Expect return code 0 but was 1" |
| Errors.CheckDoneFailureMessage | include/bw/sqlitemap/sqlitemap.hpp:194-202 | check_done(SQLITE_ERROR) raises "… Expect return code 101 but was 1" |
| StorageClass.StorageClassFromType | include/bw/sqlitemap/sqlitemap.hpp:410-432 | integral types are INTEGER, floating point is REAL, std::string and const char* are TEXT, and blob is BLOB. These are the only types with a class |
| StorageClass.ToString | include/bw/sqlitemap/sqlitemap.hpp:434-449 | INTEGER, REAL, TEXT and BLOB are spelled "INTEGER", "REAL", "TEXT" and "BLOB", and each name belongs to that class only |
| StorageClass.ToStringInjective | include/bw/sqlitemap/sqlitemap.hpp:434-449 | different storage classes are spelled differently |
| StorageClass.NullPtrHasNoStorageClass | include/bw/sqlitemap/sqlitemap.hpp:231-235 | std::nullptr_t is accepted by the identity codecs yet has no storage class. It is the only such natively supported type |
| Text.IntToString | test/catch2/unit_tests/custom.hpp:94 | std::to_string: a nonempty text, with a minus sign exactly for negative numbers, then digits |
| Text.StoiOfIntToString | test/catch2/unit_tests/custom.hpp:39 | std::stoi reads back every printed int |
| Text.AtoiOfIntToString | test/catch2/unit_tests/sqlitemap_codecs_tests.cpp:93-96 | std::atoi reads back every printed int |
| Text.IntToStringInjective | test/catch2/unit_tests/custom.hpp:94 | different ints print differently |
| Text.FindFrom | test/catch2/unit_tests/custom.hpp:37-38 | std::string::find returns the first occurrence at or after the start position, or npos when there is none |
| Text.SubstrFrom | test/catch2/unit_tests/sqlitemap_codecs_tests.cpp:81-84 | substr(pos) succeeds iff pos is within the text, and returns the suffix |
| SqlTemplate.Sql | include/bw/sqlitemap/sqlitemap.hpp:2233-2247 | the loop's output is the left-to-right substitution of the quoted table name, with no rescan of inserted text |
| SqlTemplate.NoPlaceholderUnchanged | include/bw/sqlitemap/sqlitemap.hpp:2238-2245 | a statement without `:table` is returned unchanged |
| SqlTemplate.SubstitutedAfterPrefix | include/bw/sqlitemap/sqlitemap.hpp:2238-2245 | the first placeholder after a colon-free prefix is the one replaced |
| SqlTemplate.SelectAllFrom | test/catch2/unit_tests/sqlitemap_helper_tests.cpp:56-69 | `select * from :table` becomes `select * from "<table>"`, even for a table literally named `:table` |
| SqlTemplate.SubstitutedFree | include/bw/sqlitemap/sqlitemap.hpp:2233-2247 | when the table name has no placeholder, the result has none left |
| Table.Empty | include/bw/sqlitemap/sqlitemap.hpp:1907-1917 | the table after `DELETE FROM :table` is well formed and has no rows |
| Table.Lookup | include/bw/sqlitemap/sqlitemap.hpp:1604-1635 | `SELECT value … WHERE key = ?` finds a row iff the key is present, and returns its value |
| Table.Put | include/bw/sqlitemap/sqlitemap.hpp:1557-1587 | REPLACE keeps the table well formed: one row per key |
| Table.Delete | include/bw/sqlitemap/sqlitemap.hpp:1656-1683 | DELETE by key keeps the table well formed |
| Table.Rows | include/bw/sqlitemap/sqlitemap.hpp:2079-2084 | `SELECT key, value` yields one row per row of the order, each with its stored value |
| Table.Keys | include/bw/sqlitemap/sqlitemap.hpp:2143-2147 | `SELECT key` yields one key per row, in row order: every key of the table, each exactly once |
| Table.Values | include/bw/sqlitemap/sqlitemap.hpp:2186-2190 | `SELECT value` yields one value per row, in row order, and the i-th value is the one stored under the i-th row's key |
| Table.KeysValuesAligned | include/bw/sqlitemap/sqlitemap.hpp:2143-2147 | the key and value listings have the same length, and looking up the i-th key gives the i-th value |
| Table.EraseMatching | include/bw/sqlitemap/sqlitemap.hpp:1933-1946 | removing the accepted rows keeps the table well formed |
| Table.CountMatching | include/bw/sqlitemap/sqlitemap.hpp:1933-1946 | the count of accepted rows is at most the number of rows |
| Table.InsertAbsent | include/bw/sqlitemap/sqlitemap.hpp:1738-1753 | the ranged insert keeps the table well formed |
| Table.OrderLength | include/bw/sqlitemap/sqlitemap.hpp:1685-1701 | the row count (`COUNT(*)`) equals the number of keys |
| Table.PutLookup | include/bw/sqlitemap/sqlitemap.hpp:1557-1587 | after set(k, v), k maps to v and every other key is untouched |
| Table.PutSize | include/bw/sqlitemap/sqlitemap.hpp:1557-1587 | set grows the table by one exactly when the key was absent |
| Table.PutPut | include/bw/sqlitemap/sqlitemap.hpp:1557-1587 | a second set of the same key replaces the first entirely |
| Table.DeleteLookup | include/bw/sqlitemap/sqlitemap.hpp:1656-1683 | after del(k): k is absent, other keys are untouched, and the size drops by one iff k was present |
| Table.RowsCoverTable | include/bw/sqlitemap/sqlitemap.hpp:2079-2084 | iteration visits every key exactly once |
| Table.EraseMatchingEntries | include/bw/sqlitemap/sqlitemap.hpp:1933-1946 | erasing the accepted rows leaves exactly the rejected entries, with their values. The size drops by the number erased |
| Table.InsertAbsentKeeps | include/bw/sqlitemap/sqlitemap.hpp:1743-1753 | the ranged insert keeps every present entry and adds every key of the range, and nothing else |
| Table.InsertAbsentFirstWins | include/bw/sqlitemap/sqlitemap.hpp:1743-1753 | among duplicate keys in the range, the first pair is stored |
| Transactions.BeginSpec | include/bw/sqlitemap/sqlitemap.hpp:1988-1992 | BEGIN opens a transaction and changes no table; inside one it is a no-op |
| Transactions.CommitSpec | include/bw/sqlitemap/sqlitemap.hpp:1994-1998 | COMMIT makes the visible table the committed one; outside a transaction it is a no-op |
| Transactions.RollbackSpec | include/bw/sqlitemap/sqlitemap.hpp:2000-2004 | ROLLBACK returns to the committed table; outside a transaction it is a no-op |
| Transactions.WriteSpec | include/bw/sqlitemap/sqlitemap.hpp:1557-1587 | a write sets the visible table and leaves a transaction open iff one was open or auto-commit is off. A write outside a transaction is committed at once |
| Transactions.WriteAll | include/bw/sqlitemap/sqlitemap.hpp:1557-1587 | after a run of writes, the last one is visible |
| Transactions.RollbackUndoesWrites | include/bw/sqlitemap/sqlitemap.hpp:2000-2004 | without auto-commit, or inside a transaction, a rollback undoes every write back to the last commit |
| Transactions.AutoCommitWritesDurable | include/bw/sqlitemap/sqlitemap.hpp:1573-1578 | with auto-commit on and no explicit transaction, every write is committed, so a rollback changes nothing |
| Transactions.CloseAsWritten | include/bw/sqlitemap/sqlitemap.hpp:2006-2011 | close() as written: with auto-commit on, or outside a transaction, the current table survives. With auto-commit off, the last committed table survives |
| Transactions.CloseAsWrittenLosesWrites | include/bw/sqlitemap/sqlitemap.hpp:2006-2011 | with auto-commit off, close() as written keeps the table from before the first write, not the last write |
| Transactions.CloseSpec | include/bw/sqlitemap/sqlitemap.hpp:2006-2011 | close(), corrected: the current table survives, open transaction or not |
| Transactions.CloseKeepsWrites | test/catch2/unit_tests/sqlitemap_core_tests.cpp:1395-1416 | after any run of writes, with or without auto-commit, the corrected close() keeps the last write |
| Transactions.WriteTwice | include/bw/sqlitemap/sqlitemap.hpp:1557-1587 | two writes leave the same state as the second alone |
| Transactions.InsertSpec | include/bw/sqlitemap/sqlitemap.hpp:1708-1724 | insert stores the pair iff the key is absent; a present key leaves the state as it was |
| Transactions.InsertAllSpec | include/bw/sqlitemap/sqlitemap.hpp:1738-1753 | the ranged insert gives the table of InsertAbsent |
| Transactions.EraseSpec | include/bw/sqlitemap/sqlitemap.hpp:1920-1930 | erase removes exactly the key, or nothing when it is absent |
| Transactions.EraseIfStep | include/bw/sqlitemap/sqlitemap.hpp:1938-1944 | one row of erase_if adds 0 or 1 to the count |
| Transactions.EraseIfSpec | include/bw/sqlitemap/sqlitemap.hpp:1933-1946 | erase_if's count is at most the number of rows visited |
| Transactions.EraseIfSpecStep | include/bw/sqlitemap/sqlitemap.hpp:1938-1944 | erase_if over one more row is one more step |
| Transactions.EraseIfSpecErasesMatching | include/bw/sqlitemap/sqlitemap.hpp:1933-1946 | over the table's own rows, erase_if erases exactly the matching rows and counts them |
| Transactions.EraseIfOverTable | include/bw/sqlitemap/sqlitemap.hpp:1933-1946 | after erase_if, the table holds exactly the rejected entries and the count is the number erased |
| LazyResult.StepError | include/bw/sqlitemap/sqlitemap.hpp:987-993 | the final step raises nothing exactly when it ends with SQLITE_DONE, and otherwise "Error during SQLite iteration: " followed by SQLite's error message |
| LazyResult.StepCache | include/bw/sqlitemap/sqlitemap.hpp:948-1010 | one step caches the next row, or finalizes the statement. It raises the iteration error iff the final step fails |
| LazyResult.LoadCache | include/bw/sqlitemap/sqlitemap.hpp:903-946 | a finalized result answers from the cache, or raises range_error with "Tried to iterate over max num of rows" past it. A live one with index + 2 rows available caches max(cached, index + 2) rows and passes; one with fewer finalizes with every row cached and raises the step error, if any |
| LazyResult.LoadCacheIdempotent | include/bw/sqlitemap/sqlitemap.hpp:925-946 | reading the same index again steps no further |
| LazyResult.LoadCacheDone | include/bw/sqlitemap/sqlitemap.hpp:925-946 | on a statement that ends without error, reading an existing row never fails |
| LazyResult.LazyResult.FromQuery | include/bw/sqlitemap/sqlitemap.hpp:876-885 | a prepared statement has an empty cache and is live |
| LazyResult.LazyResult.FromRow | include/bw/sqlitemap/sqlitemap.hpp:887-896 | a single cached row, with no statement |
| LazyResult.LazyResult.CacheNext | include/bw/sqlitemap/sqlitemap.hpp:1003-1010 | the cache moves as StepCache says, and stays a prefix of the statement's rows |
| LazyResult.LazyResult.Get | include/bw/sqlitemap/sqlitemap.hpp:903-946 | the loop moves the cache as LoadCache says. A returned row is the statement's row at that index |
| MapIterator.AdvanceSpec | include/bw/sqlitemap/sqlitemap.hpp:1134-1152 | advance: an end iterator stays put. A failed step raises the statement's error and keeps the index. Otherwise the iterator moves to the next index, or becomes end iff no row is left |
| MapIterator.IncrementSpec | include/bw/sqlitemap/sqlitemap.hpp:1083-1091 | incrementing an end iterator raises out_of_range and changes nothing |
| MapIterator.Increments | include/bw/sqlitemap/sqlitemap.hpp:1100-1106 | n increments keep the iterator well formed and never shrink the cache |
| MapIterator.IncrementsStopAtFailure | include/bw/sqlitemap/sqlitemap.hpp:1100-1106 | once an increment raises, later increments are not attempted |
| MapIterator.BeginOfQuery | include/bw/sqlitemap/sqlitemap.hpp:1063-1069 | a fresh query iterator is on row 0, or is end for an empty result |
| MapIterator.IncrementsFrom | include/bw/sqlitemap/sqlitemap.hpp:1083-1106 | from row j, n increments reach row j+n while it exists, and end exactly at the row count. One more raises out_of_range |
| MapIterator.StepDone | include/bw/sqlitemap/sqlitemap.hpp:1083-1091 | one increment moves to the next row, or to end after the last |
| MapIterator.FailingTraversal | include/bw/sqlitemap/sqlitemap.hpp:987-993 | a traversal of a failing statement visits every row before the error, then raises it |
| MapIterator.ErrorThenEnd | include/bw/sqlitemap/sqlitemap.hpp:1154-1168 | after the error the statement is finalized, so the next increment ends the traversal |
| MapIterator.SingleRowResult | include/bw/sqlitemap/sqlitemap.hpp:1071-1076 | a one-row result is on its row, and one increment ends it |
| MapIterator.PostIncrementAsWrittenSpec | include/bw/sqlitemap/sqlitemap.hpp:1093-1098 | post-increment as written leaves the iterator's own index and end flag unchanged |
| MapIterator.PostIncrementSpec | include/bw/sqlitemap/sqlitemap.hpp:1093-1098 | corrected post-increment: the iterator moves as a pre-increment, and the previous position is returned |
| MapIterator.PostIncrementLoopAsWritten | include/bw/sqlitemap/sqlitemap.hpp:1093-1098 | repeated post-increments as written keep the iterator well formed |
| MapIterator.PostIncrementLoopNeverEnds | include/bw/sqlitemap/sqlitemap.hpp:1093-1098 | a loop advancing with `it++` never reaches end: the index never changes |
| MapIterator.PostIncrementLoop | include/bw/sqlitemap/sqlitemap.hpp:1093-1098 | repeated corrected post-increments keep the iterator well formed |
| MapIterator.PostIncrementLoopEnds | include/bw/sqlitemap/sqlitemap.hpp:1093-1098 | with the corrected post-increment, the loop ends after exactly the remaining rows |
| MapIterator.PostIncrementLoopIsIncrements | include/bw/sqlitemap/sqlitemap.hpp:1093-1098 | corrected post-increments move the iterator exactly as pre-increments do |
| MapIterator.MapIterator.End | include/bw/sqlitemap/sqlitemap.hpp:1078-1081 | the default iterator is end, with no result |
| MapIterator.MapIterator.CopyOf | include/bw/sqlitemap/sqlitemap.hpp:1095 | a copy shares the lazy result and has the same index and end flag |
| MapIterator.MapIterator.Attach | include/bw/sqlitemap/sqlitemap.hpp:1063-1076 | the member initialisation: no index, not end |
| MapIterator.MapIterator.FromQuery | include/bw/sqlitemap/sqlitemap.hpp:1063-1069 | a query iterator is in AdvanceSpec's state, or raises its error |
| MapIterator.MapIterator.FromRow | include/bw/sqlitemap/sqlitemap.hpp:1071-1076 | a row iterator is on its only row, with the result complete |
| MapIterator.EndReached | include/bw/sqlitemap/sqlitemap.hpp:1154-1168 | the end flag is sticky; a live statement never ends the iterator; a finalized one ends it when it has no rows or the index is on its last cached row |
| MapIterator.MapIterator.CheckForEnd | include/bw/sqlitemap/sqlitemap.hpp:1154-1168 | sets and returns the end flag, as EndReached says |
| MapIterator.MapIterator.Advance | include/bw/sqlitemap/sqlitemap.hpp:1134-1152 | moves as AdvanceSpec says |
| MapIterator.MapIterator.Increment | include/bw/sqlitemap/sqlitemap.hpp:1083-1091 | moves as IncrementSpec says |
| MapIterator.MapIterator.PostIncrementAsWritten | include/bw/sqlitemap/sqlitemap.hpp:1093-1098 | as written: the copy moves and is returned, while this iterator keeps its index and end flag |
| MapIterator.MapIterator.PostIncrement | include/bw/sqlitemap/sqlitemap.hpp:1093-1098 | corrected: this iterator moves, and a copy at the previous position is returned |
| MapIterator.MapIterator.IncrementTimes | include/bw/sqlitemap/sqlitemap.hpp:1103-1104 | the loop runs n increments as Increments says, stopping at the first exception |
| MapIterator.MapIterator.Plus | include/bw/sqlitemap/sqlitemap.hpp:1100-1106 | operator+ returns a copy moved n times, and this iterator keeps its position |
| MapIterator.MapIterator.ConstPlusAsWritten | include/bw/sqlitemap/sqlitemap.hpp:1225-1230 | the const operator+ as written moves the iterator itself n times and returns a copy |
| MapIterator.MapIterator.Deref | include/bw/sqlitemap/sqlitemap.hpp:1123-1126 | operator* reads the current row through the lazy result, as LoadCache says |
| MapIterator.MapIterator.Equals | include/bw/sqlitemap/sqlitemap.hpp:1108-1116 | two end iterators are equal. Otherwise they are equal iff their end flags, indices and shared results all agree |
| Facade.SqliteMap.Init | include/bw/sqlitemap/sqlitemap.hpp:1424-1461 | the map starts on the given table, outside any transaction |
| Facade.SqliteMap.Open | include/bw/sqlitemap/sqlitemap.hpp:1503-1548 | connect: mode r refuses a missing table. Modes w and n, or a missing table, start empty. Modes c and r keep the existing contents |
| Facade.SqliteMap.BeginTransaction | include/bw/sqlitemap/sqlitemap.hpp:1988-1992 | the state becomes BeginSpec of the old state |
| Facade.SqliteMap.Commit | include/bw/sqlitemap/sqlitemap.hpp:1994-1998 | the state becomes CommitSpec of the old state |
| Facade.SqliteMap.Close | include/bw/sqlitemap/sqlitemap.hpp:2006-2011 | close() as corrected: commits any open transaction. The returned durable table is CloseSpec of the old state |
| Facade.SqliteMap.Rollback | include/bw/sqlitemap/sqlitemap.hpp:2000-2004 | the state becomes RollbackSpec of the old state |
| Facade.SqliteMap.Execute | include/bw/sqlitemap/sqlitemap.hpp:1573-1578 | stepping a write: outside a transaction it is committed at once |
| Facade.SqliteMap.TryGet | include/bw/sqlitemap/sqlitemap.hpp:1604-1635 | the value iff the key is present |
| Facade.SqliteMap.Get | include/bw/sqlitemap/sqlitemap.hpp:1591-1601 | the stored value, or sqlitemap_error "Key '<k>' not found in database" |
| Facade.SqliteMap.Count | include/bw/sqlitemap/sqlitemap.hpp:1875-1900 | 1 iff the key is present, else 0 |
| Facade.SqliteMap.Contains | include/bw/sqlitemap/sqlitemap.hpp:1902-1905 | true iff try_get finds the key |
| Facade.SqliteMap.Size | include/bw/sqlitemap/sqlitemap.hpp:1685-1701 | the number of rows iteration visits |
| Facade.SqliteMap.Empty | include/bw/sqlitemap/sqlitemap.hpp:1703-1706 | true iff the table has no entries, and iff iteration yields nothing |
| Facade.SqliteMap.Find | include/bw/sqlitemap/sqlitemap.hpp:1857-1873 | an iterator on the single row (k, value), or end when k is absent |
| Facade.SqliteMap.EqualRange | include/bw/sqlitemap/sqlitemap.hpp:1976-1986 | two equal iterators that share find's result |
| Facade.SqliteMap.Begin | include/bw/sqlitemap/sqlitemap.hpp:2079-2084 | an iterator over the table's rows, on the first row or at end |
| Facade.SqliteMap.KeysBegin | include/bw/sqlitemap/sqlitemap.hpp:2143-2147 | an iterator over the keys in row order |
| Facade.SqliteMap.ValuesBegin | include/bw/sqlitemap/sqlitemap.hpp:2186-2190 | an iterator over the values in row order |
| Facade.SqliteMap.Set | include/bw/sqlitemap/sqlitemap.hpp:1557-1587 | mode r is refused and nothing changes. Otherwise k maps to v, other keys are untouched, the size grows iff k was new, and transactions follow WriteSpec |
| Facade.SqliteMap.Del | include/bw/sqlitemap/sqlitemap.hpp:1656-1683 | mode r is refused. Otherwise k is absent, other keys are untouched, and transactions follow WriteSpec |
| Facade.SqliteMap.Insert | include/bw/sqlitemap/sqlitemap.hpp:1708-1724 | stores the pair iff the key is absent, reports whether it did, and returns find's iterator |
| Facade.SqliteMap.InsertNode | include/bw/sqlitemap/sqlitemap.hpp:1726-1736 | an empty node gives (end, false, node). Otherwise it inserts, and the node is emptied iff it was stored |
| Facade.SqliteMap.InsertRange | include/bw/sqlitemap/sqlitemap.hpp:1738-1753 | the loop inserts each pair in turn, as InsertAllSpec says |
| Facade.SqliteMap.Emplace | include/bw/sqlitemap/sqlitemap.hpp:1783-1791 | insert, behind the write refusal |
| Facade.SqliteMap.EmplaceHint | include/bw/sqlitemap/sqlitemap.hpp:1793-1799 | emplace, with the hint ignored |
| Facade.SqliteMap.TryEmplace | include/bw/sqlitemap/sqlitemap.hpp:1801-1827 | a present key is left alone; otherwise the pair is stored |
| Facade.SqliteMap.TryEmplaceHint | include/bw/sqlitemap/sqlitemap.hpp:1829-1855 | try_emplace, with the hint ignored |
| Facade.SqliteMap.InsertOrAssign | include/bw/sqlitemap/sqlitemap.hpp:1755-1781 | the value is always stored, and true iff the key was absent |
| Facade.SqliteMap.IndexThenAssign | include/bw/sqlitemap/sqlitemap.hpp:1642-1654 | `m[k] = v` on a missing key leaves the same state as set(k, v) |
| Facade.SqliteMap.At | include/bw/sqlitemap/sqlitemap.hpp:1637-1640 | a reference holding the stored value, or get's error |
| Facade.SqliteMap.Index | include/bw/sqlitemap/sqlitemap.hpp:1642-1654 | a present key is returned unchanged. A missing key first gets the default value, unless the map is read-only |
| Facade.SqliteMap.Clear | include/bw/sqlitemap/sqlitemap.hpp:1907-1917 | mode r is refused. Otherwise the table is empty and committed, with no transaction open |
| Facade.SqliteMap.Erase | include/bw/sqlitemap/sqlitemap.hpp:1920-1930 | 1 and the row removed when the key was present, else 0 |
| Facade.SqliteMap.EraseIf | include/bw/sqlitemap/sqlitemap.hpp:1933-1946 | exactly the entries the predicate rejects remain, and the count is the number erased |
| Facade.SqliteMap.EraseIfRow | include/bw/sqlitemap/sqlitemap.hpp:1938-1942 | one loop round: read the current row, erase it if accepted, and step the iterator |
| Facade.SqliteMap.EraseIfWalk | include/bw/sqlitemap/sqlitemap.hpp:1939-1943 | the loop from begin() to end() leaves the state and count EraseIfSpec gives for the rows read at begin() |
| Facade.ReadWalking | include/bw/sqlitemap/sqlitemap.hpp:1941 | dereferencing an iterator on row i of a statement that ends without error yields row i |
| Facade.StepWalking | include/bw/sqlitemap/sqlitemap.hpp:1939 | incrementing it moves to row i + 1, or to end after the last row, on the same result |
| Facade.SqliteMap.Extract | include/bw/sqlitemap/sqlitemap.hpp:1948-1961 | the row is removed and returned as a node, or an empty node when absent |
| Facade.SqliteMap.ExtractAt | include/bw/sqlitemap/sqlitemap.hpp:1963-1974 | an empty node at end; otherwise extract of the key under the iterator |
| Facade.SqliteMap.Terminate | include/bw/sqlitemap/sqlitemap.hpp:2030-2034 | refused iff the map is read-only |
| Facade.ValueRef.constructor | include/bw/sqlitemap/sqlitemap.hpp:1373-1379 | a reference to the map, the key, and the value read |
| Facade.ValueRef.Assign | include/bw/sqlitemap/sqlitemap.hpp:1382-1387 | set through the map, then remember the value. A refused set changes neither |
| CustomTypes.PointEquals | test/catch2/unit_tests/custom.hpp:20-23 | true iff all three coordinates agree |
| CustomTypes.FeatureEquals | test/catch2/unit_tests/custom.hpp:58-61 | true iff title and rating agree |
| CustomTypes.FieldStart | test/catch2/unit_tests/custom.hpp:37 | just past the label when it is found. When it is not, npos plus the label length wraps around to the label length minus one |
| CustomTypes.FieldText | test/catch2/unit_tests/custom.hpp:75-77 | the substring from the start up to the terminator. It holds no terminator, and substr fails past the end |
| CustomTypes.ReadIntField | test/catch2/unit_tests/custom.hpp:37-39 | stoi of the field text, or out_of_range when substr fails |
| CustomTypes.ReadIntFieldOfPrinted | test/catch2/unit_tests/custom.hpp:37-47 | a printed int after its label, before a non-digit terminator, reads back |
| CustomTypes.PointToString | test/catch2/unit_tests/custom.hpp:25-30 | prints `{"x": X, "y": Y, "z": Z}`: it opens with `{"x": ` and closes with `}`; PointRoundTrip reads it back |
| CustomTypes.PointFromString | test/catch2/unit_tests/custom.hpp:32-50 | succeeds exactly when the x, y and z fields all read, with those values as coordinates; a failing x field's error is the one raised |
| CustomTypes.PointRoundTrip | test/catch2/unit_tests/custom.hpp:25-50 | point::from_string(point::to_string(p)) == p |
| CustomTypes.PointReadsX | test/catch2/unit_tests/custom.hpp:37-39 | the x field reads back |
| CustomTypes.PointReadsY | test/catch2/unit_tests/custom.hpp:41-43 | the y field reads back |
| CustomTypes.PointReadsZ | test/catch2/unit_tests/custom.hpp:45-47 | the z field reads back |
| CustomTypes.TitleOfPrinted | test/catch2/unit_tests/custom.hpp:75-77 | a title without a double quote reads back |
| CustomTypes.RatingLabelFound | test/catch2/unit_tests/custom.hpp:79 | the rating label is found right after the title |
| CustomTypes.FeatureToString | test/catch2/unit_tests/custom.hpp:63-68 | prints `{"title": "T", "rating": R}`: the title follows the opening label verbatim, and the text closes with `}`; FeatureRoundTrip reads it back |
| CustomTypes.FeatureFromString | test/catch2/unit_tests/custom.hpp:70-84 | out_of_range when the title's field is missing. Otherwise it succeeds exactly when the rating reads, with the title's field text and that rating |
| CustomTypes.FeatureRoundTrip | test/catch2/unit_tests/custom.hpp:63-84 | for a title without `"`, feature::from_string(feature::to_string(f)) == f |
| CustomTypes.CustomToString | test/catch2/unit_tests/custom.hpp:92-95 | prints `custom[N]`: it opens with "custom[" and closes with `]`, and a minus sign follows the bracket exactly for a negative counter; CustomToStringInjective tells counters apart |
| CustomTypes.CustomExample | test/catch2/unit_tests/custom.hpp:92-95 | custom{42} prints as `custom[42]` |
| CustomTypes.CustomToStringInjective | test/catch2/unit_tests/custom.hpp:92-95 | different counters print differently |
| TestCodecs.DecodeValue | test/catch2/unit_tests/sqlitemap_codecs_tests.cpp:81-84 | succeeds iff the text is at least as long as the prefix |
| TestCodecs.EncodeValue | test/catch2/unit_tests/sqlitemap_codecs_tests.cpp:76-79 | the stored text is "PREFIX_" followed by the value, unchanged; DecodeEncodeValue strips it again |
| TestCodecs.DecodeEncodeValue | test/catch2/unit_tests/sqlitemap_codecs_tests.cpp:76-84 | decode_value(encode_value(v)) == v |
| TestCodecs.EncodeDecodeValue | test/catch2/unit_tests/sqlitemap_codecs_tests.cpp:76-84 | on prefixed text, encode_value(decode_value(s)) == s |
| TestCodecs.ValueCodecExample | test/catch2/unit_tests/sqlitemap_codecs_tests.cpp:117-118 | "value-1" is stored as "PREFIX_value-1" and read back |
| TestCodecs.EncodeKey | test/catch2/unit_tests/sqlitemap_codecs_tests.cpp:86-91 | a nonempty decimal text, negative iff key + 1000 is |
| TestCodecs.DecodeKey | test/catch2/unit_tests/sqlitemap_codecs_tests.cpp:93-96 | atoi's leading integer less 1000, and -1000 for a text that starts with no number; DecodeEncodeKey reads back encode_key |
| TestCodecs.DecodeEncodeKey | test/catch2/unit_tests/sqlitemap_codecs_tests.cpp:86-96 | decode_key(encode_key(k)) == k |
| TestCodecs.EncodeKeyInjective | test/catch2/unit_tests/sqlitemap_codecs_tests.cpp:86-91 | different keys are stored under different texts |
| TestCodecs.EncodeDecodeKey | test/catch2/unit_tests/sqlitemap_codecs_tests.cpp:86-96 | on the decimal text of an int, encoding the decoded key gives the text back |
| TestCodecs.KeyCodecExample | test/catch2/unit_tests/sqlitemap_codecs_tests.cpp:115-116 | key 42 is stored as "1042" and read back |
| TestCodecs.EncodeVariant | test/catch2/unit_tests/sqlitemap_codecs_tests.cpp:306-312 | the stored text starts with 'i' iff the value is an int |
| TestCodecs.DecodeVariant | test/catch2/unit_tests/sqlitemap_codecs_tests.cpp:314-320 | a text starting with 'i' decodes to an int if anything. Any other text decodes iff it is at least as long as the string tag |
| TestCodecs.DecodeEncodeVariant | test/catch2/unit_tests/sqlitemap_codecs_tests.cpp:306-329 | both alternatives read back as they were written |
| TestCodecs.DefaultCodecsKeepStrings | test/catch2/unit_tests/sqlitemap_codecs_tests.cpp:56-71 | the default identity codecs return keys and values unchanged, and round-trip every string |

## Left out

- The SQLite C API is not modelled: opening files, preparing and binding statements, and column decoding. A statement is its effect on the table, and a query is the rows it yields. The return-code checks are modelled separately (`Errors`). The file system is also left out: directory checks, and removing the file in mode n.
- Facade.SqliteMap.Open: mode n treats the existing table as absent, rather than modelling the removal of the whole file. The CREATE TABLE statement, the pragmas and the storage-class check of an existing table are not executed. `existing` is a parameter standing for what the file holds. In mode r the model returns one message for every missing table: "Refusing to create a new table '<table>' in read-only DB mode". That is right when the file exists but lacks the table. When the file itself is missing, the read-only open fails first, and sqlitemap raises "Cannot open database" followed by SQLite's error message (`Errors.CheckOk`). `get_tablenames`'s own "File <file> does not exist" is not reached from connect().
- Facade.SqliteMap.Close models close() as corrected under "## Findings": it commits any open transaction. close() as written commits only when auto-commit is on, and `Transactions.CloseAsWritten` models that. Both rely on SQLite rolling back a transaction that is still open when the connection closes. The destructor calls close() and is not modelled separately. Removing the temporary file, and what other connections to the same file see before the close, are not modelled.
- Facade.SqliteMap.Terminate: only the read-only refusal is modelled. Closing the connection and deleting the file are I/O.
- Reverse iteration (`rbegin` and friends, `ORDER BY ROWID DESC`) and the const and `c`-prefixed iterator accessors are not modelled. They differ from the modelled accessors only in the query text or in constness.
- Row order: the queries have no ORDER BY, so SQLite promises no order. The model fixes one: a sequence in which REPLACE moves the key to the end. That is rowid order, which a full scan of the table follows when the key is not the rowid. It is not what SQLite returns in two cases. A key declared `INTEGER PRIMARY KEY`, the storage class of integer keys, is the rowid itself, so rows come back in ascending key order. And a query SQLite answers from the key's automatic index, such as `SELECT key FROM :table` with a TEXT key, returns keys in index order. So the order, but not the set of rows or how keys pair with values, in the contracts of Table.Rows, Table.Keys, Table.Values, Facade.SqliteMap.Begin, Facade.SqliteMap.KeysBegin, Facade.SqliteMap.ValuesBegin and the iteration lemmas holds only for the model's order.
- Several things depend on the clock, randomness, the SQLite engine or the file system, and are left out:
  - temporary file naming, which uses randomness and the clock;
  - `get_tablenames`;
  - the type-affinity coercion SQLite applies when a table is reopened with other codecs.
- value_ref's conversion to the value and its comparison are not modelled. They only read the cached copy (`Facade.ValueRef.val`).
- The logger's mutex and the text written to stdout and stderr are left out. The model records only which stream a message goes to.
- `details::as_string_or` is a parameter of the map (`describe`): the text of a key in get()'s error message. Its fallback to the type name is compiler-dependent.
- Floating-point codecs and BLOB values are not modelled. Values and keys are generic in the facade.
- Codec objects inside the configuration are not modelled: the map works on decoded keys and values. `TestCodecs.Codec` stands for the `codec` struct only for the identity codecs.
- TestCodecs.EncodeKey: requires key <= INT_MAX - 1000, because above it `key + 1000` overflows, which C++ leaves undefined.
- TestCodecs.DecodeVariant: a number outside int is read as Failure(OutOfRange). std::atoi's result is undefined there.
- TestCodecs.DecodeKey: returns an unbounded integer. std::atoi's result is undefined for a number outside int, and `atoi(...) - 1000` overflows within 1000 of INT_MIN. The model returns such values as read and subtracted, rather than modelling the undefined behaviour.
- CustomTypes.FeatureRoundTrip: requires a title without `"`, because from_string stops the title at the first double quote.
- CustomTypes.FieldStart: requires the label to be shorter than 2^64, the width of size_t. npos arithmetic is modelled modulo 2^64.
- LazyResult.LazyResult.Get: requires a live statement that ends without error to have a row at the index. Stepping a statement again after SQLITE_DONE has been finalized is undefined.
- MapIterator.MapIterator.Deref: requires the iterator to have an index. Dereferencing the end iterator reads through a null pointer.

## Findings

| source | as written | input that shows it | evidently intended | confidence | as-written member | corrected member |
|---|---|---|---|---|---|---|
| include/bw/sqlitemap/sqlitemap.hpp:1093-1098 | post-increment increments a copy and returns the copy, so the iterator itself never moves | any non-empty map, `for (auto it = m.begin(); it != m.end(); it++)` | advance the iterator and return its previous position | not executed | MapIterator.PostIncrementLoopNeverEnds | MapIterator.PostIncrementLoopEnds |
| include/bw/sqlitemap/sqlitemap.hpp:1225-1230 | const_sqlitemap_iterator's operator+ increments the wrapped iterator itself, then returns a copy | `auto a = m.cbegin(); auto b = a + 1;` leaves `a` on row 1 | return an advanced copy and leave the iterator unchanged, as sqlitemap_iterator's operator+ does | not executed | MapIterator.MapIterator.ConstPlusAsWritten | MapIterator.MapIterator.Plus |
| include/bw/sqlitemap/sqlitemap.hpp:2006-2011 | close() commits only when auto-commit is on. With auto-commit off, set() and del() leave a transaction open, and closing the connection rolls it back | two connections to one file, both with auto_commit(false): set k1, k2 and k3 on the first, close it, and the second still sees an empty table. The test at test/catch2/unit_tests/sqlitemap_core_tests.cpp:1395-1416 expects size 3 | commit any open transaction before closing, whatever auto-commit says | not executed | Transactions.CloseAsWrittenLosesWrites | Transactions.CloseKeepsWrites |
