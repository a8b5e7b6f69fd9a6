/**
 * The connection settings of a sqlitemap: file, table, operation mode,
 * auto-commit, log level, custom log sink and the PRAGMA statements run
 * right after the database is opened.
 */
module Configuration {
  import opened Text
  import opened Logging

  /** operation_mode */
  datatype OperationMode =
    | C   // read/write, create the table if missing (the default)
    | R   // read-only
    | W   // read/write, drop the table contents first
    | N   // a new database file: existing file removed first

  const DEFAULT_FILENAME: string := ""
  const DEFAULT_TABLE: string := "unnamed"
  const PRAGMA_PREFIX: string := "PRAGMA "

  /** `s` starts with "PRAGMA " in any letter case. */
  predicate HasPragmaPrefix(s: string) {
    |s| >= |PRAGMA_PREFIX| && EqualIgnoringCase(s[..|PRAGMA_PREFIX|], PRAGMA_PREFIX)
  }

  /**
   * The statement configuration::pragma(statement) stores: the statement itself
   * when it already starts with the prefix (any case), otherwise the prefix
   * followed by the statement.
   */
  function NormalizePragma(statement: string): (r: string)
    ensures HasPragmaPrefix(r)
    ensures HasPragmaPrefix(statement) ==> r == statement
    ensures !HasPragmaPrefix(statement) ==> r == PRAGMA_PREFIX + statement
  {
    if |statement| < |PRAGMA_PREFIX| || !EqualIgnoringCase(statement[..|PRAGMA_PREFIX|], PRAGMA_PREFIX) then
      assert (PRAGMA_PREFIX + statement)[..|PRAGMA_PREFIX|] == PRAGMA_PREFIX;
      PRAGMA_PREFIX + statement
    else
      statement
  }

  /** The statement configuration::pragma(flag, value) builds. */
  function PragmaAssignment(flag: string, value: string): (r: string)
    ensures |r| == |PRAGMA_PREFIX| + |flag| + 3 + |value|
    ensures r[..|PRAGMA_PREFIX|] == PRAGMA_PREFIX && r[|PRAGMA_PREFIX|..|PRAGMA_PREFIX| + |flag|] == flag
    ensures r[|r| - |value| - 3..] == " = " + value
  {
    PRAGMA_PREFIX + flag + " = " + value
  }

  /** Normalizing twice changes nothing more. */
  lemma NormalizePragmaIdempotent(statement: string)
    ensures NormalizePragma(NormalizePragma(statement)) == NormalizePragma(statement)
  {
  }

  /** A flag/value pragma is stored exactly as "PRAGMA <flag> = <value>". */
  lemma PragmaAssignmentKept(flag: string, value: string)
    ensures NormalizePragma(PragmaAssignment(flag, value)) == PragmaAssignment(flag, value)
  {
    assert PragmaAssignment(flag, value)[..|PRAGMA_PREFIX|] == PRAGMA_PREFIX;
  }

  /** A statement written with a lower-case prefix is kept as written. */
  lemma LowerCasePrefixKept(rest: string)
    ensures NormalizePragma("pragma " + rest) == "pragma " + rest
  {
    var s := "pragma " + rest;
    assert s[..|PRAGMA_PREFIX|] == "pragma ";
    assert EqualIgnoringCase("pragma ", PRAGMA_PREFIX);
  }

  class Configuration {
    var filename: string
    var table: string
    var mode: OperationMode
    var autoCommit: bool
    var logLevel: LogLevel
    /** Whether a non-empty log_impl was set. */
    var hasLogImpl: bool
    var pragmas: seq<string>

    /** Every stored pragma statement starts with the prefix. */
    predicate Valid()
      reads this
    {
      forall i :: 0 <= i < |pragmas| ==> HasPragmaPrefix(pragmas[i])
    }

    /** config(): the defaults. */
    constructor()
      ensures Valid()
      ensures filename == DEFAULT_FILENAME && table == DEFAULT_TABLE && mode == C
      ensures !autoCommit && logLevel == Off && !hasLogImpl && pragmas == []
    {
      filename := DEFAULT_FILENAME;
      table := DEFAULT_TABLE;
      mode := C;
      autoCommit := false;
      logLevel := Off;
      hasLogImpl := false;
      pragmas := [];
    }

    method SetFilename(f: string)
      modifies this
      ensures filename == f
      ensures table == old(table) && mode == old(mode) && autoCommit == old(autoCommit)
      ensures logLevel == old(logLevel) && hasLogImpl == old(hasLogImpl) && pragmas == old(pragmas)
    {
      filename := f;
    }

    method SetTable(t: string)
      modifies this
      ensures table == t
      ensures filename == old(filename) && mode == old(mode) && autoCommit == old(autoCommit)
      ensures logLevel == old(logLevel) && hasLogImpl == old(hasLogImpl) && pragmas == old(pragmas)
    {
      table := t;
    }

    method SetMode(m: OperationMode)
      modifies this
      ensures mode == m
      ensures filename == old(filename) && table == old(table) && autoCommit == old(autoCommit)
      ensures logLevel == old(logLevel) && hasLogImpl == old(hasLogImpl) && pragmas == old(pragmas)
    {
      mode := m;
    }

    method SetAutoCommit(a: bool)
      modifies this
      ensures autoCommit == a
      ensures filename == old(filename) && table == old(table) && mode == old(mode)
      ensures logLevel == old(logLevel) && hasLogImpl == old(hasLogImpl) && pragmas == old(pragmas)
    {
      autoCommit := a;
    }

    method SetLogLevel(l: LogLevel)
      modifies this
      ensures logLevel == l
      ensures filename == old(filename) && table == old(table) && mode == old(mode)
      ensures autoCommit == old(autoCommit) && hasLogImpl == old(hasLogImpl) && pragmas == old(pragmas)
    {
      logLevel := l;
    }

    method SetLogImpl(nonEmpty: bool)
      modifies this
      ensures hasLogImpl == nonEmpty
      ensures filename == old(filename) && table == old(table) && mode == old(mode)
      ensures autoCommit == old(autoCommit) && logLevel == old(logLevel) && pragmas == old(pragmas)
    {
      hasLogImpl := nonEmpty;
    }

    /** pragma(statement): appends the normalized statement. */
    method Pragma(statement: string)
      requires Valid()
      modifies this
      ensures Valid()
      ensures pragmas == old(pragmas) + [NormalizePragma(statement)]
      ensures filename == old(filename) && table == old(table) && mode == old(mode)
      ensures autoCommit == old(autoCommit) && logLevel == old(logLevel) && hasLogImpl == old(hasLogImpl)
    {
      var prefix := PRAGMA_PREFIX;
      if |statement| < |prefix| || !EqualIgnoringCase(statement[..|prefix|], prefix) {
        pragmas := pragmas + [prefix + statement];
      } else {
        pragmas := pragmas + [statement];
      }
    }

    /** pragma(flag, value) */
    method PragmaFlag(flag: string, value: string)
      requires Valid()
      modifies this
      ensures Valid()
      ensures pragmas == old(pragmas) + [PragmaAssignment(flag, value)]
      ensures filename == old(filename) && table == old(table) && mode == old(mode)
      ensures autoCommit == old(autoCommit) && logLevel == old(logLevel) && hasLogImpl == old(hasLogImpl)
    {
      PragmaAssignmentKept(flag, value);
      Pragma(PragmaAssignment(flag, value));
    }

    /** pragma(flag, int value): the value printed by std::to_string. */
    method PragmaInt(flag: string, value: Int32)
      requires Valid()
      modifies this
      ensures Valid()
      ensures pragmas == old(pragmas) + [PragmaAssignment(flag, IntToString(value))]
      ensures filename == old(filename) && table == old(table) && mode == old(mode)
      ensures autoCommit == old(autoCommit) && logLevel == old(logLevel) && hasLogImpl == old(hasLogImpl)
    {
      PragmaFlag(flag, IntToString(value));
    }
  }
}
