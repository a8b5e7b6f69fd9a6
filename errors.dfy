/**
 * The exceptions sqlitemap raises and the return-code checks that turn a
 * failed SQLite call into a `sqlitemap_error`.
 */
module Errors {
  import opened Wrappers
  import opened Text

  /** SQLite primary result codes used by the library. */
  const SQLITE_OK: int := 0
  const SQLITE_ERROR: int := 1
  const SQLITE_ROW: int := 100
  const SQLITE_DONE: int := 101

  /** Every `what()` of a sqlitemap_error starts with this. */
  const ERROR_PREFIX: string := "sqlitemap_error - "

  /**
   * The exceptions leaving the library: sqlitemap_error (built from a message),
   * std::range_error and std::out_of_range.
   */
  datatype Error =
    | SqlitemapError(message: string)
    | RangeError(message: string)
    | OutOfRange(message: string)

  /** The text std::exception::what() returns. */
  function What(e: Error): (w: string)
    ensures e.SqlitemapError? ==> w == ERROR_PREFIX + e.message
    ensures !e.SqlitemapError? ==> w == e.message
  {
    match e
    case SqlitemapError(m) => ERROR_PREFIX + m
    case RangeError(m) => m
    case OutOfRange(m) => m
  }

  /** The message used when the caller gave none. */
  const DEFAULT_MESSAGE_HEAD: string := "Statement failed. Expect return code "

  function DefaultMessage(rc: int, expected: int): (m: string)
    ensures |m| > |DEFAULT_MESSAGE_HEAD| && m[..|DEFAULT_MESSAGE_HEAD|] == DEFAULT_MESSAGE_HEAD
    ensures |m| > |IntToString(rc)| && m[|m| - |IntToString(rc)|..] == IntToString(rc)
    ensures |m| == |DEFAULT_MESSAGE_HEAD| + |IntToString(expected)| + |" but was "| + |IntToString(rc)|
    ensures m[|DEFAULT_MESSAGE_HEAD|..|DEFAULT_MESSAGE_HEAD| + |IntToString(expected)|] == IntToString(expected)
    ensures m[|DEFAULT_MESSAGE_HEAD| + |IntToString(expected)|..|m| - |IntToString(rc)|] == " but was "
  {
    DEFAULT_MESSAGE_HEAD + IntToString(expected) + " but was " + IntToString(rc)
  }

  /**
   * require_return_code: passes when `rc` is the expected code, otherwise raises a
   * sqlitemap_error. `errmsg` is sqlite3_errmsg of the connection when one was
   * passed (None for a null connection).
   */
  function RequireReturnCode(rc: int, expected: int, message: string, errmsg: Option<string>): (r: Outcome<Error>)
    ensures r.Pass? <==> rc == expected
    ensures r.Fail? ==> r.error.SqlitemapError?
    ensures r.Fail? && message != [] ==> message <= r.error.message
    ensures r.Fail? && message == [] ==> DefaultMessage(rc, expected) <= r.error.message
    ensures r.Fail? && errmsg.None? && message != [] ==> r.error.message == message
    ensures r.Fail? && errmsg.Some? ==> EndsWith(r.error.message, " - sqlite3_errmsg: " + errmsg.value)
    ensures r.Fail? ==> |r.error.message| == |(if message == [] then DefaultMessage(rc, expected) else message)|
                                             + (if errmsg.Some? then |" - sqlite3_errmsg: "| + |errmsg.value| else 0)
  {
    if rc == expected then Pass
    else
      var msg := if message == [] then DefaultMessage(rc, expected) else message;
      match errmsg
      case None => Fail(SqlitemapError(msg))
      case Some(m) =>
        var suffix := " - sqlite3_errmsg: " + m;
        assert (msg + suffix)[|msg|..] == suffix;
        Fail(SqlitemapError(msg + suffix))
  }

  function CheckOk(rc: int, message: string, errmsg: Option<string>): (r: Outcome<Error>)
    ensures r.Pass? <==> rc == SQLITE_OK
  {
    RequireReturnCode(rc, SQLITE_OK, message, errmsg)
  }

  function CheckDone(rc: int, message: string, errmsg: Option<string>): (r: Outcome<Error>)
    ensures r.Pass? <==> rc == SQLITE_DONE
  {
    RequireReturnCode(rc, SQLITE_DONE, message, errmsg)
  }

  /** The default message names both codes, so different failures read differently. */
  lemma DefaultMessageDistinguishesCodes(rc1: int, rc2: int, expected: int)
    requires DefaultMessage(rc1, expected) == DefaultMessage(rc2, expected)
    ensures rc1 == rc2
  {
    var p := "Statement failed. Expect return code " + IntToString(expected) + " but was ";
    assert DefaultMessage(rc1, expected) == p + IntToString(rc1);
    assert DefaultMessage(rc2, expected) == p + IntToString(rc2);
    assert IntToString(rc1) == DefaultMessage(rc1, expected)[|p|..];
    IntToStringInjective(rc1, rc2);
  }

  /** check_ok(SQLITE_ERROR) without a message or connection. */
  lemma CheckOkFailureMessage()
    ensures CheckOk(SQLITE_ERROR, "", None) ==
      Fail(SqlitemapError("Statement failed. Expect return code 0 but was 1"))
  {
    assert IntToString(0) == "0";
    assert IntToString(1) == "1";
    assert DefaultMessage(SQLITE_ERROR, SQLITE_OK) == "Statement failed. Expect return code 0 but was 1";
  }

  /** check_done(SQLITE_ERROR) without a message or connection. */
  lemma CheckDoneFailureMessage()
    ensures CheckDone(SQLITE_ERROR, "", None) ==
      Fail(SqlitemapError("Statement failed. Expect return code 101 but was 1"))
  {
    assert IntToString(101) == "101" by {
      assert NatToString(10) == "10";
    }
    assert IntToString(1) == "1";
    assert DefaultMessage(SQLITE_ERROR, SQLITE_DONE) == "Statement failed. Expect return code 101 but was 1";
  }
}
