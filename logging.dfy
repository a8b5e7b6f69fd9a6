/**
 * The library's logger: a severity threshold and an optional user-supplied
 * sink. Messages below the threshold are dropped; the rest go to the custom
 * sink when one is registered, otherwise errors and warnings go to the
 * standard error stream and everything else to standard output.
 */
module Logging {

  /** log_level, ordered by its numeric value. */
  datatype LogLevel = Off | Error | Warn | Info | Debug | Trace {
    function Value(): (v: int)
      ensures 1000 <= v <= 6000 && v % 1000 == 0
      ensures this == Off <==> v == 6000
      ensures this == Error <==> v == 5000
      ensures this == Warn <==> v == 4000
      ensures this == Info <==> v == 3000
      ensures this == Debug <==> v == 2000
      ensures this == Trace <==> v == 1000
    {
      match this
      case Off => 6000
      case Error => 5000
      case Warn => 4000
      case Info => 3000
      case Debug => 2000
      case Trace => 1000
    }
  }

  /** Where one call of log() sends its message. */
  datatype Delivery =
    | Dropped
    | ToCustom(level: LogLevel, msg: string)
    | ToStdErr(msg: string)
    | ToStdOut(msg: string)

  /** The decision log() takes for a message of `level` under `threshold`. */
  function Dispatch(threshold: LogLevel, hasCustom: bool, level: LogLevel, msg: string): (d: Delivery)
    ensures d.Dropped? <==> level.Value() < threshold.Value()
    ensures !d.Dropped? && hasCustom ==> d == ToCustom(level, msg)
    ensures !d.Dropped? && !hasCustom ==>
      (d.ToStdErr? <==> level == Error || level == Warn) && (d.ToStdErr? || d.ToStdOut?) && d.msg == msg
  {
    if level.Value() < threshold.Value() then Dropped
    else if hasCustom then ToCustom(level, msg)
    else if level == Error || level == Warn then ToStdErr(msg)
    else ToStdOut(msg)
  }

  class Logger {
    /** custom_log_level */
    var threshold: LogLevel
    /** Whether a non-empty custom_log_impl is registered. */
    var hasCustom: bool

    constructor()
      ensures threshold == Debug && !hasCustom
    {
      threshold := Debug;
      hasCustom := false;
    }

    method SetLevel(level: LogLevel)
      modifies this
      ensures threshold == level && hasCustom == old(hasCustom)
    {
      threshold := level;
    }

    /** register_log_impl; an empty std::function leaves the default sink in use. */
    method RegisterLogImpl(nonEmpty: bool)
      modifies this
      ensures hasCustom == nonEmpty && threshold == old(threshold)
    {
      hasCustom := nonEmpty;
    }

    function Log(level: LogLevel, msg: string): (d: Delivery)
      reads this
      ensures d.Dropped? <==> level.Value() < threshold.Value()
      ensures !d.Dropped? && hasCustom ==> d == ToCustom(level, msg)
    {
      Dispatch(threshold, hasCustom, level, msg)
    }
  }

  /** The severities in increasing order: trace, debug, info, warn, error, off. */
  lemma LevelOrder()
    ensures Trace.Value() < Debug.Value() < Info.Value() < Warn.Value() < Error.Value() < Off.Value()
  {
  }

  /** Different levels have different values, so a level is known by its value. */
  lemma {:induction false} ValueInjective(a: LogLevel, b: LogLevel)
    requires a.Value() == b.Value()
    ensures a == b
  {
  }

  /** A higher threshold never lets through a message a lower one drops. */
  lemma ThresholdMonotone(lower: LogLevel, higher: LogLevel, hasCustom: bool, level: LogLevel, msg: string)
    requires lower.Value() <= higher.Value()
    ensures Dispatch(lower, hasCustom, level, msg).Dropped? ==> Dispatch(higher, hasCustom, level, msg).Dropped?
  {
  }

  /** Under `off` (the configuration default) every message of a real severity is dropped. */
  lemma OffSilences(hasCustom: bool, level: LogLevel, msg: string)
    requires level != Off
    ensures Dispatch(Off, hasCustom, level, msg) == Dropped
  {
  }

  /** Under `trace` nothing is dropped. */
  lemma TraceDeliversAll(hasCustom: bool, level: LogLevel, msg: string)
    ensures Dispatch(Trace, hasCustom, level, msg) != Dropped
  {
  }

  /** The custom sink of the logger test: severities above info are errors. */
  function TestSink(level: LogLevel, msg: string): string {
    if level.Value() > Info.Value() then "ERROR:" + msg else "INFO:" + msg
  }

  /**
   * A logger at level debug with a custom sink: error, info and debug reach the
   * sink (with the test sink's prefixes), trace is dropped.
   */
  lemma CustomDebugLogger(lg: Logger, msg: string)
    requires lg.threshold == Debug && lg.hasCustom
    ensures lg.Log(Error, msg) == ToCustom(Error, msg) && TestSink(Error, msg) == "ERROR:" + msg
    ensures lg.Log(Info, msg) == ToCustom(Info, msg) && TestSink(Info, msg) == "INFO:" + msg
    ensures lg.Log(Debug, msg) == ToCustom(Debug, msg) && TestSink(Debug, msg) == "INFO:" + msg
    ensures lg.Log(Trace, msg) == Dropped
  {
  }
}
