/**
 * LogManager: level filtering, the fixed line layout "[timestamp] [LEVEL] [category] message", and
 * the console/file output switches. The clock, the console and the file system are outside the
 * model: the timestamp is a parameter, and the lines each target receives are kept as sequences.
 */
module Logging {
  import opened Wrappers

  /** `LogLevel`, in increasing severity. */
  datatype LogLevel = DEBUG | INFO | WARNING | ERROR | CRITICAL

  /** The enum's integer value, which the filters compare. */
  function Rank(level: LogLevel): (r: nat)
    ensures r <= 4
  {
    match level
    case DEBUG => 0
    case INFO => 1
    case WARNING => 2
    case ERROR => 3
    case CRITICAL => 4
  }

  /** DEBUG=0 < INFO=1 < WARNING=2 < ERROR=3 < CRITICAL=4, and no two levels share a value. */
  lemma RankOrder(a: LogLevel, b: LogLevel)
    ensures Rank(DEBUG) == 0 && Rank(INFO) == 1 && Rank(WARNING) == 2 && Rank(ERROR) == 3 && Rank(CRITICAL) == 4
    ensures Rank(a) == Rank(b) ==> a == b
  {
  }

  /** `LogLevelToString`: the fixed-width tag of a level. */
  function LogLevelToString(level: LogLevel): (r: string)
    ensures |r| == 5
  {
    match level
    case DEBUG => "DEBUG"
    case INFO => "INFO "
    case WARNING => "WARN "
    case ERROR => "ERROR"
    case CRITICAL => "CRIT "
  }

  /** The level a tag stands for, if it is one of the five. */
  function LevelOfTag(tag: string): Option<LogLevel>
  {
    if tag == "DEBUG" then Some(DEBUG)
    else if tag == "INFO " then Some(INFO)
    else if tag == "WARN " then Some(WARNING)
    else if tag == "ERROR" then Some(ERROR)
    else if tag == "CRIT " then Some(CRITICAL)
    else None
  }

  /** Every tag reads back as its level, so no two levels print the same tag. */
  lemma TagRoundTrip(level: LogLevel)
    ensures LevelOfTag(LogLevelToString(level)) == Some(level)
  {
  }

  /** The line Log emits. */
  function FormatLine(timestamp: string, level: LogLevel, category: string, message: string): string
  {
    "[" + timestamp + "] [" + LogLevelToString(level) + "] [" + category + "] " + message
  }

  /**
   * The fields of a formatted line sit at fixed places: the timestamp after the first '[', the tag
   * five characters wide after "] [", then the category, and the message unchanged at the end.
   */
  lemma {:induction false} FormatLineFields(timestamp: string, level: LogLevel, category: string, message: string)
    ensures var line, t := FormatLine(timestamp, level, category, message), |timestamp|;
      |line| == 14 + t + |category| + |message|
      && line[0] == '[' && line[1 .. 1 + t] == timestamp
      && line[1 + t .. 4 + t] == "] [" && line[4 + t .. 9 + t] == LogLevelToString(level)
      && line[9 + t .. 12 + t] == "] [" && line[12 + t .. 12 + t + |category|] == category
      && line[|line| - |message| - 2 .. |line| - |message|] == "] "
      && line[|line| - |message| ..] == message
  {
    var line := FormatLine(timestamp, level, category, message);
    var t := |timestamp|;
    var tag := LogLevelToString(level);
    var a := "[" + timestamp + "] [";
    var b := a + tag + "] [";
    var c := b + category + "] ";
    assert line == c + message;
    assert c == b + category + "] " && b == a + tag + "] [";
    assert |a| == 4 + t && |b| == 12 + t && |c| == 14 + t + |category|;
    assert line[..|c|] == c;
    assert c[..|b|] == b && b[..|a|] == a;
    assert line[1 .. 1 + t] == a[1 .. 1 + t];
    assert line[4 + t .. 9 + t] == b[4 + t .. 9 + t];
    assert line[12 + t .. 12 + t + |category|] == c[12 + t .. 12 + t + |category|];
  }

  /** Whether a message at `level` passes the `min` threshold (`level >= min_log_level_`). */
  predicate Passes(level: LogLevel, min: LogLevel)
  {
    Rank(level) >= Rank(min)
  }

  /** A message that passes a threshold passes every lower one, and every more severe message passes too. */
  lemma PassesMonotone(level: LogLevel, higher: LogLevel, min: LogLevel, lower: LogLevel)
    requires Passes(level, min) && Rank(level) <= Rank(higher) && Rank(lower) <= Rank(min)
    ensures Passes(higher, min) && Passes(level, lower)
  {
  }

  /**
   * The filter-and-format part of Log for one target: the formatted line once when the message
   * passes the threshold and the target is on, nothing otherwise.
   */
  function Output(min: LogLevel, target: bool, level: LogLevel, timestamp: string, category: string, message: string): (r: seq<string>)
    ensures |r| <= 1
    ensures r != [] <==> target && Rank(level) >= Rank(min)
    ensures r != [] ==> r[0] == FormatLine(timestamp, level, category, message)
  {
    if Passes(level, min) && target then [FormatLine(timestamp, level, category, message)] else []
  }

  /** The default name SetFileOutput makes from the current time when given none. */
  function DefaultFileName(stamp: string): string
  {
    "mmorpg_server_" + stamp + ".log"
  }

  class LogManager {
    /** `min_log_level_`, `console_output_`, `file_output_`, `log_filename_`, and whether `log_file_` is open. */
    var minLevel: LogLevel
    var consoleOutput: bool
    var fileOutput: bool
    var fileName: string
    var fileOpen: bool
    /** The lines written to the console, and to log files, so far. */
    var console: seq<string>
    var fileLines: seq<string>

    /** The logger starts at INFO with the console on and the file off. */
    constructor ()
      ensures minLevel == INFO && consoleOutput && !fileOutput && !fileOpen
      ensures fileName == "" && console == [] && fileLines == []
    {
      minLevel := INFO;
      consoleOutput := true;
      fileOutput := false;
      fileName := "";
      fileOpen := false;
      console := [];
      fileLines := [];
    }

    method SetLogLevel(level: LogLevel)
      modifies this
      ensures minLevel == level
      ensures consoleOutput == old(consoleOutput) && fileOutput == old(fileOutput) && fileName == old(fileName)
      ensures fileOpen == old(fileOpen) && console == old(console) && fileLines == old(fileLines)
    {
      minLevel := level;
    }

    method SetConsoleOutput(enabled: bool)
      modifies this
      ensures consoleOutput == enabled
      ensures minLevel == old(minLevel) && fileOutput == old(fileOutput) && fileName == old(fileName)
      ensures fileOpen == old(fileOpen) && console == old(console) && fileLines == old(fileLines)
    {
      consoleOutput := enabled;
    }

    /**
     * `SetFileOutput`: enabling closes any open file, picks the given name (or the default one made
     * from `stamp` when it is empty) and opens it for appending; when that open fails (`opens` is
     * false) file output ends up off. Disabling turns file output off and closes any open file.
     */
    method SetFileOutput(enabled: bool, filename: string, stamp: string, opens: bool)
      modifies this
      ensures enabled ==> fileName == (if filename == "" then DefaultFileName(stamp) else filename)
      ensures enabled ==> fileOpen == opens && fileOutput == opens
      ensures !enabled ==> !fileOutput && !fileOpen && fileName == old(fileName)
      ensures minLevel == old(minLevel) && consoleOutput == old(consoleOutput)
      ensures console == old(console) && fileLines == old(fileLines)
    {
      fileOutput := enabled;
      if enabled {
        if fileOpen {
          fileOpen := false;
        }
        if filename == "" {
          fileName := DefaultFileName(stamp);
        } else {
          fileName := filename;
        }
        fileOpen := opens;
        if !fileOpen {
          fileOutput := false;
        }
      } else {
        if fileOpen {
          fileOpen := false;
        }
      }
    }

    /** The lines one Log call at `level` adds, and that nothing else changes. */
    twostate predicate LoggedAt(level: LogLevel, category: string, message: string, timestamp: string)
      reads this
    {
      && console == old(console) + Output(old(minLevel), old(consoleOutput), level, timestamp, category, message)
      && fileLines == old(fileLines) + Output(old(minLevel), old(fileOutput) && old(fileOpen), level, timestamp, category, message)
      && minLevel == old(minLevel) && consoleOutput == old(consoleOutput) && fileOutput == old(fileOutput)
      && fileName == old(fileName) && fileOpen == old(fileOpen)
    }

    /**
     * `Log`: nothing below the threshold; otherwise the formatted line goes to the console when it
     * is on and to the file when file output is on and the file is open.
     */
    method Log(level: LogLevel, category: string, message: string, timestamp: string)
      modifies this
      ensures LoggedAt(level, category, message, timestamp)
      ensures Rank(level) < Rank(old(minLevel)) ==> console == old(console) && fileLines == old(fileLines)
    {
      if Rank(level) < Rank(minLevel) {
        return;
      }
      var line := "[" + timestamp + "] [" + LogLevelToString(level) + "] [" + category + "] " + message;
      if consoleOutput {
        console := console + [line];
      }
      if fileOutput && fileOpen {
        fileLines := fileLines + [line];
      }
    }

    method Debug(category: string, message: string, timestamp: string)
      modifies this
      ensures LoggedAt(DEBUG, category, message, timestamp)
    {
      Log(DEBUG, category, message, timestamp);
    }

    method Info(category: string, message: string, timestamp: string)
      modifies this
      ensures LoggedAt(INFO, category, message, timestamp)
    {
      Log(INFO, category, message, timestamp);
    }

    method Warning(category: string, message: string, timestamp: string)
      modifies this
      ensures LoggedAt(WARNING, category, message, timestamp)
    {
      Log(WARNING, category, message, timestamp);
    }

    method Error(category: string, message: string, timestamp: string)
      modifies this
      ensures LoggedAt(ERROR, category, message, timestamp)
    {
      Log(ERROR, category, message, timestamp);
    }

    method Critical(category: string, message: string, timestamp: string)
      modifies this
      ensures LoggedAt(CRITICAL, category, message, timestamp)
    {
      Log(CRITICAL, category, message, timestamp);
    }

    /** The overload without arguments: the format text is logged as it is. */
    method LogFormat(level: LogLevel, category: string, format: string, timestamp: string)
      modifies this
      ensures LoggedAt(level, category, format, timestamp)
    {
      Log(level, category, format, timestamp);
    }

    method DebugFormat(category: string, format: string, timestamp: string)
      modifies this
      ensures LoggedAt(DEBUG, category, format, timestamp)
    {
      Log(DEBUG, category, format, timestamp);
    }

    method InfoFormat(category: string, format: string, timestamp: string)
      modifies this
      ensures LoggedAt(INFO, category, format, timestamp)
    {
      Log(INFO, category, format, timestamp);
    }

    method WarningFormat(category: string, format: string, timestamp: string)
      modifies this
      ensures LoggedAt(WARNING, category, format, timestamp)
    {
      Log(WARNING, category, format, timestamp);
    }

    method ErrorFormat(category: string, format: string, timestamp: string)
      modifies this
      ensures LoggedAt(ERROR, category, format, timestamp)
    {
      Log(ERROR, category, format, timestamp);
    }

    method CriticalFormat(category: string, format: string, timestamp: string)
      modifies this
      ensures LoggedAt(CRITICAL, category, format, timestamp)
    {
      Log(CRITICAL, category, format, timestamp);
    }

    /**
     * The templated `LogFormat`: `formatted` stands for what FormatString makes of the format and
     * its arguments, which is only worked out when the level passes; below the threshold nothing
     * happens at all.
     */
    method LogFormatArgs(level: LogLevel, category: string, formatted: string, timestamp: string)
      modifies this
      ensures LoggedAt(level, category, formatted, timestamp)
      ensures !Passes(level, old(minLevel)) ==> console == old(console) && fileLines == old(fileLines)
    {
      if Rank(level) >= Rank(minLevel) {
        Log(level, category, formatted, timestamp);
      }
    }

    method DebugFormatArgs(category: string, formatted: string, timestamp: string)
      modifies this
      ensures LoggedAt(DEBUG, category, formatted, timestamp)
    {
      LogFormatArgs(DEBUG, category, formatted, timestamp);
    }

    method InfoFormatArgs(category: string, formatted: string, timestamp: string)
      modifies this
      ensures LoggedAt(INFO, category, formatted, timestamp)
    {
      LogFormatArgs(INFO, category, formatted, timestamp);
    }

    method WarningFormatArgs(category: string, formatted: string, timestamp: string)
      modifies this
      ensures LoggedAt(WARNING, category, formatted, timestamp)
    {
      LogFormatArgs(WARNING, category, formatted, timestamp);
    }

    method ErrorFormatArgs(category: string, formatted: string, timestamp: string)
      modifies this
      ensures LoggedAt(ERROR, category, formatted, timestamp)
    {
      LogFormatArgs(ERROR, category, formatted, timestamp);
    }

    method CriticalFormatArgs(category: string, formatted: string, timestamp: string)
      modifies this
      ensures LoggedAt(CRITICAL, category, formatted, timestamp)
    {
      LogFormatArgs(CRITICAL, category, formatted, timestamp);
    }
  }

  /** With the defaults, INFO and above reach the console and DEBUG is dropped; nothing reaches a file. */
  method DefaultsFilterDebug() returns (console: seq<string>, fileLines: seq<string>)
    ensures console == [FormatLine("t1", INFO, "Net", "up")]
    ensures fileLines == []
  {
    var log := new LogManager();
    log.Debug("Net", "noise", "t0");
    log.Info("Net", "up", "t1");
    console, fileLines := log.console, log.fileLines;
  }
}
