/** AuthServer: the log-level setting, its reload, and the reply each packet type gets. */
module Auth {
  import opened Bytes
  import opened Wrappers
  import opened Protocol
  import opened Registry
  import opened Replies
  import opened Logging

  /** The configuration spelling of each level. */
  function LevelName(level: LogLevel): string
  {
    match level
    case DEBUG => "DEBUG"
    case INFO => "INFO"
    case WARNING => "WARNING"
    case ERROR => "ERROR"
    case CRITICAL => "CRITICAL"
  }

  /** `StringToLogLevel`: the five exact upper-case names, and INFO for anything else. */
  function StringToLogLevel(s: string): LogLevel
  {
    if s == "DEBUG" then DEBUG
    else if s == "INFO" then INFO
    else if s == "WARNING" then WARNING
    else if s == "ERROR" then ERROR
    else if s == "CRITICAL" then CRITICAL
    else INFO
  }

  /**
   * A level's own name maps back to it, and a string that is no level's name maps to INFO; so a
   * level other than INFO comes out exactly for its own name.
   */
  lemma StringToLogLevelSpec(s: string, level: LogLevel)
    ensures StringToLogLevel(LevelName(level)) == level
    ensures (forall l: LogLevel :: s != LevelName(l)) ==> StringToLogLevel(s) == INFO
    ensures level != INFO ==> (StringToLogLevel(s) == level <==> s == LevelName(level))
  {
    if forall l: LogLevel :: s != LevelName(l) {
      assert s != LevelName(DEBUG) && s != LevelName(WARNING) && s != LevelName(ERROR) && s != LevelName(CRITICAL);
    }
  }

  /** Matching is exact: lower-case or padded spellings fall back to INFO. */
  lemma StringToLogLevelExact()
    ensures StringToLogLevel("debug") == INFO && StringToLogLevel("Error") == INFO
    ensures StringToLogLevel("WARNING ") == INFO && StringToLogLevel("") == INFO
  {
  }

  /** The fixed reply texts. */
  const EchoResponse: Narrow := "AUTH_ECHO_RESPONSE"
  const AuthSuccess: Narrow := "AUTH_SUCCESS"

  /**
   * `HandlePacket`: ECHO is answered with ECHO "AUTH_ECHO_RESPONSE", AUTH_REQUEST with
   * AUTH_RESPONSE "AUTH_SUCCESS"; any other type is only logged.
   */
  function HandlePacket(p: Packet): (sends: seq<Outgoing>)
    ensures Sendable(sends)
  {
    match TypeOf(p.ptype)
    case Some(ECHO) => [Reply(ECHO, EchoResponse)]
    case Some(AUTH_REQUEST) => [Reply(AUTH_RESPONSE, AuthSuccess)]
    case _ => []
  }

  /** Exactly the two request types get an answer, always one reply to the sender that reads back as sent. */
  lemma HandlePacketReplies(p: Packet)
    ensures HandlePacket(p) != [] <==> p.ptype == Code(ECHO) || p.ptype == Code(AUTH_REQUEST)
    ensures p.ptype == Code(ECHO) ==>
              |HandlePacket(p)| == 1 && HandlePacket(p)[0].ToClient? && Carries(HandlePacket(p)[0], ECHO, EchoResponse)
    ensures p.ptype == Code(AUTH_REQUEST) ==>
              |HandlePacket(p)| == 1 && HandlePacket(p)[0].ToClient? && Carries(HandlePacket(p)[0], AUTH_RESPONSE, AuthSuccess)
  {
    ReplyCarries(ECHO, EchoResponse);
    ReplyCarries(AUTH_RESPONSE, AuthSuccess);
    CodeTypeOf(p.ptype, ECHO);
    CodeTypeOf(p.ptype, AUTH_REQUEST);
  }

  class AuthServer {
    /** `log_level_`: the configured level name. */
    var logLevel: string

    constructor (configured: string)
      ensures logLevel == configured
    {
      logLevel := configured;
    }

    /**
     * `ReloadConfig`: when the configuration reloads (`loaded`) and names a different level, the
     * name is kept and the logger's threshold is set from it; otherwise nothing changes.
     */
    method ReloadConfig(loaded: bool, newLevel: string, log: LogManager)
      modifies this, log
      ensures loaded ==> logLevel == newLevel
      ensures !loaded ==> logLevel == old(logLevel)
      ensures log.minLevel == if loaded && newLevel != old(logLevel) then StringToLogLevel(newLevel) else old(log.minLevel)
      ensures log.consoleOutput == old(log.consoleOutput) && log.fileOutput == old(log.fileOutput)
      ensures log.fileOpen == old(log.fileOpen) && log.fileName == old(log.fileName)
    {
      if loaded {
        if newLevel != logLevel {
          logLevel := newLevel;
          log.SetLogLevel(StringToLogLevel(logLevel));
        }
      }
    }
  }
}
