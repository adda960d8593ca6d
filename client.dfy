/** The test client: its whitespace tokenizer and the command dispatch of its input loop. */
module Client {

  // ---------------------------------------------------------------------------
  // SplitString
  // ---------------------------------------------------------------------------

  /** The longest prefix of `s` free of `d`. */
  function Word(s: string, d: char): (w: string)
    ensures |w| <= |s| && w == s[..|w|] && d !in w
    ensures |w| < |s| ==> s[|w|] == d
  {
    if s == [] || s[0] == d then [] else [s[0]] + Word(s[1..], d)
  }

  /** The tokens of `s`: the maximal runs of characters other than `d`, in order. */
  function Tokens(s: string, d: char): seq<string>
    decreases |s|
  {
    if s == [] then []
    else if s[0] == d then Tokens(s[1..], d)
    else
      var w := Word(s, d);
      [w] + Tokens(s[|w|..], d)
  }

  /** `s` with every `d` removed. */
  function Remove(s: string, d: char): string
    decreases |s|
  {
    if s == [] then [] else (if s[0] == d then [] else [s[0]]) + Remove(s[1..], d)
  }

  /** The tokens joined back together without separators. */
  function Concat(ts: seq<string>): string
  {
    if ts == [] then [] else ts[0] + Concat(ts[1..])
  }

  lemma {:induction false} WordOf(token: string, rest: string, d: char)
    requires d !in token
    ensures Word(token + rest, d) == token + Word(rest, d)
  {
    if token != [] {
      assert (token + rest)[0] == token[0] && (token + rest)[1..] == token[1..] + rest;
      WordOf(token[1..], rest, d);
      assert token == [token[0]] + token[1..];
    } else {
      assert token + rest == rest;
    }
  }

  /** A delimiter closes the token before it, if there is one. */
  lemma TokensAtDelimiter(token: string, rest: string, d: char)
    requires d !in token
    ensures Tokens(token + [d] + rest, d) == (if token == [] then [] else [token]) + Tokens(rest, d)
  {
    var s := token + [d] + rest;
    if token == [] {
      assert s == [d] + rest && s[1..] == rest;
    } else {
      WordOf(token, [d] + rest, d);
      assert s == token + ([d] + rest);
      assert Word(s, d) == token;
      assert s[|token|..] == [d] + rest;
      assert ([d] + rest)[1..] == rest;
    }
  }

  /** What is left at the end of the input becomes the last token, unless it is empty. */
  lemma TokensOfToken(token: string, d: char)
    requires d !in token
    ensures Tokens(token, d) == if token == [] then [] else [token]
  {
    if token != [] {
      WordOf(token, [], d);
      assert token + [] == token;
      assert token[|token|..] == [];
    }
  }

  /** The state of the scan after the characters of `s`: the closed tokens and the open one. */
  datatype Scan = Scan(tokens: seq<string>, token: string)

  /** What the scan does with one more character. */
  function ScanChar(st: Scan, c: char, d: char): Scan
  {
    if c != d then Scan(st.tokens, st.token + [c])
    else if st.token == [] then st
    else Scan(st.tokens + [st.token], [])
  }

  /** The scan over `s`, from first character to last. */
  function ScanOf(s: string, d: char): Scan
    decreases |s|
  {
    if s == [] then Scan([], []) else ScanChar(ScanOf(s[..|s| - 1], d), s[|s| - 1], d)
  }

  /** A delimiter closes the open token, if there is one, and is dropped. */
  lemma ScanDelimiter(st: Scan, rest: string, d: char)
    requires d !in st.token
    ensures var next := ScanChar(st, d, d);
              next.token == [] && next.tokens + Tokens(rest, d) == st.tokens + Tokens(st.token + ([d] + rest), d)
  {
    TokensAtDelimiter(st.token, rest, d);
    assert st.token + ([d] + rest) == st.token + [d] + rest;
    if st.token != [] {
      assert (st.tokens + [st.token]) + Tokens(rest, d) == st.tokens + ([st.token] + Tokens(rest, d));
    }
  }

  /** One character more: the scan keeps its meaning, over the text that follows the character. */
  lemma ScanCharSpec(st: Scan, c: char, rest: string, d: char)
    requires d !in st.token
    ensures d !in ScanChar(st, c, d).token
    ensures ScanChar(st, c, d).tokens + Tokens(ScanChar(st, c, d).token + rest, d) == st.tokens + Tokens(st.token + ([c] + rest), d)
  {
    var next := ScanChar(st, c, d);
    if c == d {
      ScanDelimiter(st, rest, d);
      assert next.token + rest == rest;
    } else {
      assert next == Scan(st.tokens, st.token + [c]);
      assert next.token + rest == st.token + ([c] + rest);
    }
  }

  /**
   * After any prefix the open token holds no delimiter, and the closed tokens followed by the
   * tokens of the open token and the rest are the tokens of the whole.
   */
  lemma {:induction false} ScanOfSpec(s: string, rest: string, d: char)
    ensures d !in ScanOf(s, d).token
    ensures ScanOf(s, d).tokens + Tokens(ScanOf(s, d).token + rest, d) == Tokens(s + rest, d)
    decreases |s|
  {
    if s == [] {
      assert s + rest == rest;
      assert ScanOf(s, d).token + rest == rest;
    } else {
      var init, c := s[..|s| - 1], s[|s| - 1];
      ScanOfSpec(init, [c] + rest, d);
      ScanCharSpec(ScanOf(init, d), c, rest, d);
      assert s == init + [c];
      assert init + ([c] + rest) == s + rest;
    }
  }

  /** After the last character, closing the open token gives the tokens of the whole string. */
  lemma ScanOfTokens(s: string, d: char)
    ensures var st := ScanOf(s, d); (if st.token == [] then st.tokens else st.tokens + [st.token]) == Tokens(s, d)
  {
    ScanOfSpec(s, [], d);
    var st := ScanOf(s, d);
    assert s + [] == s && st.token + [] == st.token;
    TokensOfToken(st.token, d);
  }

  /** `SplitString`: scans the characters, closing a token at each delimiter and at the end. */
  method SplitString(str: string, delimiter: char) returns (tokens: seq<string>)
    ensures tokens == Tokens(str, delimiter)
  {
    tokens := [];
    var token := "";
    var i := 0;
    while i < |str|
      invariant 0 <= i <= |str|
      invariant Scan(tokens, token) == ScanOf(str[..i], delimiter)
    {
      assert str[..i + 1][..i] == str[..i];
      if str[i] == delimiter {
        if token != "" {
          tokens := tokens + [token];
          token := "";
        }
      } else {
        token := token + [str[i]];
      }
      i := i + 1;
    }
    assert str[..i] == str;
    ScanOfTokens(str, delimiter);
    if token != "" {
      tokens := tokens + [token];
    }
  }

  lemma {:induction false} RemoveAppend(a: string, b: string, d: char)
    ensures Remove(a + b, d) == Remove(a, d) + Remove(b, d)
    decreases |a|
  {
    if a == [] {
      assert a + b == b;
    } else {
      assert (a + b)[0] == a[0] && (a + b)[1..] == a[1..] + b;
      RemoveAppend(a[1..], b, d);
    }
  }

  lemma {:induction false} RemoveNone(s: string, d: char)
    requires d !in s
    ensures Remove(s, d) == s
    decreases |s|
  {
    if s != [] {
      RemoveNone(s[1..], d);
      assert s == [s[0]] + s[1..];
    }
  }

  /**
   * No token is empty, none holds the delimiter, and the tokens joined in order give the input with
   * every delimiter removed.
   */
  lemma {:induction false} TokensSpec(s: string, d: char)
    ensures forall t | t in Tokens(s, d) :: t != [] && d !in t
    ensures Concat(Tokens(s, d)) == Remove(s, d)
    decreases |s|
  {
    if s != [] {
      if s[0] == d {
        TokensSpec(s[1..], d);
      } else {
        var w := Word(s, d);
        var rest := s[|w|..];
        TokensSpec(rest, d);
        assert s == w + rest;
        RemoveAppend(w, rest, d);
        RemoveNone(w, d);
        assert ([w] + Tokens(rest, d))[1..] == Tokens(rest, d);
      }
    }
  }

  lemma {:induction false} RemoveEmptyIff(s: string, d: char)
    ensures Remove(s, d) == [] <==> forall i | 0 <= i < |s| :: s[i] == d
    decreases |s|
  {
    if s != [] {
      RemoveEmptyIff(s[1..], d);
      if forall i | 0 <= i < |s| :: s[i] == d {
        assert forall i | 0 <= i < |s[1..]| :: s[1..][i] == s[i + 1];
      }
      if forall i | 0 <= i < |s[1..]| :: s[1..][i] == d {
        if s[0] == d {
          forall i | 0 <= i < |s| ensures s[i] == d {
            if i > 0 { assert s[i] == s[1..][i - 1]; }
          }
        }
      }
    }
  }

  /** A line has no tokens exactly when it consists of delimiters only (or is empty). */
  lemma NoTokensIff(s: string, d: char)
    ensures Tokens(s, d) == [] <==> forall i | 0 <= i < |s| :: s[i] == d
  {
    TokensSpec(s, d);
    RemoveEmptyIff(s, d);
    var ts := Tokens(s, d);
    if ts != [] {
      assert ts[0] in ts;
      assert |Concat(ts)| >= |ts[0]| > 0;
    }
  }

  // ---------------------------------------------------------------------------
  // The command dispatch in Run
  // ---------------------------------------------------------------------------

  /** The handler Run's if-chain picks for a line (values are the arguments passed on). */
  datatype Action =
    | Quit
    | Connect(host: string, port: string)
    | Disconnect
    | Echo(message: string)
    | Auth
    | Login
    | Move
    | Chat(message: string)
    | Zone
    | Status
    | Unknown(command: string)

  /**
   * The if-chain on `tokens[0]`: "connect" needs a host and a port or it falls through to the
   * unknown-command branch; "echo" and "chat" pass only the second token on, with "TEST_ECHO" and
   * "Hello World!" when there is none.
   */
  function Dispatch(tokens: seq<string>): Action
    requires tokens != []
  {
    var command := tokens[0];
    if command == "quit" || command == "exit" then Quit
    else if command == "connect" && |tokens| >= 3 then Connect(tokens[1], tokens[2])
    else if command == "disconnect" then Disconnect
    else if command == "echo" then Echo(if |tokens| > 1 then tokens[1] else "TEST_ECHO")
    else if command == "auth" then Auth
    else if command == "login" then Login
    else if command == "move" then Move
    else if command == "chat" then Chat(if |tokens| > 1 then tokens[1] else "Hello World!")
    else if command == "zone" then Zone
    else if command == "status" then Status
    else Unknown(command)
  }

  /** Exactly "quit" and "exit" quit; the comparison is case-sensitive. */
  lemma DispatchQuit(tokens: seq<string>)
    requires tokens != []
    ensures Dispatch(tokens) == Quit <==> tokens[0] == "quit" || tokens[0] == "exit"
    ensures Dispatch(["Quit"]) == Unknown("Quit")
  {
  }

  /** "connect" is a connect exactly when a host and a port follow it; otherwise it is an unknown command. */
  lemma DispatchConnect(tokens: seq<string>)
    requires tokens != [] && tokens[0] == "connect"
    ensures Dispatch(tokens).Connect? <==> |tokens| >= 3
    ensures |tokens| >= 3 ==> Dispatch(tokens) == Connect(tokens[1], tokens[2])
    ensures |tokens| < 3 ==> Dispatch(tokens) == Unknown("connect")
  {
  }

  /** "echo" passes its first argument on, or "TEST_ECHO" when there is none; the rest are ignored. */
  lemma DispatchEcho(tokens: seq<string>)
    requires tokens != []
    ensures Dispatch(tokens).Echo? <==> tokens[0] == "echo"
    ensures tokens[0] == "echo" ==> Dispatch(tokens) == Echo(if |tokens| > 1 then tokens[1] else "TEST_ECHO")
  {
  }

  /** "chat" passes its first argument on, or "Hello World!" when there is none; the rest are ignored. */
  lemma DispatchChat(tokens: seq<string>)
    requires tokens != []
    ensures Dispatch(tokens).Chat? <==> tokens[0] == "chat"
    ensures tokens[0] == "chat" ==> Dispatch(tokens) == Chat(if |tokens| > 1 then tokens[1] else "Hello World!")
  {
  }

  /** Any other first token is reported as an unknown command, with the token itself. */
  lemma DispatchUnknown(tokens: seq<string>)
    requires tokens != []
    requires tokens[0] !in ["quit", "exit", "connect", "disconnect", "echo", "auth", "login", "move", "chat", "zone", "status"]
    ensures Dispatch(tokens) == Unknown(tokens[0])
  {
  }

  /** The guard Run applies before `tokens[0]`, as written: only a truly empty line is skipped. */
  predicate SkippedAsWritten(line: string)
  {
    line == ""
  }

  /** A line of one space passes that guard yet splits into no tokens, so `tokens[0]` reads past the end. */
  lemma BlankLinePassesGuard()
    ensures !SkippedAsWritten(" ") && Tokens(" ", ' ') == []
  {
    assert " "[1..] == "";
  }

  /** The handlers Run calls for its input lines, up to the first quit, skipping lines with no tokens. */
  function Session(lines: seq<string>): seq<Action>
    decreases |lines|
  {
    if lines == [] then []
    else
      var tokens := Tokens(lines[0], ' ');
      if tokens == [] then Session(lines[1..])
      else if Dispatch(tokens) == Quit then []
      else [Dispatch(tokens)] + Session(lines[1..])
  }

  /** Blank lines, of any number of spaces, are skipped without a handler call. */
  lemma SessionSkipsBlank(line: string, rest: seq<string>)
    requires forall i | 0 <= i < |line| :: line[i] == ' '
    ensures Session([line] + rest) == Session(rest)
  {
    NoTokensIff(line, ' ');
    assert ([line] + rest)[1..] == rest;
  }

  /** There is never more than one handler call per line. */
  lemma {:induction false} SessionBounds(lines: seq<string>)
    ensures |Session(lines)| <= |lines|
    decreases |lines|
  {
    if lines != [] {
      SessionBounds(lines[1..]);
    }
  }

  /** A line whose first token is "quit" or "exit" ends the session: nothing after it is dispatched. */
  lemma {:induction false} SessionStopsAtQuit(before: seq<string>, q: string, rest: seq<string>)
    requires Tokens(q, ' ') != [] && Dispatch(Tokens(q, ' ')) == Quit
    ensures Session(before + [q] + rest) == Session(before)
    decreases |before|
  {
    var lines := before + [q] + rest;
    if before == [] {
      assert lines[0] == q;
    } else {
      SessionStopsAtQuit(before[1..], q, rest);
      assert lines[0] == before[0];
      assert lines[1..] == before[1..] + [q] + rest;
    }
  }

  /**
   * `Run` with the empty-token guard it needs: reads lines until quit or the end of input,
   * dispatching each line that has tokens, and disconnects at the end.
   */
  method Run(lines: seq<string>) returns (actions: seq<Action>)
    ensures actions == Session(lines) + [Disconnect]
  {
    actions := [];
    var i := 0;
    while i < |lines|
      invariant 0 <= i <= |lines|
      invariant actions + Session(lines[i..]) == Session(lines)
    {
      assert lines[i..][0] == lines[i] && lines[i..][1..] == lines[i + 1..];
      var input := lines[i];
      i := i + 1;
      if input == "" {
        assert Tokens(input, ' ') == [];
        continue;
      }
      var tokens := SplitString(input, ' ');
      if tokens == [] {
        continue;
      }
      var action := Dispatch(tokens);
      if action == Quit {
        assert actions == Session(lines);
        return actions + [Disconnect];
      }
      actions := actions + [action];
    }
    assert lines[i..] == [];
    actions := actions + [Disconnect];
  }
}
