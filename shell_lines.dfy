/** Reading one line of a shell history (collector/src/modules/shell_history.rs): zsh's
    extended format, the kinds of line bash's `HISTTIMEFORMAT` history holds, and the shell
    named in the configuration. */
module ShellLines {
  import opened Wrappers
  import opened Text
  import opened Decimal
  import opened Time

  /** A command and the instant it was run. */
  type Event = (Instant, string)

  datatype ShellType = Auto | Zsh | Bash

  const LineEnds: set<char> := {'\n', '\r'}

  /** A command as stored: not empty, no white space at either end. */
  predicate Clean(cmd: string) {
    cmd != [] && !IsWhitespace(cmd[0]) && !IsWhitespace(cmd[|cmd| - 1])
  }

  lemma TrimClean(s: string)
    ensures Trim(s) != [] ==> Clean(Trim(s))
  {
    var t := TrimStart(s);
    if Trim(s) != [] {
      assert Trim(s)[0] == t[0];
    }
  }

  /** `parse_zsh_extended`: a line `: <epoch>:<duration>;<command>`; the epoch must be an
      `i64` in the date range, and the command, trimmed, must not be empty. */
  function ParseZshExtended(line: string): Option<Event> {
    var l := TrimEndChars(line, LineEnds);
    match StripPrefix(l, ": ")
    case None => None
    case Some(rest) =>
      match SplitOnce(rest, ':')
      case None => None
      case Some((epochPart, rest')) =>
        match ParseI64(epochPart)
        case None => None
        case Some(epoch) =>
          match SplitOnce(rest', ';')
          case None => None
          case Some((_, cmdPart)) =>
            var cmd := Trim(cmdPart);
            if cmd == [] then None
            else
              match FromTimestamp(epoch, 0)
              case None => None
              case Some(t) => Some((t, cmd))
  }

  lemma SemicolonIn(line: string, l: string, rest: string, e: string, rest': string, d: string,
                    c: string)
    requires StartsWith(line, l) && l == ": " + rest && rest == e + [':'] + rest'
    requires rest' == d + [';'] + c
    ensures StartsWith(line, ": ") && ';' in line
  {
    var j := 2 + |e| + 1 + |d|;
    assert l[j] == ';';
    assert line[j] == l[j];
    assert line[..2] == l[..2];
  }

  lemma WholeSecond(epoch: int)
    ensures Seconds(epoch) % NANOS_PER_SEC == 0
  {
    assert Seconds(epoch) == epoch * NANOS_PER_SEC;
  }

  /** A line accepted as zsh's extended format starts with ": " and holds a ';'; its
      command is clean and its instant a whole second in the date range. */
  lemma ZshAccepted(line: string)
    requires ParseZshExtended(line).Some?
    ensures StartsWith(line, ": ") && ';' in line
    ensures var e := ParseZshExtended(line).value;
            Clean(e.1) && InRange(e.0) && e.0 % NANOS_PER_SEC == 0
  {
    var l := TrimEndChars(line, LineEnds);
    var rest := StripPrefix(l, ": ").value;
    var (epochPart, rest') := SplitOnce(rest, ':').value;
    var epoch := ParseI64(epochPart).value;
    var (d, cmdPart) := SplitOnce(rest', ';').value;
    TrimClean(cmdPart);
    SemicolonIn(line, l, rest, epochPart, rest', d, cmdPart);
    WholeSecond(epoch);
  }

  /** The steps of `parse_zsh_extended`, each succeeding, give its result. */
  lemma ZshSteps(line: string, rest: string, epochPart: string, rest': string, epoch: int,
                 d: string, cmdPart: string)
    requires StripPrefix(TrimEndChars(line, LineEnds), ": ") == Some(rest)
    requires SplitOnce(rest, ':') == Some((epochPart, rest')) && ParseI64(epochPart) == Some(epoch)
    requires SplitOnce(rest', ';') == Some((d, cmdPart)) && Trim(cmdPart) != []
    requires MIN_SECS <= epoch <= MAX_SECS
    ensures ParseZshExtended(line) == Some((Seconds(epoch), Trim(cmdPart)))
  {
  }

  /** Trailing line-end characters are cut back to the text before them. */
  lemma {:induction false} TrimLineEnd(body: string, ending: string)
    requires body != [] && body[|body| - 1] !in LineEnds
    requires forall i :: 0 <= i < |ending| ==> ending[i] in LineEnds
    ensures TrimEndChars(body + ending, LineEnds) == body
    decreases |ending|
  {
    if ending == [] {
      assert body + ending == body;
    } else {
      var e' := ending[..|ending| - 1];
      assert (body + ending)[..|body + ending| - 1] == body + e';
      TrimLineEnd(body, e');
    }
  }

  lemma StripPrefixOf(p: string, x: string)
    ensures StripPrefix(p + x, p) == Some(x)
  {
    assert (p + x)[..|p|] == p && (p + x)[|p|..] == x;
  }

  /** The decimal form of an integer has no ':' and no white space at either end. */
  lemma IntToStringEdges(n: int)
    ensures ':' !in IntToString(n) && Clean(IntToString(n)) && IntToString(n)[0] != '#'
  {
    var s := NatToString(if n < 0 then -n else n);
    assert forall i :: 0 <= i < |s| ==> s[i] != ':' by {
      forall i | 0 <= i < |s| ensures s[i] != ':' {
        assert IsAsciiDigit(s[i]);
      }
    }
    assert IsAsciiDigit(s[0]) && IsAsciiDigit(s[|s| - 1]);
  }

  /** A line in zsh's extended format, ended by any line-end characters, is read back as
      the epoch second and the command, whatever the duration field holds short of a ';'. */
  lemma ZshLineRoundTrip(epoch: int, duration: string, cmd: string, ending: string)
    requires MIN_SECS <= epoch <= MAX_SECS
    requires ';' !in duration && Clean(cmd)
    requires forall i :: 0 <= i < |ending| ==> ending[i] in LineEnds
    ensures ParseZshExtended(": " + IntToString(epoch) + ":" + duration + ";" + cmd + ending) ==
            Some((Seconds(epoch), cmd))
  {
    var e := IntToString(epoch);
    var tail := duration + ";" + cmd;
    var rest := e + ":" + tail;
    var body := ": " + rest;
    assert ": " + e + ":" + duration + ";" + cmd + ending == body + ending;
    assert body[|body| - 1] == cmd[|cmd| - 1];
    TrimLineEnd(body, ending);
    StripPrefixOf(": ", rest);
    IntToStringEdges(epoch);
    SplitOnceAt(e, ':', tail);
    IntToStringRoundTrip(epoch, I64_MIN, I64_MAX);
    SplitOnceAt(duration, ';', cmd);
    TrimNoEdges(cmd);
    ZshSteps(body + ending, rest, e, tail, epoch, duration, cmd);
  }

  /** The timestamp of a `#` comment line: its trimmed text as an `i64` epoch second. */
  function CommentTimestamp(rest: string): (r: Option<Instant>)
    ensures r.Some? ==> InRange(r.value) && r.value % NANOS_PER_SEC == 0
  {
    match ParseI64(Trim(rest))
    case None => None
    case Some(t) =>
      if MIN_SECS <= t <= MAX_SECS then WholeSecond(t); FromTimestamp(t, 0)
      else FromTimestamp(t, 0)
  }

  /** What a line of a bash history is to `parse_bash_histtime`: a `#` comment with the
      timestamp it holds (None when unreadable), a blank line, or a command, trimmed. */
  datatype LineKind = Comment(stamp: Option<Instant>) | Blank | Command(cmd: string)

  function Classify(l: string): (k: LineKind)
    ensures k.Comment? <==> StartsWith(TrimEndChars(l, LineEnds), "#")
    ensures k.Comment? && k.stamp.Some? ==> InRange(k.stamp.value) && k.stamp.value % NANOS_PER_SEC == 0
    ensures k.Command? ==> Clean(k.cmd)
  {
    var line := TrimEndChars(l, LineEnds);
    match StripPrefix(line, "#")
    case Some(rest) => Comment(CommentTimestamp(rest))
    case None =>
      var cmd := Trim(line);
      TrimClean(line);
      if cmd == [] then Blank else Command(cmd)
  }

  /** A history line written from a clean command that does not start with '#'. */
  lemma CommandLineOf(c: string)
    requires Clean(c) && c[0] != '#'
    ensures Classify(c + "\n") == Command(c)
  {
    TrimLineEnd(c, "\n");
    TrimNoEdges(c);
  }

  /** A comment line `# <t>` gives the epoch second t. */
  lemma {:induction false} CommentLineOf(t: int)
    requires MIN_SECS <= t <= MAX_SECS
    ensures Classify("# " + IntToString(t) + "\n") == Comment(Some(Seconds(t)))
  {
    var s := IntToString(t);
    var rest := " " + s;
    assert "# " + s + "\n" == "#" + rest + "\n";
    assert Classify("#" + rest + "\n") == Comment(CommentTimestamp(rest)) by {
      IntToStringEdges(t);
      assert rest[|rest| - 1] == s[|s| - 1];
      CleanEndsInText(s);
      ClassifyHash(rest);
    }
    assert CommentTimestamp(rest) == Some(Seconds(t)) by {
      IntToStringEdges(t);
      assert TrimStart(rest) == s by {
        assert rest[1..] == s;
      }
      TrimNoEdges(s);
      IntToStringRoundTrip(t, I64_MIN, I64_MAX);
      CommentTimestampOf(rest, t);
    }
  }

  /** A line `#` then `rest` then a line feed is a comment holding what `rest` reads as. */
  lemma ClassifyHash(rest: string)
    requires rest != [] && rest[|rest| - 1] !in LineEnds
    ensures Classify("#" + rest + "\n") == Comment(CommentTimestamp(rest))
  {
    TrimLineEnd("#" + rest, "\n");
    StripPrefixOf("#", rest);
  }

  lemma CommentTimestampOf(rest: string, t: int)
    requires ParseI64(Trim(rest)) == Some(t) && MIN_SECS <= t <= MAX_SECS
    ensures CommentTimestamp(rest) == Some(Seconds(t))
  {
  }

  lemma CleanEndsInText(s: string)
    requires Clean(s)
    ensures s[|s| - 1] !in LineEnds
  {
    assert IsWhitespace('\n') && IsWhitespace('\r');
  }

  /** `detect_shell_type`: the setting, trimmed and in lower case. No character outside
      ASCII has "zsh" or "bash" letters as its lower case, so ASCII lowering decides alike. */
  function DetectShellType(setting: string): (t: ShellType)
    ensures t.Zsh? <==> AsciiLower(Trim(setting)) == "zsh"
    ensures t.Bash? <==> AsciiLower(Trim(setting)) == "bash"
  {
    var t := AsciiLower(Trim(setting));
    if t == "zsh" then Zsh else if t == "bash" then Bash else Auto
  }

  /** A zsh event as `parse_zsh_extended` makes it: a clean command at a whole second in
      the date range. */
  predicate Stamped(e: Event) {
    Clean(e.1) && InRange(e.0) && e.0 % NANOS_PER_SEC == 0
  }
}
