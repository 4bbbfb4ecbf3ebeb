/**
 Which lines deserialize cannot cope with, said of the line itself (examples/ircpeer/ircpeer.cpp).
 */
module IrcFaults {
  import opened ByteArray
  import opened IrcName
  import opened IrcLine
  import opened IrcReplies
  import opened IrcRoundTrip

  /** A line that is one word and starts with ':' has no command. */
  predicate OnlyPrefix(line: Bytes) {
    line != "" && line[0] == ':' && ' ' !in line
  }

  /** A line whose command is read between two spaces, or before a leading one. */
  predicate EmptyCommand(line: Bytes) {
    line != "" &&
    if line[0] == ':' then
      var i := IndexOf(line, ' ');
      i != -1 && (i + 1 == |line| || line[i + 1] == ' ')
    else line[0] == ' '
  }

  /** Nothing but "=" and "@" follows the first parameter. */
  predicate OnlyMarkers(args: seq<Bytes>) {
    forall i :: 1 <= i < |args| ==> IsMarker(args[i])
  }

  /** A command whose rewriting needs more parameters than there are. */
  predicate TooFew(command: Bytes, args: seq<Bytes>) {
    if ToInt(command) != 0 || command == "numeric" then OnlyMarkers(args)
    else command == "PRIVMSG" && |args| < 2
  }

  /** A line on which an index runs past the end of a list. */
  predicate RunsOut(line: Bytes) {
    || OnlyPrefix(line)
    || (line != "" && LineParts(line).Parts? && TooFew(LineParts(line).command, LineParts(line).args))
  }

  lemma TooFewRunsOut(prefix: Bytes, command: Bytes, args: seq<Bytes>)
    ensures CallOf(Parts(prefix, command, args)).OutOfRange? <==> TooFew(command, args)
  {
    var number := ToInt(command);
    hide ToInt, IndexOf, Without, NumericCall;
    if number != 0 {
      NumericOutOfRange(number, Name(prefix + ":" + command, "", prefix), args);
    } else if command == "numeric" {
      NumericOutOfRange(0, FromPrefix(prefix), args);
    }
  }

  /** deserialize runs past the end of a list exactly on a line that is only a prefix, on a numeric reply
      with nothing but markers after the nick, and on a PRIVMSG with fewer than two parameters. */
  lemma RunsOutExactly(line: Bytes)
    requires line != ""
    ensures ParseLine(line).OutOfRange? <==> RunsOut(line)
  {
    var parts := LineParts(line);
    assert parts.NoCommand? <==> OnlyPrefix(line);
    hide LineParts, CallOf, OnlyPrefix, TooFew;
    if parts.Parts? {
      TooFewRunsOut(parts.prefix, parts.command, parts.args);
    } else {
      NoCommandRunsOut();
    }
  }

  lemma CommandOfCall(parts: Parts)
    requires CallOf(parts).Data?
    ensures CallOf(parts).command == "" <==> parts.command == ""
  {
    assert parts.command == "" ==> ToInt(parts.command) == 0;
    hide ToInt, IndexOf, Without, DropMarkers, Spaced, FromPrefix;
  }

  lemma EmptyCommandIsRead(line: Bytes)
    requires line != "" && LineParts(line).Parts?
    ensures LineParts(line).command == "" <==> EmptyCommand(line)
  {
    hide ScanParams;
    if line[0] == ':' {
      var i := IndexOf(line, ' ');
      var rest := line[i + 1..];
      assert rest != "" ==> rest[0] == line[i + 1];
    }
  }

  /** A call with parameters and no name, which the receive loop takes for a protocol error, comes from
      exactly the lines whose command is empty. */
  lemma ProtocolErrorExactly(line: Bytes)
    requires line != ""
    ensures IsProtocolError(ParseLine(line)) <==> EmptyCommand(line)
  {
    var parts := LineParts(line);
    if parts.Parts? {
      EmptyCommandIsRead(line);
      if parts.command == "" {
        assert ToInt("") == 0;
      }
      hide LineParts, EmptyCommand, ToInt, CallOf;
      if CallOf(parts).Data? {
        CommandOfCall(parts);
      } else {
        assert parts.command != "";
      }
    } else {
      NoCommandRunsOut();
    }
  }

  // ----- one line of each kind

  lemma ThreeDigits()
    ensures ToInt("353") == 353
  {
    TrimmedTight("353");
    assert AllDigits("353");
    assert Decimal("3") == 3 && Decimal("35") == 35 && Decimal("353") == 353 by {
      assert "3"[..0] == "" && "35"[..1] == "3" && "353"[..2] == "35";
    }
    hide Trimmed, Decimal;
  }

  lemma PrefixAlone(prefix: Bytes)
    requires NoSpace(prefix)
    ensures ParseLine([':'] + prefix).OutOfRange?
  {
    RunsOutExactly([':'] + prefix);
    hide ParseLine, LineParts;
  }

  /** A list of names that stops after its marker: ":server 353 nick =". */
  lemma MarkerReply(server: Bytes, nick: Bytes)
    requires NoSpace(server) && nick != "" && !NeedsColon(nick)
    ensures ParseLine([':'] + server + [' '] + ("353" + ParamBytes([nick, "="]))).OutOfRange?
  {
    var ps := [nick, "="];
    var rest := "353" + ParamBytes(ps);
    assert ps[1] == "=" && FitParams(ps) && NoSpace("353");
    ThreeDigits();
    hide ParamBytes, FitParams, ToInt;
    PrefixedParts(server, rest);
    CommandLineParts(server, "353", ps);
    hide LineParts, CommandParts, ParseLine;
    RunsOutExactly([':'] + server + [' '] + rest);
  }

  lemma ShortPrivmsg(target: Bytes)
    requires target != "" && !NeedsColon(target)
    ensures ParseLine("PRIVMSG" + ParamBytes([target])).OutOfRange?
  {
    var rest := "PRIVMSG" + ParamBytes([target]);
    assert FitParams([target]) && NoSpace("PRIVMSG") && rest[0] == 'P';
    NotANumber("PRIVMSG", 0);
    hide ParamBytes, FitParams, ToInt;
    UnprefixedParts(rest);
    CommandLineParts("", "PRIVMSG", [target]);
    hide LineParts, CommandParts, ParseLine;
    RunsOutExactly(rest);
  }

  /** Two spaces after a prefix. */
  lemma TwoSpaces(prefix: Bytes, rest: Bytes)
    requires NoSpace(prefix)
    ensures IsProtocolError(ParseLine([':'] + prefix + [' '] + ([' '] + rest)))
  {
    var line := [':'] + prefix + [' '] + ([' '] + rest);
    IndexOfIn([':'] + prefix, ' ', [' '] + rest);
    assert line[|prefix| + 2] == ' ';
    ProtocolErrorExactly(line);
    hide ParseLine, IndexOf;
  }
}
