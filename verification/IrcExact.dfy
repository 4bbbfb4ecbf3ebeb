/**
 Exactly which messages and lines survive the codec (examples/ircpeer/ircpeer.cpp).
 */
module IrcExact {
  import opened ByteArray
  import opened IrcName
  import opened IrcLine
  import opened IrcFraming
  import opened IrcParams
  import opened IrcReplies
  import opened IrcRoundTrip
  import opened IrcWire

  // ----- what the parts of a line are like

  /** What the parts of a trimmed line owe to the line. */
  predicate GoodParts(parts: Parts) {
    parts.Parts? ==>
      && NoSpace(parts.prefix) && NoEol(parts.prefix) && NoSpace(parts.command) && NoEol(parts.command)
      && ParamsWithoutEol(parts.args) && ScanShape(parts.args)
      && (if parts.args == [] then parts.command != "" && !EndsInSpace(parts.command)
          else !EndsInSpace(parts.args[|parts.args| - 1]))
  }

  lemma CommandPartsAreGood(prefix: Bytes, rest: Bytes)
    requires NoSpace(prefix) && NoEol(prefix) && NoEol(rest) && rest != "" && !EndsInSpace(rest)
    ensures GoodParts(CommandParts(prefix, rest))
  {
    if ' ' in rest {
      var command, tail := CutAt(rest, ' ');
      assert tail != "";
      LastByte(command + [' '], tail);
      ScanKeeps(tail, CR);
      ScanKeeps(tail, LF);
      ScanHasShape(tail);
      ScanEnd(tail);
      hide ScanParams, IndexOf;
    }
  }

  lemma LinePartsAreGood(line: Bytes)
    requires Tight(line) && NoEol(line)
    ensures GoodParts(LineParts(line))
  {
    if line[0] != ':' {
      CommandPartsAreGood("", line);
    } else if ' ' in line {
      var first, rest := CutAt(line, ' ');
      assert rest != "";
      LastByte(first + [' '], rest);
      var prefix := line[1..IndexOf(line, ' ')];
      assert first == [':'] + prefix;
      CommandPartsAreGood(prefix, rest);
    }
    hide CommandParts;
  }

  // ----- what comes out of a line has no line ends and no spaces where they do not belong

  lemma FromPrefixKeeps(prefix: Bytes, c: char)
    requires c !in prefix
    ensures var n := FromPrefix(prefix); c !in n.nick && c !in n.ident && c !in n.host
  {
    hide IndexOf;
  }

  lemma NameOfPrefix(prefix: Bytes)
    requires NoSpace(prefix) && NoEol(prefix)
    ensures NameWithoutSpace(FromPrefix(prefix)) && NameWithoutEol(FromPrefix(prefix))
  {
    FromPrefixKeeps(prefix, CR);
    FromPrefixKeeps(prefix, LF);
    FromPrefixKeeps(prefix, ' ');
    hide FromPrefix;
  }

  lemma WithoutKeeps(s: Bytes, c: char, d: char)
    requires c !in s
    ensures c !in Without(s, d)
  {
  }

  lemma {:induction false} SpacedKeeps(pieces: seq<Bytes>, c: char)
    requires c != ' ' && forall i :: 0 <= i < |pieces| ==> c !in pieces[i]
    ensures c !in Spaced(pieces)
  {
    if pieces != [] {
      SpacedKeeps(pieces[1..], c);
    }
  }

  /** A sender, a command and texts as a line can give them. */
  predicate CleanCall(d: Outcome) {
    d.Data? ==>
      && NoSpace(d.command) && NoEol(d.command) && ToInt(d.command) == 0 && d.params != []
      && (forall i :: 0 <= i < |d.params| ==> VariantWithoutEol(d.params[i]))
      && (d.params[0].Sender? ==> NameWithoutSpace(d.params[0].name))
  }

  lemma KeptNoEol(args: seq<Bytes>)
    requires ParamsWithoutEol(args)
    ensures ParamsWithoutEol(Kept(args)) && (Kept(args) != [] ==> ParamsWithoutEol(Kept(args)[1..]))
  {
    if args != [] {
      var rest := args[1..];
      var n := DropMarkersIsSuffix(rest);
      hide DropMarkers;
      assert forall i :: 0 <= i < |rest[n..]| ==> rest[n..][i] == args[1 + n + i];
    }
  }

  lemma SpacedNoEol(pieces: seq<Bytes>)
    requires ParamsWithoutEol(pieces)
    ensures NoEol(Spaced(pieces))
  {
    SpacedKeeps(pieces, CR);
    SpacedKeeps(pieces, LF);
  }

  lemma TwoTextsAreClean(sender: Name, second: Bytes, third: Bytes)
    requires NameWithoutSpace(sender) && NameWithoutEol(sender) && NoEol(second) && NoEol(third)
    ensures CleanCall(Data("numeric", [Sender(sender), Text(second), Text(third)]))
  {
    NotANumber("numeric", 0);
    hide ToInt;
  }

  lemma NumericIsClean(number: int, sender: Name, args: seq<Bytes>)
    requires NameWithoutSpace(sender) && NameWithoutEol(sender) && ParamsWithoutEol(args)
    ensures CleanCall(NumericCall(number, sender, args))
  {
    var kept := Kept(args);
    KeptNoEol(args);
    SpacedNoEol(kept);
    if kept == [] {
      NothingIsClean();
    } else {
      assert NoEol(kept[0]) && NoEol("");
      SpacedNoEol(kept[1..]);
      assert |kept| == 2 ==> NoEol(kept[1]);
      hide DropMarkers, Spaced, CleanCall, NoEol, NameWithoutSpace, NameWithoutEol, ParamsWithoutEol;
      var call := NumericCall(number, sender, args);
      TwoTextsAreClean(sender, call.params[1].bytes, call.params[2].bytes);
    }
  }

  lemma RequestIsClean(sender: Name, args: seq<Bytes>)
    requires NameWithoutSpace(sender) && NameWithoutEol(sender) && ParamsWithoutEol(args)
    requires |args| >= 2 && args[1] != "" && args[1][0] == CTCP
    ensures CleanCall(PrivmsgCall(sender, args))
  {
    var word, text := RequestParts(sender, args);
    WithoutKeeps(args[1], CR, CTCP);
    WithoutKeeps(args[1], LF, CTCP);
    hide Without, PrivmsgCall, NameWithoutSpace, NameWithoutEol, CleanCall, ToInt;
    WordOf(Without(args[1], CTCP), word, text, CR);
    WordOf(Without(args[1], CTCP), word, text, LF);
    NotANumber("CTCP-" + word, 0);
    CtcpIsClean(word);
    assert ParamsWithoutEol([args[0], text] + args[2..]);
    DataIsClean("CTCP-" + word, sender, [args[0], text] + args[2..]);
  }

  lemma WordOf(payload: Bytes, word: Bytes, text: Bytes, c: char)
    requires payload == word + text && c !in payload
    ensures c !in word && c !in text
  {
  }

  lemma CtcpIsClean(word: Bytes)
    requires NoSpace(word) && NoEol(word)
    ensures NoSpace("CTCP-" + word) && NoEol("CTCP-" + word)
  {
  }

  lemma DataIsClean(command: Bytes, sender: Name, args: seq<Bytes>)
    requires NameWithoutSpace(sender) && NameWithoutEol(sender) && ParamsWithoutEol(args)
    requires NoSpace(command) && NoEol(command) && ToInt(command) == 0
    ensures CleanCall(Data(command, [Sender(sender)] + Texts(args)))
  {
    hide ToInt;
  }

  lemma CallIsClean(parts: Parts)
    requires parts.Parts? && GoodParts(parts)
    ensures CleanCall(CallOf(parts))
  {
    var number, args := ToInt(parts.command), parts.args;
    NameOfPrefix(parts.prefix);
    NotANumber("PRIVMSG", 0);
    hide ToInt, FromPrefix, CleanCall, NumericCall;
    if number != 0 {
      NumericIsClean(number, Name(parts.prefix + ":" + parts.command, "", parts.prefix), args);
    } else if parts.command == "numeric" {
      NumericIsClean(0, FromPrefix(parts.prefix), args);
    } else if parts.command == "PRIVMSG" && |args| >= 2 && args[1] != "" && args[1][0] == CTCP {
      RequestIsClean(FromPrefix(parts.prefix), args);
    } else {
      DataIsClean(parts.command, FromPrefix(parts.prefix), args);
      NothingIsClean();
    }
  }

  lemma NothingIsClean()
    ensures CleanCall(OutOfRange)
  {
  }

  lemma ParsedIsClean(line: Bytes)
    requires Tight(line) && NoEol(line)
    ensures CleanCall(ParseLine(line))
  {
    LinePartsAreGood(line);
    NothingIsClean();
    hide LineParts, GoodParts, CleanCall;
    if LineParts(line).Parts? {
      CallIsClean(LineParts(line));
    }
  }

  lemma ReceivedIsClean(m: Message)
    requires CleanCall(Received(m))
    ensures NoSpace(m.command) && NoEol(m.command) && ToInt(m.command) == 0
    ensures PlainName(m.sender) && ParamsWithoutEol(m.params)
  {
    hide ToInt;
    var params := [Sender(m.sender)] + Texts(m.params);
    assert params[0] == Sender(m.sender) && VariantWithoutEol(params[0]);
    forall i | 0 <= i < |m.params|
      ensures NoEol(m.params[i])
    {
      assert params[i + 1] == Text(m.params[i]);
      assert VariantWithoutEol(params[i + 1]);
    }
  }

  // ----- the line of any message

  /** What trimming the line leaves of the command: all of it, when parameters follow. */
  function CommandLeft(m: Message): Bytes {
    if TrimRight(ParamBytes(m.params)) != "" then m.command else TrimRight(m.command)
  }

  lemma CommandLeftNoSpace(m: Message)
    requires NoSpace(m.command)
    ensures NoSpace(CommandLeft(m))
    ensures CommandLeft(m) != "" ==> CommandLeft(m)[0] == m.command[0]
  {
    var gap := TrimRightCut(m.command);
    hide TrimRight, ParamBytes;
    assert m.command == TrimRight(m.command) + gap;
  }

  lemma RestTrimmed(m: Message)
    ensures TrimRight(m.command + ParamBytes(m.params)) == CommandLeft(m) + TrimRight(ParamBytes(m.params))
  {
    TrimRightConcat(m.command, ParamBytes(m.params));
    hide TrimRight, ParamBytes;
    assert TrimRight(m.command) + "" == TrimRight(m.command);
  }

  lemma TailStart(ps: seq<Bytes>)
    ensures TrimRight(ParamBytes(ps)) != "" ==> TrimRight(ParamBytes(ps))[0] == ' '
  {
    if TrimRight(ParamBytes(ps)) != "" {
      TrimRightStart(ParamBytes(ps));
    }
  }

  lemma RestParts(m: Message, prefix: Bytes)
    requires NoSpace(m.command)
    ensures CommandParts(prefix, TrimRight(m.command + ParamBytes(m.params)))
         == Parts(prefix, CommandLeft(m), Arriving(m.params))
  {
    RestTrimmed(m);
    CommandLeftNoSpace(m);
    TailStart(m.params);
    hide TrimRight, ParamBytes, CommandLeft, CommandParts;
    CommandBefore(prefix, CommandLeft(m), TrimRight(ParamBytes(m.params)));
  }

  lemma PrefixTrimmed(prefix: Bytes)
    requires NoSpace(prefix)
    ensures var left := TrimRight([':'] + prefix + [' ']); left != "" && left[0] == ':' && NoSpace(left)
  {
    TrimRightOfSpace([':'] + prefix);
    TrimRightConcat([':'], prefix);
    var gap := TrimRightCut([':'] + prefix);
    var left := TrimRight([':'] + prefix);
    assert TrimRight([':']) == [':'];
    hide TrimRight;
    assert [':'] + prefix == left + gap;
    assert forall i :: 0 <= i < |left| ==> left[i] == ([':'] + prefix)[i];
  }

  lemma PrefixedLine(m: Message)
    requires Assemble(m.sender) != "" && NameWithoutSpace(m.sender) && NoSpace(m.command)
    ensures Trimmed(Line(m)) != ""
    ensures LineParts(Trimmed(Line(m))) ==
            if TrimRight(m.command + ParamBytes(m.params)) == "" then NoCommand
            else Parts(Assemble(m.sender), CommandLeft(m), Arriving(m.params))
  {
    var prefix, rest := Assemble(m.sender), m.command + ParamBytes(m.params);
    var head := [':'] + prefix + [' '];
    LineShape(m);
    AssembleKeeps(m.sender, ' ');
    assert TrimLeft(Line(m)) == Line(m);
    hide Assemble, ParamBytes, Line, TrimLeft;
    assert Line(m) == head + rest;
    TrimRightConcat(head, rest);
    RestParts(m, prefix);
    if TrimRight(rest) == "" {
      PrefixTrimmed(prefix);
    } else {
      PrefixedParts(prefix, TrimRight(rest));
    }
    hide TrimRight, CommandParts, CommandLeft, Arriving;
  }

  lemma UnprefixedLine(m: Message)
    requires Assemble(m.sender) == "" && NoSpace(m.command) && StartsPlainly(m.command)
    ensures Trimmed(Line(m)) != ""
    ensures LineParts(Trimmed(Line(m))) == Parts(Assemble(m.sender), CommandLeft(m), Arriving(m.params))
  {
    var rest := m.command + ParamBytes(m.params);
    LineShape(m);
    assert TrimLeft(Line(m)) == Line(m);
    hide Assemble, Line, TrimLeft;
    DropFirst(m.command, ParamBytes(m.params));
    assert [m.command[0]] + m.command[1..] == m.command;
    TrimRightConcat([m.command[0]], m.command[1..]);
    assert TrimRight([m.command[0]]) == [m.command[0]];
    RestTrimmed(m);
    CommandLeftNoSpace(m);
    RestParts(m, "");
    hide ParamBytes, TrimRight, CommandParts, Arriving;
    UnprefixedParts(TrimRight(rest));
  }

  // ----- without a sender no part of the message can be taken for one

  lemma CommandPartsSize(prefix: Bytes, rest: Bytes)
    ensures |CommandParts(prefix, rest).command| + Size(CommandParts(prefix, rest).args) <= |rest|
  {
    if ' ' in rest {
      var command, tail := CutAt(rest, ' ');
      ScanSize(tail);
    } else {
      NoSize();
    }
    hide IndexOf, ScanParams, Size;
  }

  lemma NoSize()
    ensures Size([]) == 0
  {
  }

  lemma NumericText(sender: Name, args: seq<Bytes>) returns (text: Bytes)
    requires ScanShape(args) && NumericCall(0, sender, args).Data?
    ensures NumericCall(0, sender, args) == Data("numeric", [Sender(sender), Text(""), Text(text)])
    ensures |text| + 2 <= Size(args)
  {
    var rest := args[1..];
    var k := DropMarkersIsSuffix(rest);
    var kept := DropMarkers(rest);
    text := if |kept| == 1 then kept[0] else Spaced(kept);
    SuffixSize(rest, k);
    SpacedSize(kept);
    assert args == [args[0]] + rest && kept == [kept[0]] + kept[1..];
    SizeCons(args[0], rest);
    SizeCons(kept[0], kept[1..]);
    assert |kept| > 1 ==> args[0] != "";
    hide DropMarkers, Spaced, Size, ScanShape;
  }

  lemma NumericSize(sender: Name, args: seq<Bytes>, command: Bytes, ps: seq<Bytes>, n: Name)
    requires ScanShape(args) && NumericCall(0, sender, args) == Data(command, [Sender(n)] + Texts(ps))
    ensures |command| + Size(ps) <= |"numeric"| + Size(args)
  {
    var text := NumericText(sender, args);
    TwoTexts(n, ps, sender, "", text);
    assert ps == [""] + [text] && [text] == [text] + [];
    SizeCons("", [text]);
    SizeCons(text, []);
    NoSize();
    hide NumericCall, Size, ScanShape;
  }

  lemma TwoTexts(n: Name, ps: seq<Bytes>, sender: Name, second: Bytes, third: Bytes)
    requires [Sender(n)] + Texts(ps) == [Sender(sender), Text(second), Text(third)]
    ensures ps == [second, third] && n == sender
  {
    var a, b := [Sender(n)] + Texts(ps), [Sender(sender), Text(second), Text(third)];
    assert |a| == |b|;
    assert a[0] == b[0] && a[1] == b[1] && a[2] == b[2];
    assert a[1] == Texts(ps)[0] && a[2] == Texts(ps)[1];
  }

  lemma SameTexts(n: Name, ps: seq<Bytes>, sender: Name, args: seq<Bytes>)
    requires [Sender(n)] + Texts(ps) == [Sender(sender)] + Texts(args)
    ensures ps == args && n == sender
  {
    var a, b := [Sender(n)] + Texts(ps), [Sender(sender)] + Texts(args);
    assert a[0] == b[0];
    assert a[1..] == Texts(ps) && b[1..] == Texts(args);
    TextsInjective(ps, args);
  }

  lemma {:induction false} WithoutSize(s: Bytes, c: char)
    ensures |Without(s, c)| <= |s|
  {
    if s != "" {
      WithoutSize(s[1..], c);
    }
  }

  lemma PrivmsgSize(sender: Name, args: seq<Bytes>, command: Bytes, ps: seq<Bytes>, n: Name)
    requires PrivmsgCall(sender, args) == Data(command, [Sender(n)] + Texts(ps))
    ensures |command| + Size(ps) <= |"PRIVMSG"| + Size(args)
  {
    if args[1] != "" && args[1][0] == CTCP {
      RequestSize(sender, args, command, ps, n);
    } else {
      SameTexts(n, ps, sender, args);
    }
  }

  lemma RequestSize(sender: Name, args: seq<Bytes>, command: Bytes, ps: seq<Bytes>, n: Name)
    requires PrivmsgCall(sender, args) == Data(command, [Sender(n)] + Texts(ps))
    requires |args| >= 2 && args[1] != "" && args[1][0] == CTCP
    ensures |command| + Size(ps) <= |"PRIVMSG"| + Size(args)
  {
    var word, text := RequestParts(sender, args);
    assert Without(args[1], CTCP) == Without(args[1][1..], CTCP);
    WithoutSize(args[1][1..], CTCP);
    hide Without, PrivmsgCall, Size;
    SameTexts(n, ps, sender, [args[0], text] + args[2..]);
    hide Texts;
    assert |word| + |text| <= |args[1]| - 1;
    SizeOfTwo(args[0], text, args[2..]);
    SizeOfTwo(args[0], args[1], args[2..]);
    assert args == [args[0], args[1]] + args[2..];
  }

  lemma SizeOfTwo(a: Bytes, b: Bytes, more: seq<Bytes>)
    ensures Size([a, b] + more) == 2 + |a| + |b| + Size(more)
  {
    SizeCons(a, [b] + more);
    SizeCons(b, more);
    hide Size;
    assert [a, b] + more == [a] + ([b] + more);
  }

  /** A call without a sender takes no more bytes than the command and the parameters it comes from. */
  lemma CallSize(parts: Parts, command: Bytes, ps: seq<Bytes>)
    requires parts.Parts? && ScanShape(parts.args)
    requires CallOf(parts) == Data(command, [Sender(NO_NAME)] + Texts(ps))
    ensures |command| + Size(ps) <= |parts.command| + Size(parts.args)
  {
    var sender := FromPrefix(parts.prefix);
    hide ToInt, FromPrefix, Size, ScanShape;
    if ToInt(parts.command) != 0 {
      NumberHasSender(parts);
    } else if parts.command == "numeric" {
      NumericSize(sender, parts.args, command, ps, NO_NAME);
    } else if parts.command == "PRIVMSG" {
      PrivmsgSize(sender, parts.args, command, ps, NO_NAME);
    } else {
      SameTexts(NO_NAME, ps, sender, parts.args);
    }
  }

  lemma NumberHasSender(parts: Parts)
    requires parts.Parts? && ToInt(parts.command) != 0 && CallOf(parts).Data?
    ensures CallOf(parts).params[0] != Sender(NO_NAME)
  {
    hide ToInt, DropMarkers, Spaced;
    var nick := parts.prefix + ":" + parts.command;
    assert |nick| > 0;
  }

  lemma PrefixedSize(line: Bytes)
    requires line != "" && line[0] == ':' && LineParts(line).Parts?
    ensures |LineParts(line).command| + Size(LineParts(line).args) + 2 <= |line|
  {
    var i := IndexOf(line, ' ');
    CommandPartsSize(line[1..i], line[i + 1..]);
    hide IndexOf, CommandParts, Size;
  }

  lemma NoPrefixAppears(m: Message)
    requires m.sender == NO_NAME && Tight(Trimmed(Line(m))) && NoEol(Trimmed(Line(m)))
    requires ParseLine(Trimmed(Line(m))) == Received(m)
    ensures Trimmed(Line(m))[0] != ':'
  {
    var line := Trimmed(Line(m));
    var before, after := TrimmedCut(Line(m));
    LineShape(m);
    assert |Line(m)| == |m.command| + |ParamBytes(m.params)|;
    hide Trimmed, Line, ParamBytes, Size, LineParts, NoEol;
    ParamBytesSize(m.params);
    LinePartsAreGood(line);
    NoCommandIsLost(line);
    if line[0] == ':' {
      CallSize(LineParts(line), m.command, m.params);
      PrefixedSize(line);
      hide CallOf;
    }
  }

  lemma CallStartsPlainly(parts: Parts)
    requires parts.Parts? && StartsPlainly(parts.command) && CallOf(parts).Data?
    ensures StartsPlainly(CallOf(parts).command)
  {
    hide ToInt, IndexOf, Without, DropMarkers, Spaced, FromPrefix;
  }

  lemma LineStartsPlainly(line: Bytes)
    requires StartsPlainly(line)
    ensures LineParts(line).Parts? && StartsPlainly(LineParts(line).command)
  {
    assert IsSpace(' ');
    hide ScanParams;
  }

  lemma UnprefixedCommand(m: Message, line: Bytes)
    requires Tight(line) && line[0] != ':' && ParseLine(line) == Received(m)
    ensures StartsPlainly(m.command)
  {
    LineStartsPlainly(line);
    hide LineParts, StartsPlainly, CallOf;
    CallStartsPlainly(LineParts(line));
  }

  // ----- the message that came back

  lemma CallIsReceived(m: Message, args: seq<Bytes>)
    requires PlainCommand(m.command)
    ensures CallOf(Parts(Assemble(m.sender), m.command, args)) == Received(m) <==>
            Transmissible(m.sender) && args == m.params && !NotPlainPrivmsg(m)
  {
    PrefixRoundTrip(m.sender);
    var sender := FromPrefix(Assemble(m.sender));
    hide Assemble, FromPrefix, Transmissible, ToInt;
    if m.command == "PRIVMSG" {
      PrivmsgIsReceived(m, sender, args);
    } else {
      DataIsReceived(m, sender, args);
    }
  }

  lemma DataIsReceived(m: Message, sender: Name, args: seq<Bytes>)
    ensures Data(m.command, [Sender(sender)] + Texts(args)) == Received(m) <==> sender == m.sender && args == m.params
  {
    if Data(m.command, [Sender(sender)] + Texts(args)) == Received(m) {
      var a, b := [Sender(sender)] + Texts(args), [Sender(m.sender)] + Texts(m.params);
      assert a[0] == b[0];
      assert a[1..] == Texts(args) && b[1..] == Texts(m.params);
      TextsInjective(args, m.params);
    }
  }

  lemma PrivmsgIsReceived(m: Message, sender: Name, args: seq<Bytes>)
    requires m.command == "PRIVMSG"
    ensures PrivmsgCall(sender, args) == Received(m) <==>
            sender == m.sender && args == m.params && !NotPlainPrivmsg(m)
  {
    DataIsReceived(m, sender, args);
    hide Without, IndexOf;
    if |args| >= 2 && args[1] != "" && args[1][0] == CTCP {
      var payload := Without(args[1], CTCP);
      var space := IndexOf(payload, ' ');
      CtcpIsNotPrivmsg(payload[..if space == -1 then |payload| else space]);
    }
  }

  lemma CtcpIsNotPrivmsg(word: Bytes)
    ensures "CTCP-" + word != "PRIVMSG"
  {
    assert ("CTCP-" + word)[0] == 'C';
  }

  lemma CommandStays(m: Message, prefix: Bytes)
    requires CallOf(Parts(prefix, CommandLeft(m), Arriving(m.params))) == Received(m)
    ensures CommandLeft(m) == m.command
    ensures m.params == [] ==> !EndsInSpace(m.command)
  {
    hide ToInt, FromPrefix, ParamBytes, DropMarkers;
    var gap := TrimRightCut(m.command);
    hide TrimRight;
    if TrimRight(ParamBytes(m.params)) == "" {
      assert Arriving(m.params) == [];
    } else {
      NoParamBytes();
    }
  }

  lemma NoParamBytes()
    ensures ParamBytes([]) == "" && TrimRight("") == ""
  {
  }

  /** Of two blanks and a word no more than one parameter is scanned. */
  lemma OneScanned(s: Bytes, word: Bytes)
    requires s <= [' ', ' '] + word && (word == "" || word[0] == ':' || NoSpace(word))
    ensures |ScanParams(s)| <= 1
  {
    if |s| > 2 {
      var w := s[2..];
      assert w <= word;
      assert s == [' '] + ([' '] + w);
      ScanSpace(w);
      ScanSpace([' '] + w);
      assert w[0] == word[0];
    } else if |s| == 2 {
      assert s == [' '] + [' '] && [' '] == [' '] + "";
      ScanSpace([' ']);
      ScanSpace("");
    } else if |s| == 1 {
      assert s == [' '] + "";
      ScanSpace("");
    }
  }

  lemma EmptyFirstArrives(text: Bytes)
    ensures |Arriving(["", text])| <= 1
  {
    var word := if NeedsColon(text) then [':'] + text else text;
    var bytes := ParamBytes(["", text]);
    assert ["", text][1..] == [text] && [text][1..] == [];
    assert ParamBytes([text]) == [' '] + word;
    assert bytes == [' '] + "" + ParamBytes([text]);
    assert bytes == [' ', ' '] + word;
    var gap := TrimRightCut(bytes);
    hide TrimRight, ParamBytes, ScanParams;
    OneScanned(TrimRight(bytes), word);
  }

  /** A message called "numeric" never comes back: its first parameter is taken for a nick. */
  lemma NumericIsLost(sender: Name, m: Message)
    ensures NumericCall(0, sender, Arriving(m.params)) != Received(m)
  {
    var args := Arriving(m.params);
    hide Arriving;
    if |args| > 1 && NumericCall(0, sender, args) == Received(m) {
      var third := NumericCall(0, sender, args).params[2].bytes;
      hide DropMarkers, Spaced;
      TwoTexts(m.sender, m.params, sender, "", third);
      EmptyFirstArrives(third);
    }
  }

  lemma CalledNumeric(m: Message)
    requires m.command == "numeric"
    ensures CallOf(Parts(Assemble(m.sender), m.command, Arriving(m.params))) != Received(m)
  {
    NotANumber("numeric", 0);
    NumericIsLost(FromPrefix(Assemble(m.sender)), m);
    hide ToInt, Assemble, FromPrefix, Arriving, NumericCall;
  }

  lemma ReturnedParams(m: Message)
    requires PlainCommand(m.command)
    requires CallOf(Parts(Assemble(m.sender), m.command, Arriving(m.params))) == Received(m)
    ensures Transmissible(m.sender) && !NotPlainPrivmsg(m)
    ensures FitParams(m.params) && (m.params != [] ==> !EndsInSpace(m.params[|m.params| - 1]))
  {
    hide PlainCommand, CallOf, Received, Assemble, Arriving, Transmissible, NotPlainPrivmsg, FitParams, EndsInSpace;
    CallIsReceived(m, Arriving(m.params));
    ArrivingExactly(m.params);
  }

  lemma ReturnedSurvives(m: Message)
    requires CallOf(Parts(Assemble(m.sender), CommandLeft(m), Arriving(m.params))) == Received(m)
    requires NoSpace(m.command) && NoEol(m.command) && ToInt(m.command) == 0 && m.command != "raw"
    requires PlainName(m.sender) && ParamsWithoutEol(m.params) && |m.params| <= 7
    requires m.sender == NO_NAME ==> StartsPlainly(m.command)
    requires m.command == "" ==> m.params != []
    ensures Survives(m)
  {
    hide *;
    CommandStays(m, Assemble(m.sender));
    ReturnedIsPlain(m);
    ReturnedParams(m);
    SurvivesMeans(m);
  }

  lemma ReturnedIsPlain(m: Message)
    requires CallOf(Parts(Assemble(m.sender), m.command, Arriving(m.params))) == Received(m)
    requires NoSpace(m.command) && NoEol(m.command) && ToInt(m.command) == 0 && m.command != "raw"
    ensures PlainCommand(m.command)
  {
    hide CallOf, Received, NoSpace, NoEol, ToInt, Assemble, Arriving;
    if m.command == "numeric" {
      CalledNumeric(m);
    }
  }

  lemma SurvivesMeans(m: Message)
    ensures Survives(m) <==>
      && PlainCommand(m.command) && (m.sender == NO_NAME ==> StartsPlainly(m.command))
      && Transmissible(m.sender) && PlainName(m.sender)
      && |m.params| <= 7 && FitParams(m.params) && ParamsWithoutEol(m.params) && !NotPlainPrivmsg(m)
      && (if m.params == [] then m.command != "" && !EndsInSpace(m.command) else !EndsInSpace(m.params[|m.params| - 1]))
  {
    hide PlainCommand, StartsPlainly, Transmissible, PlainName, FitParams, ParamsWithoutEol, NotPlainPrivmsg,
      EndsInSpace;
  }

  lemma NextMessageIsClean(data: Bytes)
    ensures NoEol(NextMessage(data)) && (NextMessage(data) != "" ==> Tight(NextMessage(data)))
  {
    var left := Left(data, EndPos(data));
    assert NoEol(left);
    var before, after := TrimmedCut(left);
    hide EndPos, Trimmed, Tight;
    assert left == before + Trimmed(left) + after;
    InMiddle(before, Trimmed(left), after, CR);
    InMiddle(before, Trimmed(left), after, LF);
  }

  lemma InMiddle(a: Bytes, b: Bytes, d: Bytes, c: char)
    requires c !in a + b + d
    ensures c !in b
  {
    assert forall i :: 0 <= i < |b| ==> b[i] == (a + b + d)[|a| + i];
  }

  lemma RawIsLost(m: Message, rest: Bytes)
    requires |m.params| <= 7 && m.command == "raw"
    ensures Deserialized(Wire(m) + rest) != Received(m)
  {
    assert Wire(m) == "" + "\r\n";
    CutLine("", rest);
    assert "" + "\r\n" + rest == Wire(m) + rest;
    assert Trimmed("") == "";
  }

  /** The line a clean message comes back from, in parts. */
  lemma ReturnedParts(m: Message, line: Bytes)
    requires NoSpace(m.command) && NameWithoutSpace(m.sender)
    requires line == Trimmed(Line(m)) && Tight(line) && NoEol(line) && ParseLine(line) == Received(m)
    ensures LineParts(line) == Parts(Assemble(m.sender), CommandLeft(m), Arriving(m.params))
    ensures m.sender == NO_NAME ==> StartsPlainly(m.command)
    ensures m.command == "" ==> m.params != []
  {
    assert Assemble(m.sender) == "" <==> m.sender == NO_NAME;
    hide Line, Trimmed, LineParts, Assemble, Arriving, Tight, NoEol, Received, ParseLine;
    if m.sender == NO_NAME {
      NoPrefixAppears(m);
      UnprefixedCommand(m, line);
      UnprefixedLine(m);
    } else {
      PrefixedLine(m);
      NoCommandIsLost(line);
      NoParamBytes();
    }
  }

  lemma NoCommandIsLost(line: Bytes)
    requires line != ""
    ensures LineParts(line).NoCommand? ==> ParseLine(line).OutOfRange?
  {
    hide LineParts;
  }

  lemma ReturnedIsClean(m: Message, data: Bytes)
    requires Deserialized(data) == Received(m)
    ensures Tight(NextMessage(data)) && NoEol(NextMessage(data)) && ParseLine(NextMessage(data)) == Received(m)
    ensures NoSpace(m.command) && NoEol(m.command) && ToInt(m.command) == 0
    ensures PlainName(m.sender) && ParamsWithoutEol(m.params)
  {
    NextMessageIsClean(data);
    hide NextMessage, ParseLine, CleanCall, ToInt, Tight, NoEol;
    ParsedIsClean(NextMessage(data));
    ReceivedIsClean(m);
  }

  /** A message of any command, sender and parameters comes back as it was sent exactly when it survives. */
  lemma RoundTripExactly(m: Message, rest: Bytes)
    requires |m.params| <= 7
    ensures Deserialized(Wire(m) + rest) == Received(m) <==> Survives(m)
  {
    if Survives(m) {
      RoundTrip(m, rest);
    } else if Deserialized(Wire(m) + rest) == Received(m) {
      hide Survives, Deserialized, Wire, Received, ToInt, Line, NextMessage, LineParts, PlainName, ParamsWithoutEol;
      if m.command == "raw" {
        RawIsLost(m, rest);
      } else {
        ReturnedFromLine(m, rest);
      }
    }
  }

  lemma ReturnedFromLine(m: Message, rest: Bytes)
    requires |m.params| <= 7 && m.command != "raw" && Deserialized(Wire(m) + rest) == Received(m)
    ensures Survives(m)
  {
    ReturnedIsClean(m, Wire(m) + rest);
    assert NameWithoutSpace(m.sender) && NameWithoutEol(m.sender);
    hide Survives, Deserialized, Wire, Received, ToInt, Line, Trimmed, NextMessage, LineParts, CallOf, PlainName,
      ParamsWithoutEol, CommandLeft, Arriving, Assemble, NoEol, NoSpace, NameWithoutEol, NameWithoutSpace,
      StartsPlainly;
    WireIsLine(m);
    LineWithoutEol(m);
    CutLine(Line(m), rest);
    ReturnedParts(m, Trimmed(Line(m)));
    ReturnedSurvives(m);
  }

  // ----- lines that are parsed, printed and parsed again

  /** The senders of prefixes that print as something with the same meaning: no '!' and no '@'; or an
      '@', and a match with ident and host or no part at all. */
  predicate StablePrefix(p: Bytes) {
    || ('!' !in p && '@' !in p)
    || ('@' in p && (FromName(p) == NO_NAME || (FromName(p).ident != "" && FromName(p).host != "")))
  }

  lemma StablePrefixMeans(p: Bytes)
    ensures StablePrefix(p) <==> Transmissible(FromPrefix(p))
  {
    var n := FromName(p);
    if '@' in p && HasPattern(p) {
      FromNameDecomposes(p);
    }
    hide FromName, HasPattern;
  }

  /** The parts of a line that can be printed again. */
  predicate Reprintable(parts: Parts) {
    && parts.Parts? && StablePrefix(parts.prefix) && parts.command != "raw"
    && (FromPrefix(parts.prefix) == NO_NAME ==> StartsPlainly(parts.command))
    && (parts.args != [] ==> parts.args[|parts.args| - 1] != "")
  }

  /** The message a line stands for. */
  function ParsedMessage(line: Bytes): Message
    requires line != "" && LineParts(line).Parts?
  {
    Message(LineParts(line).command, FromPrefix(LineParts(line).prefix), LineParts(line).args)
  }

  lemma ShapeIsFit(args: seq<Bytes>)
    requires ScanShape(args)
    ensures FitParams(args) <==> (args != [] ==> args[|args| - 1] != "")
  {
  }

  lemma ReprintExactly(parts: Parts, m: Message)
    requires parts.Parts? && GoodParts(parts) && |parts.args| <= 7
    requires ToInt(parts.command) == 0 && parts.command != "numeric"
    requires m == Message(parts.command, FromPrefix(parts.prefix), parts.args) && !NotPlainPrivmsg(m)
    ensures Survives(m) <==> Reprintable(parts)
  {
    NameOfPrefix(parts.prefix);
    StablePrefixMeans(parts.prefix);
    ShapeIsFit(parts.args);
    hide ToInt, FromPrefix, StablePrefix, Transmissible, FitParams, ScanShape, NotPlainPrivmsg, ParamsWithoutEol,
      StartsPlainly;
  }

  lemma ParsedIsReceived(parts: Parts, m: Message)
    requires parts.Parts? && ToInt(parts.command) == 0 && parts.command != "numeric"
    requires m == Message(parts.command, FromPrefix(parts.prefix), parts.args) && !NotPlainPrivmsg(m)
    ensures CallOf(parts) == Received(m)
  {
    hide FromPrefix, NumericCall, ToInt;
  }

  /** A line that is no numeric reply and no CTCP request, and has no more parameters than a call can carry,
      printed from what it parses to and parsed again, gives the same result exactly when its prefix is
      stable, its last parameter is not empty, and what is printed neither is "raw" nor, printed without a
      sender, starts like something else. */
  lemma NormalFormExactly(line: Bytes, rest: Bytes)
    requires Tight(line) && NoEol(line) && LineParts(line).Parts?
    requires ToInt(LineParts(line).command) == 0 && LineParts(line).command != "numeric"
    requires |LineParts(line).args| <= 7 && !NotPlainPrivmsg(ParsedMessage(line))
    ensures ParseLine(line) == Received(ParsedMessage(line))
    ensures Deserialized(Wire(ParsedMessage(line)) + rest) == ParseLine(line) <==> Reprintable(LineParts(line))
  {
    var parts, m := LineParts(line), ParsedMessage(line);
    LinePartsAreGood(line);
    hide LineParts, CallOf, Deserialized, Wire, FromPrefix, Reprintable, Survives, GoodParts, ToInt;
    ParsedIsReceived(parts, m);
    ReprintExactly(parts, m);
    RoundTripExactly(m, rest);
  }
}
