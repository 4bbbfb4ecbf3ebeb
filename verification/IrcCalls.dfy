/**
 Calls and lines whose sender is no full IRCName: numeric replies, calls without a sender or with a text in
 its place, and raw lines (examples/ircpeer/ircpeer.cpp).
 */
module IrcCalls {
  import opened ByteArray
  import opened IrcName
  import opened IrcLine
  import opened IrcFraming
  import opened IrcReplies
  import opened IrcRoundTrip

  /** A line as a server sends it, with or without the server's name. */
  function ServerLine(server: Bytes, word: Bytes, ps: seq<Bytes>): Bytes {
    (if server == "" then "" else ":" + server + " ") + word + ParamBytes(ps)
  }

  lemma ServerLineIsParsed(server: Bytes, word: Bytes, ps: seq<Bytes>, rest: Bytes)
    requires NoSpace(server) && NoEol(server) && NoSpace(word) && NoEol(word) && StartsPlainly(word)
    requires ps != [] && FitParams(ps) && ParamsWithoutEol(ps) && !EndsInSpace(ps[|ps| - 1])
    ensures Deserialized(ServerLine(server, word, ps) + "\r\n" + rest) == CallOf(Parts(server, word, ps))
    ensures Remaining(ServerLine(server, word, ps) + "\r\n" + rest) == [LF] + rest
  {
    var m := Message(word, Name(server, "", ""), ps);
    assert Assemble(m.sender) == server + "" + "" == server;
    assert PlainName(m.sender) && LastWord(m) == ps[|ps| - 1] != "";
    assert Line(m) == ServerLine(server, word, ps);
    hide Line, ServerLine, Assemble, Deserialized, Remaining, CallOf, FitParams, ParamsWithoutEol,
      EndsInSpace, LastWord, PlainName;
    LineIsParsed(m, rest);
  }

  // ----- numeric replies

  predicate AreMarkers(args: seq<Bytes>) {
    forall i :: 0 <= i < |args| ==> args[i] == "=" || args[i] == "@"
  }

  lemma {:induction false} MarkersDrop(markers: seq<Bytes>, kept: seq<Bytes>)
    requires AreMarkers(markers) && kept != [] && kept[0] != "=" && kept[0] != "@"
    ensures DropMarkers(markers + kept) == kept
  {
    if markers == [] {
      assert markers + kept == kept;
    } else {
      assert (markers + kept)[1..] == markers[1..] + kept;
      MarkersDrop(markers[1..], kept);
    }
  }

  /** The nick and the markers after it go, and nothing else. */
  lemma KeptIs(nick: Bytes, markers: seq<Bytes>, kept: seq<Bytes>)
    requires AreMarkers(markers) && kept != [] && kept[0] != "=" && kept[0] != "@"
    ensures Kept([nick] + markers + kept) == kept
  {
    assert ([nick] + markers + kept)[1..] == markers + kept;
    MarkersDrop(markers, kept);
  }

  lemma DigitsArePlain(digits: Bytes)
    requires digits != "" && AllDigits(digits)
    ensures NoSpace(digits) && NoEol(digits) && StartsPlainly(digits)
  {
    hide AllDigits;
    assert forall i :: 0 <= i < |digits| ==> '0' <= digits[i] <= '9' by {
      DigitsMean(digits);
    }
  }

  lemma DigitsMean(digits: Bytes)
    requires AllDigits(digits)
    ensures forall i :: 0 <= i < |digits| ==> '0' <= digits[i] <= '9'
  {
  }

  /** What a numeric reply of this sender and number holds. */
  ghost predicate IsReply(d: Outcome, sender: Name, number: int, kept: seq<Bytes>, spots: seq<Spot>) {
    && d.Data? && d.command == "numeric" && Carries(d.params, kept, spots) && d.params[0] == Sender(sender)
    && (spots[0].entry == 1 <==> number >= 300 && |kept| > 1)
  }

  /** A reply with a number comes from a sender whose nick is the server and the number and whose host is the
      server; its parameters after the nick and the markers are carried by two texts. */
  lemma NumericArrives(server: Bytes, digits: Bytes, nick: Bytes, markers: seq<Bytes>, kept: seq<Bytes>, rest: Bytes)
      returns (spots: seq<Spot>)
    requires NoSpace(server) && NoEol(server)
    requires digits != "" && AllDigits(digits) && 1 <= Decimal(digits) < 0x8000_0000
    requires AreMarkers(markers) && kept != [] && kept[0] != "=" && kept[0] != "@"
    requires FitParams([nick] + markers + kept) && ParamsWithoutEol([nick] + markers + kept)
    requires !EndsInSpace(kept[|kept| - 1])
    ensures var line := ServerLine(server, digits, [nick] + markers + kept);
      && IsReply(Deserialized(line + "\r\n" + rest), Name(server + ":" + digits, "", server), Decimal(digits), kept,
                 spots)
      && Remaining(line + "\r\n" + rest) == [LF] + rest
  {
    var ps := [nick] + markers + kept;
    assert ps[|ps| - 1] == kept[|kept| - 1];
    KeptIs(nick, markers, kept);
    DigitsArePlain(digits);
    ToIntOfDigits(digits);
    hide ServerLine, Deserialized, Remaining, ToInt, Decimal, Kept, FitParams, ParamsWithoutEol, EndsInSpace,
      StartsPlainly, NoSpace, NoEol, AllDigits, Carries, NumericCall;
    ServerLineIsParsed(server, digits, ps, rest);
    spots := NumericReply(Decimal(digits), Name(server + ":" + digits, "", server), ps);
  }

  /** A line with the literal command "numeric" is taken for a reply with number 0, from the sender that its
      prefix gives. */
  lemma NamedNumericArrives(server: Bytes, nick: Bytes, markers: seq<Bytes>, kept: seq<Bytes>, sender: Name,
                            rest: Bytes)
      returns (spots: seq<Spot>)
    requires NoSpace(server) && NoEol(server) && SentBy(server, sender)
    requires AreMarkers(markers) && kept != [] && kept[0] != "=" && kept[0] != "@"
    requires FitParams([nick] + markers + kept) && ParamsWithoutEol([nick] + markers + kept)
    requires !EndsInSpace(kept[|kept| - 1])
    ensures var line := ServerLine(server, "numeric", [nick] + markers + kept);
      IsReply(Deserialized(line + "\r\n" + rest), sender, 0, kept, spots)
  {
    var ps := [nick] + markers + kept;
    assert ps[|ps| - 1] == kept[|kept| - 1];
    KeptIs(nick, markers, kept);
    FromPrefixIsTheSender(server, sender);
    NotANumber("numeric", 0);
    assert NoSpace("numeric") && NoEol("numeric") && StartsPlainly("numeric");
    hide ServerLine, Deserialized, Remaining, ToInt, Kept, FitParams, ParamsWithoutEol, EndsInSpace, StartsPlainly,
      NoSpace, NoEol, Carries, NumericCall, FromPrefix, SentBy;
    ServerLineIsParsed(server, "numeric", ps, rest);
    spots := NumericReply(0, sender, ps);
  }

  // ----- calls with another first parameter

  lemma FirstAndRest<T>(first: T, a: seq<T>, b: seq<T>)
    ensures ([first] + a + b)[0] == first && ([first] + a + b)[1..] == a + b
  {
  }

  lemma CallArgsAre(first: Variant, params: seq<Bytes>)
    requires |params| <= 7
    ensures CallArgs(first, params)[0] == first
    ensures CallArgs(first, params)[1..] == Texts(params) + Padding(7 - |params|)
  {
    hide Texts, Padding;
    FirstAndRest(first, Texts(params), Padding(7 - |params|));
  }

  lemma CallBytes(command: Bytes, args: seq<Variant>)
    requires |args| == 8 && command != "raw"
    ensures SerializeCall(command, args) == SerializePrefix(args[0]) + command + SerializeParams(args[1..])
  {
    hide SerializePrefix, SerializeParams;
  }

  lemma CallParams(first: Variant, params: seq<Bytes>)
    requires |params| <= 7
    ensures SerializeParams(CallArgs(first, params)[1..]) == ParamBytes(params) + "\r\n"
  {
    hide *;
    CallArgsAre(first, params);
    ParamsOnTheWire(params, 7 - |params|);
  }

  lemma CallLine(command: Bytes, first: Variant, params: seq<Bytes>)
    requires |params| <= 7 && command != "raw"
    ensures SerializeCall(command, CallArgs(first, params))
         == SerializePrefix(first) + command + ParamBytes(params) + "\r\n"
  {
    hide *;
    var args, front := CallArgs(first, params), SerializePrefix(first) + command;
    CallBytes(command, args);
    CallArgsAre(first, params);
    CallParams(first, params);
    Assoc(front, ParamBytes(params), "\r\n");
  }

  predicate NeedsNoColon(ps: seq<Bytes>) {
    forall i :: 0 <= i < |ps| ==> ' ' !in ps[i] && (ps[i] == "" || ps[i][0] != ':')
  }

  /** Parameters without spaces and leading colons are written after one space each. */
  lemma {:induction false} PlainParamBytes(ps: seq<Bytes>)
    requires NeedsNoColon(ps)
    ensures ParamBytes(ps) == SpacesBefore(ps)
  {
    if ps != [] {
      PlainParamBytes(ps[1..]);
    }
  }

  /** The first parameter with a space or a leading colon is written after a colon, and is the last. */
  lemma {:induction false} TrailingParamBytes(ps: seq<Bytes>, last: Bytes, more: seq<Bytes>)
    requires NeedsNoColon(ps) && (' ' in last || (last != "" && last[0] == ':'))
    ensures ParamBytes(ps + [last] + more) == SpacesBefore(ps) + " :" + last
  {
    var all := ps + [last] + more;
    if ps == [] {
      assert all[0] == last;
    } else {
      assert all[1..] == ps[1..] + [last] + more && all[0] == ps[0];
      TrailingParamBytes(ps[1..], last, more);
      ColonLast(ps[0], SpacesBefore(ps[1..]), last);
    }
  }

  lemma ColonLast(word: Bytes, middle: Bytes, last: Bytes)
    ensures [' '] + word + (middle + " :" + last) == (" " + word + middle) + " :" + last
  {
  }

  /** A call without a first parameter, or with an empty one or a sender without parts, starts with its
      command. */
  lemma NothingBeforeCommand(command: Bytes, first: Variant, params: seq<Bytes>)
    requires |params| <= 7 && command != "raw"
    requires first == Invalid || first == Text("") || first == Sender(NO_NAME)
    ensures SerializeCall(command, CallArgs(first, params)) == command + ParamBytes(params) + "\r\n"
  {
    CallLine(command, first, params);
    assert "" + command == command;
    hide ParamBytes;
  }

  /** Called without a first parameter, a message that survives comes back as one without a sender. */
  lemma CallWithoutSender(m: Message, rest: Bytes)
    requires Survives(m) && m.sender == NO_NAME
    ensures Deserialized(SerializeCall(m.command, CallArgs(Invalid, m.params)) + rest)
         == Data(m.command, [Sender(NO_NAME)] + Texts(m.params))
    ensures Remaining(SerializeCall(m.command, CallArgs(Invalid, m.params)) + rest) == [LF] + rest
  {
    NothingBeforeCommand(m.command, Invalid, m.params);
    NothingBeforeCommand(m.command, Sender(NO_NAME), m.params);
    assert Wire(m) == SerializeCall(m.command, CallArgs(Sender(NO_NAME), m.params));
    hide Wire, SerializeCall, Deserialized, Remaining;
    RoundTrip(m, rest);
  }

  /** Called with a text in place of the sender, the text is the prefix, and what comes back has the sender
      that this prefix stands for. */
  lemma CallWithTextSender(text: Bytes, m: Message, rest: Bytes)
    requires text != "" && NoSpace(text) && NoEol(text) && SentBy(text, m.sender)
    requires PlainCommand(m.command) && !NotPlainPrivmsg(m) && |m.params| <= 7
    requires FitParams(m.params) && ParamsWithoutEol(m.params) && LastWord(m) != "" && !EndsInSpace(LastWord(m))
    ensures Deserialized(SerializeCall(m.command, CallArgs(Text(text), m.params)) + rest) == Received(m)
    ensures Remaining(SerializeCall(m.command, CallArgs(Text(text), m.params)) + rest) == [LF] + rest
  {
    var printed := Message(m.command, Name(text, "", ""), m.params);
    assert Assemble(printed.sender) == text + "" + "" == text;
    assert LastWord(printed) == LastWord(m) && PlainName(printed.sender);
    CallLine(m.command, Text(text), m.params);
    assert SerializeCall(m.command, CallArgs(Text(text), m.params)) == Line(printed) + "\r\n";
    FromPrefixIsTheSender(text, m.sender);
    hide Line, SerializeCall, Assemble, Deserialized, Remaining, FitParams, ParamsWithoutEol, EndsInSpace, LastWord,
      PlainName, SentBy, ToInt, FromPrefix;
    LineIsParsed(printed, rest);
    TextSenderCall(text, m);
  }

  lemma TextSenderCall(prefix: Bytes, m: Message)
    requires PlainCommand(m.command) && !NotPlainPrivmsg(m) && m.sender == FromPrefix(prefix)
    ensures CallOf(Parts(prefix, m.command, m.params)) == Received(m)
  {
    hide FromPrefix, ToInt;
  }

  /** A raw call sends its text as it is, and the next cut is this text without the white space around it. */
  lemma RawArrives(text: Bytes, params: seq<Bytes>, rest: Bytes)
    requires |params| <= 7
    ensures SerializeCall("raw", CallArgs(Text(text), params)) == text + "\r\n"
    ensures NoEol(text) ==> NextMessage(SerializeCall("raw", CallArgs(Text(text), params)) + rest) == Trimmed(text)
    ensures NoEol(text) ==> Remaining(SerializeCall("raw", CallArgs(Text(text), params)) + rest) == [LF] + rest
  {
    assert CallArgs(Text(text), params)[0] == Text(text);
    hide NextMessage, Remaining, Trimmed, CallArgs;
    if NoEol(text) {
      CutLine(text, rest);
    }
  }
}
