/**
 serialize and deserialize against each other: which messages survive the wire
 (examples/ircpeer/ircpeer.cpp).
 */
module IrcRoundTrip {
  import opened ByteArray
  import opened IrcName
  import opened IrcLine
  import opened IrcFraming

  /** A signal call with text parameters: p1 is the sender, the parameters are p2 to p8. */
  datatype Message = Message(command: Bytes, sender: Name, params: seq<Bytes>)

  function Padding(n: nat): (r: seq<Variant>)
    ensures |r| == n
    ensures forall i :: 0 <= i < n ==> r[i] == Invalid
  {
    seq(n, _ => Invalid)
  }

  /** The eight parameters of a call with a first one of any kind. */
  function CallArgs(first: Variant, params: seq<Bytes>): (r: seq<Variant>)
    requires |params| <= 7
    ensures |r| == 8
  {
    [first] + Texts(params) + Padding(7 - |params|)
  }

  function Args(m: Message): (r: seq<Variant>)
    requires |m.params| <= 7
    ensures |r| == 8
  {
    CallArgs(Sender(m.sender), m.params)
  }

  /** The bytes serialize writes for the message. */
  function Wire(m: Message): Bytes
    requires |m.params| <= 7
  {
    SerializeCall(m.command, Args(m))
  }

  /** What deserialize has to give for it to have survived. */
  function Received(m: Message): Outcome {
    Data(m.command, [Sender(m.sender)] + Texts(m.params))
  }

  // ----- well-formed messages

  predicate NoSpace(s: Bytes) {
    ' ' !in s
  }

  predicate PlainCommand(c: Bytes) {
    NoSpace(c) && NoEol(c) && ToInt(c) == 0 && c != "raw" && c != "numeric"
  }

  predicate NameWithoutSpace(n: Name) {
    NoSpace(n.nick) && NoSpace(n.ident) && NoSpace(n.host)
  }

  predicate NameWithoutEol(n: Name) {
    NoEol(n.nick) && NoEol(n.ident) && NoEol(n.host)
  }

  predicate PlainName(n: Name) {
    NameWithoutSpace(n) && NameWithoutEol(n)
  }

  /** No parameter is empty and none but the last needs the rest of the line. */
  predicate FitParams(ps: seq<Bytes>) {
    forall i :: 0 <= i < |ps| ==> ps[i] != "" && (i < |ps| - 1 ==> !NeedsColon(ps[i]))
  }

  predicate ParamsWithoutEol(ps: seq<Bytes>) {
    forall i :: 0 <= i < |ps| ==> NoEol(ps[i])
  }

  /** The bytes a line ends with: the last parameter, or the command. */
  function LastWord(m: Message): Bytes {
    if m.params == [] then m.command else m.params[|m.params| - 1]
  }

  predicate EndsInSpace(s: Bytes) {
    s != "" && IsSpace(s[|s| - 1])
  }

  /** A word that can stand at the start of a line. */
  predicate StartsPlainly(s: Bytes) {
    s != "" && !IsSpace(s[0]) && s[0] != ':'
  }

  /** A CTCP payload in the place of the text, or no text at all. */
  predicate NotPlainPrivmsg(m: Message) {
    m.command == "PRIVMSG" && (|m.params| < 2 || (m.params[1] != "" && m.params[1][0] == CTCP))
  }

  /** The messages that come back as they were sent (IrcExact.RoundTripExactly). */
  predicate Survives(m: Message) {
    && PlainCommand(m.command)
    && (m.sender == NO_NAME ==> StartsPlainly(m.command))
    && (m.command == "" ==> m.params != [])
    && Transmissible(m.sender) && PlainName(m.sender)
    && |m.params| <= 7 && FitParams(m.params) && ParamsWithoutEol(m.params)
    && !EndsInSpace(LastWord(m))
    && !NotPlainPrivmsg(m)
  }

  /** A message that survives and has a command, so that it is dispatched. */
  predicate WellFormed(m: Message) {
    m.command != "" && Survives(m)
  }

  // ----- the line of a message

  /** Parameters as they stand on a line. */
  function ParamBytes(ps: seq<Bytes>): Bytes {
    if ps == [] then ""
    else if NeedsColon(ps[0]) then " :" + ps[0]
    else [' '] + ps[0] + ParamBytes(ps[1..])
  }

  lemma {:induction false} ParamsOnTheWire(ps: seq<Bytes>, n: nat)
    ensures SerializeParams(Texts(ps) + Padding(n)) == ParamBytes(ps) + "\r\n"
  {
    if ps != [] {
      assert Texts(ps) + Padding(n) == [Text(ps[0])] + (Texts(ps[1..]) + Padding(n));
      SerializeParamsCons(Text(ps[0]), Texts(ps[1..]) + Padding(n));
      if !NeedsColon(ps[0]) {
        ParamsOnTheWire(ps[1..], n);
      }
    }
  }

  lemma ScanToken(word: Bytes, rest: Bytes)
    requires word != "" && !NeedsColon(word)
    ensures ScanParams([' '] + word) == [word]
    ensures ScanParams([' '] + word + [' '] + rest) == [word] + ScanParams(rest)
  {
    var s := word + [' '] + rest;
    assert ([' '] + word)[1..] == word;
    assert [' '] + word + [' '] + rest == [' '] + s;
    assert ([' '] + s)[1..] == s;
    IndexOfIn(word, ' ', rest);
    assert s[..|word|] == word;
    assert s[|word| + 1..] == rest;
  }

  lemma ScanSpace(s: Bytes)
    ensures ScanParams([' '] + s) == ScanParams(s)
  {
    assert ([' '] + s)[1..] == s;
  }

  lemma ScanTrailing(s: Bytes)
    ensures ScanParams(" :" + s) == [s]
  {
    assert (" :" + s)[1..] == [':'] + s;
    assert ([':'] + s)[1..] == s;
  }

  lemma ParamBytesShape(ps: seq<Bytes>)
    requires ps != [] && FitParams(ps)
    ensures exists t :: t != "" && ParamBytes(ps) == [' '] + t
  {
    if NeedsColon(ps[0]) {
      assert ParamBytes(ps) == [' '] + ([':'] + ps[0]);
    } else {
      assert ParamBytes(ps) == [' '] + (ps[0] + ParamBytes(ps[1..]));
    }
  }

  lemma ScanLastToken(word: Bytes)
    requires word != "" && !NeedsColon(word)
    ensures ScanParams([' '] + word + "") == [word] + []
  {
    assert [' '] + word + "" == [' '] + word;
    ScanToken(word, "");
  }

  lemma ScanMiddle(word: Bytes, more: seq<Bytes>)
    requires word != "" && !NeedsColon(word)
    requires more != [] && FitParams(more) && ScanParams(ParamBytes(more)) == more
    ensures ScanParams([' '] + word + ParamBytes(more)) == [word] + more
  {
    ParamBytesShape(more);
    var t :| t != "" && ParamBytes(more) == [' '] + t;
    hide ParamBytes, NeedsColon, FitParams;
    ScanSpace(t);
    ScanToken(word, t);
    hide ScanParams;
    Assoc([' '] + word, [' '], t);
  }

  lemma {:induction false} ScanParamBytes(ps: seq<Bytes>)
    requires FitParams(ps)
    ensures ScanParams(ParamBytes(ps)) == ps
  {
    if ps != [] {
      assert ps == [ps[0]] + ps[1..];
      if NeedsColon(ps[0]) {
        ScanTrailing(ps[0]);
      } else {
        ScanParamBytes(ps[1..]);
        if ps[1..] == [] {
          ScanLastToken(ps[0]);
        } else {
          ScanMiddle(ps[0], ps[1..]);
        }
      }
    }
  }

  /** The line of a message, without the line end. */
  function Line(m: Message): Bytes {
    SerializePrefix(Sender(m.sender)) + m.command + ParamBytes(m.params)
  }

  lemma WireIsLine(m: Message)
    requires |m.params| <= 7 && m.command != "raw"
    ensures Wire(m) == Line(m) + "\r\n"
  {
    assert Args(m)[1..] == Texts(m.params) + Padding(7 - |m.params|);
    ParamsOnTheWire(m.params, 7 - |m.params|);
  }

  lemma CommandBefore(prefix: Bytes, command: Bytes, tail: Bytes)
    requires NoSpace(command) && (tail == "" || tail[0] == ' ')
    ensures CommandParts(prefix, command + tail) == Parts(prefix, command, ScanParams(tail))
  {
    if tail == "" {
      assert command + tail == command;
    } else {
      var t := tail[1..];
      assert tail == [' '] + t;
      ScanSpace(t);
      var rest := command + [' '] + t;
      Assoc(command, [' '], t);
      IndexOfIn(command, ' ', t);
      assert rest[..|command|] == command;
      assert rest[|command| + 1..] == t;
    }
  }

  lemma CommandLineParts(prefix: Bytes, command: Bytes, ps: seq<Bytes>)
    requires NoSpace(command) && FitParams(ps)
    ensures CommandParts(prefix, command + ParamBytes(ps)) == Parts(prefix, command, ps)
  {
    if ps != [] {
      ParamBytesShape(ps);
    }
    ScanParamBytes(ps);
    hide ScanParams, CommandParts;
    CommandBefore(prefix, command, ParamBytes(ps));
  }

  lemma PrefixedParts(prefix: Bytes, rest: Bytes)
    requires NoSpace(prefix)
    ensures LineParts([':'] + prefix + [' '] + rest) == CommandParts(prefix, rest)
  {
    var line := [':'] + prefix + [' '] + rest;
    assert ' ' !in [':'] + prefix;
    IndexOfIn([':'] + prefix, ' ', rest);
    assert line[1..|prefix| + 1] == prefix;
    assert line[|prefix| + 2..] == rest;
  }

  lemma AssembleKeeps(n: Name, c: char)
    requires c !in n.nick && c !in n.ident && c !in n.host && c != '!' && c != '@'
    ensures c !in Assemble(n)
  {
  }

  lemma UnprefixedParts(rest: Bytes)
    requires rest != "" && rest[0] != ':'
    ensures LineParts(rest) == CommandParts("", rest)
  {
  }

  lemma LineShape(m: Message)
    ensures var prefix, rest := Assemble(m.sender), m.command + ParamBytes(m.params);
      Line(m) == if prefix == "" then rest else [':'] + prefix + [' '] + rest
  {
  }

  lemma PartsOfMessage(m: Message)
    requires NoSpace(m.command) && FitParams(m.params) && PlainName(m.sender)
    requires Assemble(m.sender) == "" ==> m.command != "" && m.command[0] != ':'
    ensures Line(m) != "" && LineParts(Line(m)) == Parts(Assemble(m.sender), m.command, m.params)
  {
    var prefix, rest := Assemble(m.sender), m.command + ParamBytes(m.params);
    CommandLineParts(prefix, m.command, m.params);
    AssembleKeeps(m.sender, ' ');
    LineShape(m);
    PrefixedParts(prefix, rest);
    if prefix == "" {
      UnprefixedParts(rest);
    }
  }

  // ----- the line is cut and trimmed to itself

  lemma {:induction false} ParamBytesWithoutEol(ps: seq<Bytes>)
    requires ParamsWithoutEol(ps)
    ensures NoEol(ParamBytes(ps))
  {
    if ps != [] {
      ParamBytesWithoutEol(ps[1..]);
      assert NoEol(ps[0]);
    }
  }

  lemma LineWithoutEol(m: Message)
    requires NoEol(m.command) && NameWithoutEol(m.sender) && ParamsWithoutEol(m.params)
    ensures NoEol(Line(m))
  {
    ParamBytesWithoutEol(m.params);
    AssembleKeeps(m.sender, CR);
    AssembleKeeps(m.sender, LF);
    LineShape(m);
    hide Line, Assemble, ParamBytes;
  }

  lemma {:induction false} ParamBytesEnd(ps: seq<Bytes>)
    requires FitParams(ps) && ps != []
    ensures ParamBytes(ps) != "" && ParamBytes(ps)[|ParamBytes(ps)| - 1] == ps[|ps| - 1][|ps[|ps| - 1]| - 1]
  {
    if |ps| > 1 {
      ParamBytesEnd(ps[1..]);
    }
  }

  lemma LastByte(a: Bytes, b: Bytes)
    requires b != ""
    ensures (a + b)[|a + b| - 1] == b[|b| - 1]
  {
  }

  lemma LineEnd(m: Message)
    requires LastWord(m) != "" && FitParams(m.params)
    ensures Line(m) != "" && Line(m)[|Line(m)| - 1] == LastWord(m)[|LastWord(m)| - 1]
  {
    var front := SerializePrefix(Sender(m.sender));
    if m.params != [] {
      ParamBytesEnd(m.params);
      LastByte(front + m.command, ParamBytes(m.params));
    } else {
      LastByte(front, m.command);
      assert Line(m) == front + m.command;
    }
  }

  lemma LineStart(m: Message)
    requires Assemble(m.sender) == "" ==> m.command != ""
    ensures Line(m) != "" && Line(m)[0] == if Assemble(m.sender) == "" then m.command[0] else ':'
  {
    LineShape(m);
  }

  lemma LineTight(m: Message)
    requires LastWord(m) != "" && FitParams(m.params) && !EndsInSpace(LastWord(m))
    requires Assemble(m.sender) == "" ==> m.command != "" && !IsSpace(m.command[0])
    ensures Tight(Line(m))
  {
    LineEnd(m);
    LineStart(m);
    hide Line, SerializePrefix, Assemble;
  }

  /** A line without CR and LF, put before a CR LF, is what the next cut returns, but for the white
      space around it. */
  lemma CutLine(line: Bytes, rest: Bytes)
    requires NoEol(line)
    ensures NextMessage(line + "\r\n" + rest) == Trimmed(line)
    ensures Remaining(line + "\r\n" + rest) == [LF] + rest
  {
    CrLf(line, rest);
    var data := line + [CR] + ([LF] + rest);
    EndPosCut(line, CR, [LF] + rest);
    hide EndPos, Trimmed;
    assert data[..|line|] == line;
    assert data[|line| + 1..] == [LF] + rest;
  }

  /** A message whose line is cut, trimmed and taken apart as it was put together, whatever the command
      means. */
  predicate Printable(m: Message) {
    && NoSpace(m.command) && NoEol(m.command) && PlainName(m.sender)
    && (Assemble(m.sender) == "" ==> StartsPlainly(m.command))
    && FitParams(m.params) && ParamsWithoutEol(m.params) && LastWord(m) != "" && !EndsInSpace(LastWord(m))
  }

  lemma LineIsParsed(m: Message, rest: Bytes)
    requires Printable(m)
    ensures Deserialized(Line(m) + "\r\n" + rest) == CallOf(Parts(Assemble(m.sender), m.command, m.params))
    ensures Remaining(Line(m) + "\r\n" + rest) == [LF] + rest
  {
    hide Line, Assemble, EndsInSpace, LastWord, FitParams, ParamsWithoutEol, CallOf, LineParts, EndPos, Trimmed,
      Remaining;
    LineTight(m);
    LineWithoutEol(m);
    PartsOfMessage(m);
    CutLine(Line(m), rest);
    TrimmedTight(Line(m));
  }

  lemma CallOfPlain(m: Message)
    requires PlainCommand(m.command) && Transmissible(m.sender) && !NotPlainPrivmsg(m)
    ensures CallOf(Parts(Assemble(m.sender), m.command, m.params)) == Received(m)
  {
    PrefixRoundTrip(m.sender);
  }

  lemma SurvivingLine(m: Message)
    requires Survives(m)
    ensures Wire(m) == Line(m) + "\r\n" && Tight(Line(m)) && NoEol(Line(m))
    ensures ParseLine(Line(m)) == Received(m)
  {
    assert Assemble(m.sender) == "" ==> m.sender == NO_NAME;
    assert LastWord(m) != "";
    hide Line, Wire, Assemble, ToInt, Transmissible, NotPlainPrivmsg;
    WireIsLine(m);
    LineTight(m);
    LineWithoutEol(m);
    PartsOfMessage(m);
    CallOfPlain(m);
  }

  /** Every message that survives comes back as it was sent, and the buffer keeps LF and what follows. */
  lemma RoundTrip(m: Message, rest: Bytes)
    requires Survives(m)
    ensures Deserialized(Wire(m) + rest) == Received(m)
    ensures Remaining(Wire(m) + rest) == [LF] + rest
  {
    SurvivingLine(m);
    CutLine(Line(m), rest);
    TrimmedTight(Line(m));
  }
}
