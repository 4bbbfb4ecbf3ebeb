/**
 What one line of the IRC protocol means: the value IRCSerializer::deserialize gives for a line and the
 bytes IRCSerializer::serialize writes for a call, both said as direct scans and sums over the bytes
 (examples/ircpeer/ircpeer.cpp; RFC 1459, sections 2.3.1 and 2.4).
 */
module IrcLine {
  import opened ByteArray
  import opened IrcName

  /** The QVariants a call can hold: an invalid one, a QByteArray, an IRCName. */
  datatype Variant = Invalid | Text(bytes: Bytes) | Sender(name: Name)

  /** A signal name with its parameters, or an index past the end of a list. */
  datatype Outcome = Data(command: Bytes, params: seq<Variant>) | OutOfRange

  const NO_OP := Data("", [])

  predicate IsNoOp(d: Outcome) {
    d.Data? && d.command == "" && d.params == []
  }

  predicate IsProtocolError(d: Outcome) {
    d.Data? && d.command == "" && d.params != []
  }

  function Texts(args: seq<Bytes>): (r: seq<Variant>)
    ensures |r| == |args|
    ensures forall i :: 0 <= i < |args| ==> r[i] == Text(args[i])
  {
    if args == [] then [] else [Text(args[0])] + Texts(args[1..])
  }

  lemma TextsInjective(a: seq<Bytes>, b: seq<Bytes>)
    requires Texts(a) == Texts(b)
    ensures a == b
  {
    forall i | 0 <= i < |a|
      ensures a[i] == b[i]
    {
      assert Texts(a)[i] == Texts(b)[i];
    }
  }

  lemma TextsReplaced(head: Variant, args: seq<Bytes>, text: Bytes)
    requires |args| >= 2
    ensures ([head] + Texts(args))[2 := Text(text)] == [head, Text(args[0]), Text(text)] + Texts(args[2..])
  {
  }

  // ----- from a line to a call

  /** The parameters of a line from just after the space that ends its command: spaces are skipped, a
      ':' makes the rest of the line one parameter, anything else is a parameter up to the next space. */
  function ScanParams(s: Bytes): (args: seq<Bytes>)
    decreases |s|
  {
    if s == "" then []
    else if s[0] == ' ' then ScanParams(s[1..])
    else if s[0] == ':' then [s[1..]]
    else
      var i := IndexOf(s, ' ');
      if i == -1 then [s] else [s[..i]] + ScanParams(s[i + 1..])
  }

  /** The leading parameters of a numeric reply that carry nothing. */
  function DropMarkers(args: seq<Bytes>): seq<Bytes> {
    if args != [] && (args[0] == "=" || args[0] == "@") then DropMarkers(args[1..]) else args
  }

  /** Every piece followed by one space. */
  function Spaced(pieces: seq<Bytes>): Bytes {
    if pieces == [] then "" else pieces[0] + " " + Spaced(pieces[1..])
  }

  /** A numeric reply: the first parameter (one's own nick) and the markers after it go; what is kept
      becomes a target and one text. */
  function NumericCall(number: int, sender: Name, args: seq<Bytes>): (d: Outcome)
    ensures d.Data? ==> d.params != [] && d.params[0].Sender?
  {
    var kept := if args == [] then [] else DropMarkers(args[1..]);
    if kept == [] then OutOfRange
    else if |kept| == 1 then Data("numeric", [Sender(sender), Text(""), Text(kept[0])])
    else if number < 300 then Data("numeric", [Sender(sender), Text(""), Text(Spaced(kept))])
    else if |kept| > 2 then Data("numeric", [Sender(sender), Text(kept[0]), Text(Spaced(kept[1..]))])
    else Data("numeric", [Sender(sender), Text(kept[0]), Text(kept[1])])
  }

  const CTCP: char := '\U{1}'

  /** A CTCP request is a message whose text starts with byte 1: its first word becomes part of the
      command, the rest stays the text, and every byte 1 disappears. */
  function PrivmsgCall(sender: Name, args: seq<Bytes>): (d: Outcome)
    ensures d.Data? ==> d.params != [] && d.params[0].Sender?
  {
    if |args| < 2 then OutOfRange
    else if args[1] != "" && args[1][0] == CTCP then
      var payload := Without(args[1], CTCP);
      var space := IndexOf(payload, ' ');
      var word := if space == -1 then |payload| else space;
      Data("CTCP-" + payload[..word], [Sender(sender), Text(args[0]), Text(payload[word..])] + Texts(args[2..]))
    else Data("PRIVMSG", [Sender(sender)] + Texts(args))
  }

  /** A trimmed line taken apart.  A line that is only a prefix has no word where the command is read. */
  datatype Parts = Parts(prefix: Bytes, command: Bytes, args: seq<Bytes>) | NoCommand

  function CommandParts(prefix: Bytes, rest: Bytes): Parts {
    var i := IndexOf(rest, ' ');
    if i == -1 then Parts(prefix, rest, []) else Parts(prefix, rest[..i], ScanParams(rest[i + 1..]))
  }

  function LineParts(line: Bytes): Parts
    requires line != ""
  {
    if line[0] == ':' then
      var i := IndexOf(line, ' ');
      if i == -1 then NoCommand else CommandParts(line[1..i], line[i + 1..])
    else CommandParts("", line)
  }

  function CallOf(parts: Parts): (d: Outcome)
    ensures d.Data? ==> d.params != [] && d.params[0].Sender?
  {
    match parts
    case NoCommand => OutOfRange
    case Parts(prefix, command, args) =>
      var number := ToInt(command);
      if number != 0 then NumericCall(number, Name(prefix + ":" + command, "", prefix), args)
      else if command == "numeric" then NumericCall(0, FromPrefix(prefix), args)
      else if command == "PRIVMSG" then PrivmsgCall(FromPrefix(prefix), args)
      else Data(command, [Sender(FromPrefix(prefix))] + Texts(args))
  }

  function ParseLine(line: Bytes): (d: Outcome)
    requires line != ""
    ensures d.Data? ==> d.params != [] && d.params[0].Sender?
  {
    CallOf(LineParts(line))
  }

  lemma NoCommandRunsOut()
    ensures CallOf(NoCommand) == OutOfRange
  {
  }

  // ----- from a call to a line

  predicate NeedsColon(ba: Bytes) {
    ' ' in ba || (ba != "" && ba[0] == ':')
  }

  /** What serialize writes after the command: parameters up to the first one that is not text or that
      only fits at the end of a line. */
  function SerializeParams(ps: seq<Variant>): Bytes {
    if ps == [] || !ps[0].Text? then "\r\n"
    else if NeedsColon(ps[0].bytes) then " :" + ps[0].bytes + "\r\n"
    else " " + ps[0].bytes + SerializeParams(ps[1..])
  }

  lemma SerializeParamsCons(p: Variant, later: seq<Variant>)
    ensures SerializeParams([p] + later) ==
            if !p.Text? then "\r\n"
            else if NeedsColon(p.bytes) then " :" + p.bytes + "\r\n"
            else " " + p.bytes + SerializeParams(later)
  {
    assert ([p] + later)[1..] == later;
  }

  lemma SerializeNoParams()
    ensures SerializeParams([]) == "\r\n"
  {
  }

  function SerializePrefix(p: Variant): Bytes {
    match p
    case Invalid => ""
    case Text(ba) => if ba == "" then "" else ":" + ba + " "
    case Sender(name) => if Assemble(name) == "" then "" else ":" + Assemble(name) + " "
  }

  /** The line for a call with `args` as p1 to p8. */
  function SerializeCall(fn: Bytes, args: seq<Variant>): Bytes
    requires |args| == 8
  {
    if fn == "raw" then (if args[0].Text? then args[0].bytes else "") + "\r\n"
    else SerializePrefix(args[0]) + fn + SerializeParams(args[1..])
  }

  // ----- words and bytes

  /** The parameters as the split line gives them: empty words are skipped, the words from the first
      one with a leading ':' on are joined again. */
  function WordParams(words: seq<Bytes>): seq<Bytes> {
    if words == [] then []
    else if words[0] == "" then WordParams(words[1..])
    else if words[0][0] == ':' then [words[0][1..] + SpacesBefore(words[1..])]
    else [words[0]] + WordParams(words[1..])
  }

  /** Every word after one space. */
  function SpacesBefore(words: seq<Bytes>): Bytes {
    if words == [] then "" else " " + words[0] + SpacesBefore(words[1..])
  }

  lemma {:induction false} JoinFirst(words: seq<Bytes>)
    requires words != []
    ensures JoinWords(words) == words[0] + SpacesBefore(words[1..])
  {
    if |words| > 1 {
      JoinFirst(words[1..]);
    }
  }

  lemma TrailingIsScanned(s: Bytes)
    requires s != "" && s[0] == ':'
    ensures WordParams(Split(s)) == [s[1..]]
  {
    var words := Split(s);
    JoinSplit(s);
    JoinFirst(words);
    assert words[0] != "";
    hide Split, JoinWords, IndexOf, SpacesBefore;
    var first, more := words[0], SpacesBefore(words[1..]);
    assert s == first + more;
    DropFirst(first, more);
  }

  lemma ScanCut(word: Bytes, rest: Bytes)
    requires ' ' !in word && !(word != "" && word[0] == ':')
    ensures ScanParams(word + [' '] + rest) == (if word == "" then [] else [word]) + ScanParams(rest)
  {
    var s := word + [' '] + rest;
    IndexOfIn(word, ' ', rest);
    assert s[..|word|] == word;
    assert s[|word| + 1..] == rest;
  }

  lemma WordsCut(word: Bytes, words: seq<Bytes>)
    requires !(word != "" && word[0] == ':')
    ensures WordParams([word] + words) == (if word == "" then [] else [word]) + WordParams(words)
  {
    assert ([word] + words)[1..] == words;
  }

  /** Splitting the line, skipping empty words and joining the trailing ones is the same as scanning
      its bytes. */
  lemma {:induction false} WordsAreScanned(s: Bytes)
    ensures WordParams(Split(s)) == ScanParams(s)
    decreases |s|
  {
    if s != "" && s[0] == ':' {
      TrailingIsScanned(s);
    } else if ' ' in s {
      var word, rest := CutAt(s, ' ');
      WordsAreScanned(rest);
      SplitCut(word, rest);
      ScanCut(word, rest);
      WordsCut(word, Split(rest));
      hide Split, WordParams, ScanParams;
    }
  }
}
