/**
 What the rewriting of numeric replies and CTCP requests keeps (examples/ircpeer/ircpeer.cpp).
 */
module IrcReplies {
  import opened ByteArray
  import opened IrcName
  import opened IrcLine
  import opened IrcFraming
  import opened IrcRoundTrip

  // ----- numeric replies

  predicate IsMarker(arg: Bytes) {
    arg == "=" || arg == "@"
  }

  /** What a numeric reply keeps of its parameters. */
  function Kept(args: seq<Bytes>): seq<Bytes> {
    if args == [] then [] else DropMarkers(args[1..])
  }

  /** Only the nick and the markers right after it go. */
  lemma {:induction false} DropMarkersIsSuffix(args: seq<Bytes>) returns (n: nat)
    ensures n <= |args| && DropMarkers(args) == args[n..]
    ensures forall i :: 0 <= i < n ==> IsMarker(args[i])
    ensures n < |args| ==> !IsMarker(args[n])
  {
    n := 0;
    if args != [] && IsMarker(args[0]) {
      var k := DropMarkersIsSuffix(args[1..]);
      n := k + 1;
      assert forall i :: 1 <= i < n ==> args[i] == args[1..][i - 1];
    }
  }

  /** A numeric reply runs past the end of its parameters exactly when nothing but markers follows the
      nick. */
  lemma NumericOutOfRange(number: int, sender: Name, args: seq<Bytes>)
    ensures NumericCall(number, sender, args) == OutOfRange <==> forall i :: 1 <= i < |args| ==> IsMarker(args[i])
  {
    if args != [] {
      var rest := args[1..];
      var n := DropMarkersIsSuffix(rest);
      assert forall i :: 1 <= i < |args| ==> args[i] == rest[i - 1];
      assert n < |rest| ==> args[n + 1] == rest[n];
      assert forall i :: 0 <= i < |rest| ==> rest[i] == args[i + 1];
      hide DropMarkers;
    }
  }

  /** Where piece i begins in the spaced text. */
  function Offset(pieces: seq<Bytes>, i: nat): nat
    requires i <= |pieces|
  {
    if i == 0 then 0 else |pieces[0]| + 1 + Offset(pieces[1..], i - 1)
  }

  /** Every piece stands in the spaced text, followed by a space, after the pieces before it. */
  lemma {:induction false} SpacedHolds(pieces: seq<Bytes>, i: nat)
    requires i < |pieces|
    ensures Offset(pieces, i) + |pieces[i]| + 1 == Offset(pieces, i + 1) <= |Spaced(pieces)|
    ensures Spaced(pieces)[Offset(pieces, i)..Offset(pieces, i + 1)] == pieces[i] + " "
  {
    var first, more := pieces[0] + " ", Spaced(pieces[1..]);
    assert Spaced(pieces) == first + more;
    if i == 0 {
      assert (first + more)[0..|first|] == first;
    } else {
      SpacedHolds(pieces[1..], i - 1);
      var a, b := Offset(pieces[1..], i - 1), Offset(pieces[1..], i);
      SliceOfSecond(first, more, a, b);
      assert Offset(pieces, i + 1) == |first| + b;
    }
  }

  lemma SliceOfSecond(a: Bytes, b: Bytes, i: nat, j: nat)
    requires i <= j <= |b|
    ensures (a + b)[|a| + i..|a| + j] == b[i..j]
  {
  }

  /** A text spaced out of words gives the words back when it is split. */
  lemma {:induction false} SplitOfSpaced(words: seq<Bytes>)
    requires forall i :: 0 <= i < |words| ==> ' ' !in words[i]
    ensures Split(Spaced(words)) == words + [""]
  {
    if words != [] {
      SplitOfSpaced(words[1..]);
      SplitCut(words[0], Spaced(words[1..]));
      hide Split;
      OneWordMore(words);
    }
  }

  lemma OneWordMore(words: seq<Bytes>)
    requires words != []
    ensures [words[0]] + (words[1..] + [""]) == words + [""]
  {
  }

  /** Where a kept parameter is: the entry of the result, and the byte it begins at. */
  datatype Spot = Spot(entry: nat, begin: nat)

  /** The text of an entry; a sender has none. */
  function EntryText(params: seq<Variant>, entry: nat): Bytes {
    if entry < |params| && params[entry].Text? then params[entry].bytes else ""
  }

  function End(spot: Spot, word: Bytes): nat {
    spot.begin + |word|
  }

  /** The word stands at the spot, and one space or the end of the entry follows it. */
  predicate StandsAt(params: seq<Variant>, spot: Spot, word: Bytes) {
    var text := EntryText(params, spot.entry);
    && End(spot, word) <= |text| && text[spot.begin..End(spot, word)] == word
    && (End(spot, word) == |text| || text[End(spot, word)] == ' ')
  }

  /** The next word begins one byte after a word in the same entry, or at the start of the next entry when
      the word is all of its own. */
  predicate ComesNext(params: seq<Variant>, spot: Spot, word: Bytes, next: Spot) {
    || (next.entry == spot.entry && next.begin == End(spot, word) + 1)
    || (next.entry == spot.entry + 1 && next.begin == 0 && spot.begin == 0 && EntryText(params, spot.entry) == word)
  }

  /** The words stand one after the other, up to the end of entry three, or to a space before it when it
      holds more than one. */
  ghost predicate Laid(params: seq<Variant>, words: seq<Bytes>, spots: seq<Spot>) {
    && |spots| == |words| > 0
    && (forall i :: 0 <= i < |words| ==> StandsAt(params, spots[i], words[i]))
    && (forall i :: 0 <= i < |words| - 1 ==> ComesNext(params, spots[i], words[i], spots[i + 1]))
    && var last := |words| - 1;
       && spots[last].entry == 2
       && |EntryText(params, 2)| - End(spots[last], words[last]) == if spots[last].begin == 0 then 0 else 1
  }

  /** Entries two and three hold the words in order, each alone or followed by one space, and not a byte
      more. */
  ghost predicate Carries(params: seq<Variant>, words: seq<Bytes>, spots: seq<Spot>) {
    && |params| == 3 && params[1].Text? && params[2].Text?
    && Laid(params, words, spots)
    && (spots[0] == Spot(1, 0) || (spots[0] == Spot(2, 0) && params[1] == Text("")))
  }

  lemma {:induction false} OffsetAtEnd(pieces: seq<Bytes>)
    ensures Offset(pieces, |pieces|) == |Spaced(pieces)|
  {
    if pieces != [] {
      OffsetAtEnd(pieces[1..]);
    }
  }

  /** The spots of pieces spaced out in entry three. */
  function SpacedSpots(pieces: seq<Bytes>): seq<Spot> {
    seq(|pieces|, i requires 0 <= i < |pieces| => Spot(2, Offset(pieces, i)))
  }

  lemma SpacedStands(params: seq<Variant>, pieces: seq<Bytes>, i: nat)
    requires i < |pieces| && EntryText(params, 2) == Spaced(pieces)
    ensures StandsAt(params, Spot(2, Offset(pieces, i)), pieces[i])
    ensures Offset(pieces, i + 1) == Offset(pieces, i) + |pieces[i]| + 1
  {
    SpacedHolds(pieces, i);
    hide Spaced, Offset;
    var text, begin, end := Spaced(pieces), Offset(pieces, i), Offset(pieces, i + 1);
    var slice, n := text[begin..end], |pieces[i]|;
    assert slice[..n] == pieces[i] && slice[n] == ' ';
    assert text[begin..begin + n] == slice[..n] && text[begin + n] == slice[n];
  }

  lemma SpacedLaid(params: seq<Variant>, pieces: seq<Bytes>)
    requires EntryText(params, 2) == Spaced(pieces) && |pieces| > 1
    ensures Laid(params, pieces, SpacedSpots(pieces)) && SpacedSpots(pieces)[0] == Spot(2, 0)
  {
    forall i | 0 <= i < |pieces|
      ensures StandsAt(params, Spot(2, Offset(pieces, i)), pieces[i])
      ensures Offset(pieces, i + 1) == Offset(pieces, i) + |pieces[i]| + 1
    {
      SpacedStands(params, pieces, i);
    }
    OffsetAtEnd(pieces);
    assert Offset(pieces, 0) == 0;
    hide Spaced, Offset, StandsAt;
  }

  lemma FirstStands(params: seq<Variant>, first: Bytes)
    requires EntryText(params, 1) == first
    ensures StandsAt(params, Spot(1, 0), first) && ComesNext(params, Spot(1, 0), first, Spot(2, 0))
  {
  }

  lemma LaidAfter(params: seq<Variant>, first: Bytes, words: seq<Bytes>, spots: seq<Spot>)
    requires EntryText(params, 1) == first && Laid(params, words, spots) && spots[0] == Spot(2, 0)
    ensures Laid(params, [first] + words, [Spot(1, 0)] + spots)
  {
    hide StandsAt, ComesNext, EntryText, End;
    FirstStands(params, first);
    var all, at := [first] + words, [Spot(1, 0)] + spots;
    forall i | 0 <= i < |all|
      ensures StandsAt(params, at[i], all[i])
      ensures i < |all| - 1 ==> ComesNext(params, at[i], all[i], at[i + 1])
    {
      if i > 0 {
        assert StandsAt(params, spots[i - 1], words[i - 1]);
      }
    }
  }

  /** A numeric reply either runs out of parameters, when nothing is kept, or becomes a sender and two
      texts which hold all that is kept, in order.  The first of the texts is one of several kept
      parameters of a reply from 300 on, and empty otherwise. */
  lemma NumericReply(number: int, sender: Name, args: seq<Bytes>) returns (spots: seq<Spot>)
    ensures NumericCall(number, sender, args) == OutOfRange <==> Kept(args) == []
    ensures Kept(args) != [] ==>
      var r := NumericCall(number, sender, args);
      && r.Data? && r.command == "numeric" && r.params[0] == Sender(sender)
      && Carries(r.params, Kept(args), spots)
      && (spots[0].entry == 1 <==> number >= 300 && |Kept(args)| > 1)
  {
    var r, kept := NumericCall(number, sender, args), Kept(args);
    spots := [];
    if |kept| == 1 {
      spots := [Spot(2, 0)];
      assert StandsAt(r.params, Spot(2, 0), kept[0]);
    } else if kept != [] && number < 300 {
      spots := SpacedSpots(kept);
      SpacedLaid(r.params, kept);
    } else if |kept| > 2 {
      SpacedLaid(r.params, kept[1..]);
      LaidAfter(r.params, kept[0], kept[1..], SpacedSpots(kept[1..]));
      spots := [Spot(1, 0)] + SpacedSpots(kept[1..]);
      assert kept == [kept[0]] + kept[1..];
    } else if kept != [] {
      spots := [Spot(1, 0), Spot(2, 0)];
      assert StandsAt(r.params, Spot(1, 0), kept[0]) && StandsAt(r.params, Spot(2, 0), kept[1]);
    }
  }

  // ----- CTCP

  /** A request, as a call with its parts. */
  lemma RequestParts(sender: Name, args: seq<Bytes>) returns (word: Bytes, text: Bytes)
    requires |args| >= 2 && args[1] != "" && args[1][0] == CTCP
    ensures PrivmsgCall(sender, args) == Data("CTCP-" + word, [Sender(sender)] + Texts([args[0], text] + args[2..]))
    ensures word + text == Without(args[1], CTCP) && ' ' !in word && (text == "" || text[0] == ' ')
  {
    var payload := Without(args[1], CTCP);
    word, text := CtcpWord(payload);
    hide Without, IndexOf;
    TextsOfRequest(sender, args[0], text, args[2..]);
  }

  lemma TextsOfRequest(sender: Name, target: Bytes, text: Bytes, more: seq<Bytes>)
    ensures [Sender(sender)] + Texts([target, text] + more) == [Sender(sender), Text(target), Text(text)] + Texts(more)
  {
  }

  /** A text whose first byte is 1 is split into a word and the rest, and nothing but the bytes 1 is
      lost. */
  lemma CtcpKeepsPayload(sender: Name, args: seq<Bytes>)
    requires |args| >= 2 && args[1] != "" && args[1][0] == CTCP
    ensures exists word: Bytes, text: Bytes ::
      PrivmsgCall(sender, args) == Data("CTCP-" + word, [Sender(sender), Text(args[0]), Text(text)] + Texts(args[2..]))
      && word + text == Without(args[1], CTCP)
      && ' ' !in word && (text == "" || text[0] == ' ')
  {
    hide Without, PrivmsgCall;
    var word, text := RequestParts(sender, args);
    TextsOfRequest(sender, args[0], text, args[2..]);
  }

  /** The first word of a payload and the rest. */
  lemma CtcpWord(payload: Bytes) returns (word: Bytes, text: Bytes)
    ensures var space := IndexOf(payload, ' ');
      var n := if space == -1 then |payload| else space;
      word == payload[..n] && text == payload[n..]
    ensures word + text == payload && ' ' !in word && (text == "" || text[0] == ' ')
  {
    var space := IndexOf(payload, ' ');
    var n := if space == -1 then |payload| else space;
    word, text := payload[..n], payload[n..];
    hide IndexOf;
    SplitAt(payload, n);
  }

  /** The text the client shows for its own action (examples/ircpeer/mainwindow.cpp). */
  function LocalEcho(message: Bytes): Bytes {
    Mid(message, 8, |message| - 9)
  }

  const ACTION := [CTCP] + "ACTION "

  /** What /me sends. */
  function ActionMessage(nick: Bytes, channel: Bytes, text: Bytes): Message {
    Message("PRIVMSG", Name(nick, "", ""), [channel, ACTION + text + [CTCP]])
  }

  lemma EchoOfAction(text: Bytes)
    ensures LocalEcho(ACTION + text + [CTCP]) == text
  {
    var message := ACTION + text + [CTCP];
    assert |ACTION| == 8;
    assert message[8..8 + |text|] == text;
  }

  lemma ActionWord()
    ensures Without([CTCP], CTCP) == "" && Without("ACTION ", CTCP) == "ACTION "
    ensures Without(ACTION, CTCP) == "ACTION "
  {
    WithoutConcat([CTCP], "ACTION ", CTCP);
    assert "" + "ACTION " == "ACTION ";
  }

  lemma PayloadOfAction(text: Bytes)
    requires CTCP !in text
    ensures Without(ACTION + text + [CTCP], CTCP) == "ACTION" + [' '] + text
  {
    assert Without(text, CTCP) == text;
    hide *;
    WithoutConcat(ACTION + text, [CTCP], CTCP);
    WithoutConcat(ACTION, text, CTCP);
    ActionWord();
    ActionText(text);
  }

  lemma SpaceOfAction(text: Bytes)
    ensures IndexOf("ACTION" + [' '] + text, ' ') == 6
  {
    IndexOfIn("ACTION", ' ', text);
  }

  lemma ActionText(text: Bytes)
    ensures "ACTION " + text + "" == "ACTION" + [' '] + text
  {
  }

  predicate PlainWord(s: Bytes) {
    s != "" && !NeedsColon(s) && NoEol(s)
  }

  /** An action typed with /me arrives as CTCP-ACTION, and its text is one space and what the sender's
      own window shows. */
  lemma ActionArrives(nick: Bytes, channel: Bytes, text: Bytes, rest: Bytes)
    requires NoSpace(nick) && NoEol(nick) && PlainWord(channel)
    requires NoEol(text) && CTCP !in text
    ensures var m := ActionMessage(nick, channel, text);
      Deserialized(Wire(m) + rest)
      == Data("CTCP-ACTION", [Sender(FromPrefix(nick)), Text(channel), Text(" " + LocalEcho(m.params[1]))])
  {
    var m := ActionMessage(nick, channel, text);
    EchoOfAction(text);
    ActionLine(nick, channel, text);
    CutLine(Line(m), rest);
    TrimmedTight(Line(m));
    hide Line, LineParts, Wire, EndPos, Trimmed, Remaining, LocalEcho, ToInt, FromPrefix, PrivmsgCall, NumericCall;
    ActionCall(FromPrefix(nick), channel, text);
    NotANumber("PRIVMSG", 0);
    assert ParseLine(Line(m)) == CallOf(Parts(nick, "PRIVMSG", m.params));
  }

  lemma ActionCall(sender: Name, channel: Bytes, text: Bytes)
    requires CTCP !in text
    ensures PrivmsgCall(sender, [channel, ACTION + text + [CTCP]])
         == Data("CTCP-ACTION", [Sender(sender), Text(channel), Text(" " + text)])
  {
    var args := [channel, ACTION + text + [CTCP]];
    PayloadOfAction(text);
    SpaceOfAction(text);
    hide Without, IndexOf;
    ActionSplit(text);
    assert args[1][0] == CTCP;
    assert Texts(args[2..]) == [];
    assert "CTCP-" + "ACTION" == "CTCP-ACTION";
  }

  lemma ActionSplit(text: Bytes)
    ensures ("ACTION" + [' '] + text)[..6] == "ACTION"
    ensures ("ACTION" + [' '] + text)[6..] == " " + text
  {
  }

  lemma ActionFits(nick: Bytes, channel: Bytes, text: Bytes)
    requires PlainWord(channel) && NoEol(text) && CTCP !in text
    ensures var m := ActionMessage(nick, channel, text);
      FitParams(m.params) && ParamsWithoutEol(m.params) && !EndsInSpace(LastWord(m)) && Assemble(m.sender) == nick
  {
    var m := ActionMessage(nick, channel, text);
    var message := m.params[1];
    assert message[7] == ' ' && message[|message| - 1] == CTCP;
  }

  lemma ActionLine(nick: Bytes, channel: Bytes, text: Bytes)
    requires NoSpace(nick) && NoEol(nick) && PlainWord(channel)
    requires NoEol(text) && CTCP !in text
    ensures var m := ActionMessage(nick, channel, text);
      Wire(m) == Line(m) + "\r\n" && Tight(Line(m)) && NoEol(Line(m))
      && LineParts(Line(m)) == Parts(nick, "PRIVMSG", m.params)
  {
    var m := ActionMessage(nick, channel, text);
    ActionFits(nick, channel, text);
    assert NoSpace(m.command) && NoEol(m.command) && PlainName(m.sender);
    hide FitParams, ParamsWithoutEol, EndsInSpace, LastWord, Assemble, Line, Wire, LineParts, PlainName, NoEol;
    WireIsLine(m);
    LineTight(m);
    LineWithoutEol(m);
    PartsOfMessage(m);
  }
}
