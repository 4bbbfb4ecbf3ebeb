/**
 IRCSerializer: the codec as the program runs it (examples/ircpeer/ircpeer.cpp).
 */
module IrcSerializer {
  import opened ByteArray
  import opened IrcName
  import opened IrcLine
  import opened IrcFraming

  /** The byte array behind a QTextStream. */
  class TextStream {
    var bytes: Bytes

    constructor ()
      ensures bytes == ""
    {
      bytes := "";
    }

    method Write(s: Bytes)
      modifies this
      ensures bytes == old(bytes) + s
    {
      bytes := bytes + s;
    }
  }

  /** A byte array passed by reference. */
  class Buffer {
    var data: Bytes

    constructor (data: Bytes)
      ensures this.data == data
    {
      this.data := data;
    }
  }

  /** Writes one parameter; true when that completes the line, so that `later` is not written. */
  method SerializeParam(str: TextStream, p: Variant, ghost later: seq<Variant>) returns (done: bool)
    modifies str
    ensures done <==> !p.Text? || NeedsColon(p.bytes)
    ensures str.bytes + (if done then "" else SerializeParams(later)) == old(str.bytes) + SerializeParams([p] + later)
  {
    SerializeParamsCons(p, later);
    ghost var before := str.bytes;
    if !p.Text? {
      str.Write("\r\n");
      return true;
    }
    var ba := p.bytes;
    if ' ' in ba || (ba != "" && ba[0] == ':') {
      str.Write(" :");
      str.Write(ba);
      str.Write("\r\n");
      assert str.bytes == before + (" :" + ba + "\r\n");
      return true;
    }
    str.Write(" ");
    str.Write(ba);
    assert str.bytes + SerializeParams(later) == before + (" " + ba + SerializeParams(later));
    return false;
  }

  /** Writes p2 to p8 and the end of the line. */
  method SerializeRest(str: TextStream, p2: Variant, p3: Variant, p4: Variant,
                       p5: Variant, p6: Variant, p7: Variant, p8: Variant)
    modifies str
    ensures str.bytes == old(str.bytes) + SerializeParams([p2, p3, p4, p5, p6, p7, p8])
  {
    hide *;
    ghost var ps8 := [p8];
    ghost var ps7 := [p7] + ps8;
    ghost var ps6 := [p6] + ps7;
    ghost var ps5 := [p5] + ps6;
    ghost var ps4 := [p4] + ps5;
    ghost var ps3 := [p3] + ps4;
    assert [p2] + ps3 == [p2, p3, p4, p5, p6, p7, p8];
    var done := SerializeParam(str, p2, ps3);
    if done { return; }
    done := SerializeParam(str, p3, ps4);
    if done { return; }
    done := SerializeParam(str, p4, ps5);
    if done { return; }
    done := SerializeParam(str, p5, ps6);
    if done { return; }
    done := SerializeParam(str, p6, ps7);
    if done { return; }
    done := SerializeParam(str, p7, ps8);
    if done { return; }
    assert ps8 == [p8] + [];
    done := SerializeParam(str, p8, []);
    SerializeNoParams();
    if done { return; }
    str.Write("\r\n");
  }

  /** Writes p1 as a prefix. */
  method SerializeSender(str: TextStream, p1: Variant)
    modifies str
    ensures str.bytes == old(str.bytes) + SerializePrefix(p1)
  {
    var prefix := "";
    if p1.Sender? {
      prefix := Assemble(p1.name);
    } else if p1.Text? {
      prefix := p1.bytes;
    }
    assert SerializePrefix(p1) == if prefix == "" then "" else ":" + prefix + " ";
    hide Assemble, SerializePrefix;
    ghost var before := str.bytes;
    if prefix != "" {
      str.Write(":");
      str.Write(prefix);
      str.Write(" ");
      Assoc(before + ":", prefix, " ");
      Assoc(before, ":", prefix + " ");
      Assoc(":", prefix, " ");
    } else {
      assert before + "" == before;
    }
  }

  method Serialize(fn: Bytes, p1: Variant, p2: Variant, p3: Variant, p4: Variant,
                   p5: Variant, p6: Variant, p7: Variant, p8: Variant) returns (rv: Bytes)
    ensures rv == SerializeCall(fn, [p1, p2, p3, p4, p5, p6, p7, p8])
  {
    if fn == "raw" {
      return (if p1.Text? then p1.bytes else "") + "\r\n";
    }
    hide SerializePrefix, SerializeParams;
    var str := new TextStream();
    SerializeSender(str, p1);
    assert "" + SerializePrefix(p1) == SerializePrefix(p1);
    str.Write(fn);
    SerializeRest(str, p2, p3, p4, p5, p6, p7, p8);
    assert [p1, p2, p3, p4, p5, p6, p7, p8][1..] == [p2, p3, p4, p5, p6, p7, p8];
    return str.bytes;
  }

  function ToByteArray(v: Variant): Bytes {
    if v.Text? then v.bytes else ""
  }

  /** The loop over the words after the command. */
  method ReadParams(words: seq<Bytes>, commandPos: nat, sender: Variant) returns (params: seq<Variant>)
    requires commandPos < |words|
    ensures params == [sender] + Texts(WordParams(words[commandPos + 1..]))
  {
    hide WordParams, SpacesBefore, Texts;
    var wordPos := commandPos;
    params := [sender];
    while wordPos < |words| - 1
      invariant commandPos <= wordPos < |words|
      invariant params + Texts(WordParams(words[wordPos + 1..])) == [sender] + Texts(WordParams(words[commandPos + 1..]))
      decreases |words| - wordPos
    {
      wordPos := wordPos + 1;
      WordParamsAt(words, wordPos);
      if words[wordPos] == "" {
        continue;
      }
      if words[wordPos][0] == ':' {
        var trailing := words[wordPos][1..];
        wordPos := wordPos + 1;
        ghost var all := trailing + SpacesBefore(words[wordPos..]);
        while wordPos < |words|
          invariant wordPos <= |words|
          invariant trailing + SpacesBefore(words[wordPos..]) == all
        {
          SpacesBeforeAt(words, wordPos);
          Assoc(trailing + " ", words[wordPos], SpacesBefore(words[wordPos + 1..]));
          Assoc(trailing, " ", words[wordPos] + SpacesBefore(words[wordPos + 1..]));
          trailing := trailing + " " + words[wordPos];
          wordPos := wordPos + 1;
        }
        NothingAfter(words);
        assert trailing + "" == trailing == all;
        OneText(trailing);
        params := params + [Text(trailing)];
        return;
      }
      TextsCons(words[wordPos], WordParams(words[wordPos + 1..]));
      assert params + ([Text(words[wordPos])] + Texts(WordParams(words[wordPos + 1..])))
          == params + [Text(words[wordPos])] + Texts(WordParams(words[wordPos + 1..]));
      params := params + [Text(words[wordPos])];
    }
    NothingAfter(words);
    assert params + [] == params;
  }

  /** What one word adds to the parameters. */
  lemma WordParamsAt(words: seq<Bytes>, i: nat)
    requires i < |words|
    ensures WordParams(words[i..]) ==
            if words[i] == "" then WordParams(words[i + 1..])
            else if words[i][0] == ':' then [words[i][1..] + SpacesBefore(words[i + 1..])]
            else [words[i]] + WordParams(words[i + 1..])
  {
    assert words[i..][1..] == words[i + 1..];
  }

  lemma SpacesBeforeAt(words: seq<Bytes>, i: nat)
    requires i < |words|
    ensures SpacesBefore(words[i..]) == " " + words[i] + SpacesBefore(words[i + 1..])
  {
    assert words[i..][1..] == words[i + 1..];
  }

  lemma NothingAfter(words: seq<Bytes>)
    ensures SpacesBefore(words[|words|..]) == "" && Texts(WordParams(words[|words|..])) == []
  {
  }

  lemma TextsCons(arg: Bytes, args: seq<Bytes>)
    ensures Texts([arg] + args) == [Text(arg)] + Texts(args)
  {
  }

  lemma OneText(arg: Bytes)
    ensures Texts([arg]) == [Text(arg)]
  {
  }

  /** Takes out the nick and the markers after it; false when an index runs past the end. */
  method DropNickAndMarkers(list: seq<Variant>, ghost head: Variant, ghost args: seq<Bytes>)
      returns (ok: bool, params: seq<Variant>)
    requires list == [head] + Texts(args)
    ensures ok ==> args != [] && DropMarkers(args[1..]) != [] && params == [head] + Texts(DropMarkers(args[1..]))
    ensures !ok ==> args == [] || DropMarkers(args[1..]) == []
  {
    params := list;
    if |params| < 2 { return false, params; }
    params := params[..1] + params[2..];
    ghost var kept := args[1..];
    while true
      invariant params == [head] + Texts(kept)
      invariant DropMarkers(kept) == DropMarkers(args[1..])
      decreases |params|
    {
      if |params| < 2 { return false, params; }
      if ToByteArray(params[1]) != "=" && ToByteArray(params[1]) != "@" { return true, params; }
      params := params[..1] + params[2..];
      kept := kept[1..];
    }
  }

  /** The loop that joins the parameters from `start` on. */
  method SpaceOut(params: seq<Variant>, start: nat, ghost pieces: seq<Bytes>) returns (ba: Bytes)
    requires start <= |params| && params[start..] == Texts(pieces)
    ensures ba == Spaced(pieces)
  {
    var i := start;
    ba := "";
    ghost var rest := pieces;
    while i < |params|
      invariant start <= i <= |params|
      invariant params[i..] == Texts(rest)
      invariant Spaced(pieces) == ba + Spaced(rest)
    {
      SpacedStep(params, i, rest, ba);
      ba := ba + ToByteArray(params[i]) + " ";
      i := i + 1;
      rest := rest[1..];
    }
    assert |rest| == |params[i..]| == 0;
  }

  lemma SpacedStep(params: seq<Variant>, i: nat, rest: seq<Bytes>, ba: Bytes)
    requires i < |params| && params[i..] == Texts(rest)
    ensures rest != [] && params[i] == Text(rest[0]) && params[i + 1..] == Texts(rest[1..])
    ensures ba + Spaced(rest) == ba + rest[0] + " " + Spaced(rest[1..])
  {
    assert |rest| == |params[i..]| > 0;
    assert params[i] == params[i..][0];
    assert params[i + 1..] == params[i..][1..];
    assert Texts(rest)[1..] == Texts(rest[1..]);
    Assoc(ba, rest[0], " " + Spaced(rest[1..]));
    Assoc(ba + rest[0], " ", Spaced(rest[1..]));
    Assoc(rest[0], " ", Spaced(rest[1..]));
  }

  /** The list edits a numeric reply goes through. */
  method RewriteNumeric(number: int, list: seq<Variant>, ghost sender: Name, ghost args: seq<Bytes>)
      returns (r: Outcome)
    requires list == [Sender(sender)] + Texts(args)
    ensures r == NumericCall(number, sender, args)
  {
    var ok, params := DropNickAndMarkers(list, Sender(sender), args);
    if !ok { return OutOfRange; }
    ghost var kept := DropMarkers(args[1..]);
    if |params| == 2 {
      params := [Text("")] + params;
      params := params[0 := params[1]][1 := params[0]];
      assert params == [Sender(sender), Text(""), Text(kept[0])];
    } else if number < 300 || |params| > 3 {
      var newparams := [params[0]];
      var i;
      if number < 300 {
        newparams := newparams + [Text("")];
        i := 1;
      } else {
        newparams := newparams + [params[1]];
        i := 2;
      }
      assert kept[0..] == kept;
      assert params[i..] == Texts(kept[i - 1..]);
      var ba := SpaceOut(params, i, kept[i - 1..]);
      newparams := newparams + [Text(ba)];
      params := newparams;
    } else {
      assert params == [Sender(sender), Text(kept[0]), Text(kept[1])];
    }
    return Data("numeric", params);
  }

  /** The split of a CTCP request into command and text. */
  method RewritePrivmsg(list: seq<Variant>, ghost sender: Name, ghost args: seq<Bytes>) returns (r: Outcome)
    requires list == [Sender(sender)] + Texts(args)
    ensures r == PrivmsgCall(sender, args)
  {
    var params := list;
    if |params| < 3 { return OutOfRange; }
    var p2 := ToByteArray(params[2]);
    if |p2| > 0 && p2[0] == CTCP {
      var message := Without(p2, CTCP);
      var spacePos := IndexOf(message, ' ');
      if spacePos == -1 { spacePos := |message|; }
      TextsReplaced(Sender(sender), args, message[spacePos..]);
      params := params[2 := Text(message[spacePos..])];
      return Data("CTCP-" + message[..spacePos], params);
    }
    return Data("PRIVMSG", params);
  }

  /** The words from the command on, turned into a call. */
  method CallOfWords(prefix: Bytes, words: seq<Bytes>, wordPos: nat) returns (r: Outcome)
    requires wordPos < |words|
    ensures r == CallOf(Parts(prefix, words[wordPos], WordParams(words[wordPos + 1..])))
  {
    var command := words[wordPos];
    var cmdNum := ToInt(command);
    var sender;
    if cmdNum != 0 {
      sender := Name(prefix + ":" + command, "", prefix);
      command := "numeric";
    } else {
      sender := FromPrefix(prefix);
    }
    var params := ReadParams(words, wordPos, Sender(sender));
    ghost var args := WordParams(words[wordPos + 1..]);
    if command == "numeric" {
      r := RewriteNumeric(cmdNum, params, sender, args);
    } else if command == "PRIVMSG" {
      r := RewritePrivmsg(params, sender, args);
    } else {
      r := Data(command, params);
    }
  }

  /** The part of deserialize after the line has been cut off and trimmed. */
  method DeserializeMessage(message: Bytes) returns (r: Outcome)
    requires Tight(message)
    ensures r == ParseLine(message)
  {
    hide CallOf, Split, WordParams, LineParts;
    var wordPos, prefix := 0, "";
    var words := Split(message);
    FirstWord(message);
    if words[0][0] == ':' {
      prefix := words[0][1..];
      // words[0] starts with ':', so the protocol error for an empty first word is never reported
      wordPos := wordPos + 1;
    }
    PartsOfWords(message);
    NoCommandRunsOut();
    if wordPos >= |words| { return OutOfRange; }
    assert LineParts(message) == Parts(prefix, words[wordPos], WordParams(words[wordPos + 1..]));
    r := CallOfWords(prefix, words, wordPos);
  }

  method Deserialize(data: Buffer) returns (r: Outcome)
    modifies data
    ensures data.data == Remaining(old(data.data))
    ensures r == Deserialized(old(data.data))
  {
    var lfPos, crPos := IndexOf(data.data, LF), IndexOf(data.data, CR);
    var endPos := if crPos == -1 || lfPos < crPos then lfPos else crPos;
    var message := Trimmed(Left(data.data, endPos));
    ghost var before, after := TrimmedCut(Left(data.data, endPos));
    data.data := data.data[endPos + 1..];
    if message == "" { return NO_OP; }
    r := DeserializeMessage(message);
  }

  lemma FirstWord(message: Bytes)
    requires Tight(message)
    ensures Split(message)[0] != "" && Split(message)[0][0] == message[0]
  {
  }

  lemma CommandPartsOfWords(prefix: Bytes, rest: Bytes)
    ensures CommandParts(prefix, rest) == Parts(prefix, Split(rest)[0], WordParams(Split(rest)[1..]))
  {
    if ' ' in rest {
      var command, tail := CutAt(rest, ' ');
      SplitCut(command, tail);
      WordsAreScanned(tail);
      hide IndexOf, Split, WordParams, ScanParams;
      assert ([command] + Split(tail))[1..] == Split(tail);
    } else {
      assert Split(rest)[1..] == [];
    }
  }

  /** The words of a line give the parts that scanning it gives. */
  lemma PartsOfWords(message: Bytes)
    requires Tight(message)
    ensures var words := Split(message);
      LineParts(message) ==
        if message[0] != ':' then Parts("", words[0], WordParams(words[1..]))
        else if |words| < 2 then NoCommand
        else Parts(words[0][1..], words[1], WordParams(words[2..]))
  {
    var words := Split(message);
    var i := IndexOf(message, ' ');
    if message[0] != ':' {
      CommandPartsOfWords("", message);
    } else if i != -1 {
      CommandPartsOfWords(message[1..i], message[i + 1..]);
      assert words[1..] == Split(message[i + 1..]);
      assert words[1..][1..] == words[2..];
      assert words[0][1..] == message[1..i];
    }
  }
}
