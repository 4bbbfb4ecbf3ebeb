/**
 What the user of the client sees and what is sent, event by event, said of the lines under each title and
 of the requests (examples/ircpeer/mainwindow.cpp).
 */
module IrcShown {
  import opened ByteArray
  import IrcLine
  import opened IrcReplies
  import opened IrcTabs

  /** One more line under a title and none under any other; nothing else changes for what was there. */
  ghost predicate OneLine(before: Ui, after: Ui, title: Bytes, line: Line) {
    && (forall t :: LinesUnder(after, t) == LinesUnder(before, t) + if t == title then [line] else [])
    && Grows(before, after)
  }

  // ----- the line of an event

  /** The text between the mark of an action and the last byte. */
  predicate IsActionBody(message: Bytes, body: Bytes) {
    if |message| == |ACTION| then body == ""
    else |message| == |ACTION| + |body| + 1 && message[|ACTION|..|message| - 1] == body
  }

  /** An event that logs one line. */
  predicate Logs(c: Config, e: Event) {
    e.Message? || e.Notice? || e.Action? || (e.Parted? && e.sender != c.nick)
  }

  /** The line tells who sent the event and holds its text; a message marked as an action is shown without
      the mark. */
  predicate Says(e: Event, line: Line) {
    match e
    case Message(s, _, t) =>
      if StartsWith(t, ACTION) then line.format == "* %1 %2" && line.nick == s && IsActionBody(t, line.message)
      else line == Line("<%1> %2", s, t)
    case Notice(s, _, t) => line == Line("[%1] %2", s, t)
    case Action(s, _, t) => line == Line("* %1 %2", s, t)
    case Parted(s, _) => line == Line("! %1 %2", s, "left the channel")
    case _ => false
  }

  lemma EchoIsBody(message: Bytes)
    requires StartsWith(message, ACTION)
    ensures IsActionBody(message, LocalEcho(message))
  {
    assert |ACTION| == 8;
  }

  lemma LogIsOneLine(ui: Ui, c: Config, sender: Bytes, channel: Bytes, line: Line)
    requires Inv(c, ui)
    ensures OneLine(ui, Log(ui, c, sender, channel, line), Route(c, sender, channel), line)
    ensures Log(ui, c, sender, channel, line).sent == ui.sent
  {
    LogKeeps(ui, c, sender, channel, line);
    forall t
      ensures LinesUnder(Log(ui, c, sender, channel, line), t)
           == LinesUnder(ui, t) + if t == Route(c, sender, channel) then [line] else []
    {
      LogAdds(ui, c, sender, channel, line, t);
    }
    hide Log, Inv, Grows, LinesUnder, Route;
  }

  lemma ReceivedShows(ui: Ui, c: Config, sender: Bytes, channel: Bytes, text: Bytes) returns (line: Line)
    requires Inv(c, ui)
    ensures Says(Message(sender, channel, text), line)
    ensures OneLine(ui, ReceiveMessage(ui, c, sender, channel, text), Route(c, sender, channel), line)
    ensures ReceiveMessage(ui, c, sender, channel, text).sent == ui.sent
  {
    if StartsWith(text, ACTION) {
      EchoIsBody(text);
      line := Line("* %1 %2", sender, LocalEcho(text));
    } else {
      line := Line("<%1> %2", sender, text);
    }
    hide LocalEcho, IsActionBody, Log, Inv, OneLine, Route, StartsWith;
    LogIsOneLine(ui, c, sender, channel, line);
  }

  lemma EventShows(ui: Ui, c: Config, e: Event) returns (line: Line)
    requires Inv(c, ui) && Logs(c, e)
    ensures Says(e, line) && OneLine(ui, Step(ui, c, e), Route(c, e.sender, e.channel), line)
    ensures Step(ui, c, e).sent == ui.sent
  {
    hide Inv, OneLine, Route, Log, ReceiveMessage;
    match e
    case Message(s, ch, t) => line := ReceivedShows(ui, c, s, ch, t);
    case Notice(s, ch, t) =>
      line := Line("[%1] %2", s, t);
      LogIsOneLine(ui, c, s, ch, line);
    case Action(s, ch, t) =>
      line := Line("* %1 %2", s, t);
      LogIsOneLine(ui, c, s, ch, line);
    case Parted(s, ch) =>
      line := Line("! %1 %2", s, "left the channel");
      LogIsOneLine(ui, c, s, ch, line);
  }

  // ----- where it is shown

  /** What another user sends to one's own nick is shown under the name of that user. */
  lemma PrivateMessageShows(ui: Ui, c: Config, e: Event) returns (line: Line)
    requires Inv(c, ui) && Logs(c, e) && e.channel == c.nick
    requires e.sender != c.nick && e.sender != "" && e.sender != "AUTH"
    ensures Says(e, line) && OneLine(ui, Step(ui, c, e), e.sender, line) && Step(ui, c, e).sent == ui.sent
  {
    line := EventShows(ui, c, e);
    hide Inv, OneLine, Step, Logs, Says;
  }

  /** What is sent to a channel is shown under that channel, whoever sent it. */
  lemma ChannelMessageShows(ui: Ui, c: Config, e: Event) returns (line: Line)
    requires Inv(c, ui) && Logs(c, e) && e.channel != c.nick && e.channel != "" && e.channel != "AUTH"
    ensures Says(e, line) && OneLine(ui, Step(ui, c, e), e.channel, line) && Step(ui, c, e).sent == ui.sent
  {
    line := EventShows(ui, c, e);
    hide Inv, OneLine, Step, Logs, Says;
  }

  /** What is sent to no channel, or to oneself by nobody else, is shown in the server tab. */
  lemma ServerMessageShows(ui: Ui, c: Config, e: Event) returns (line: Line)
    requires Inv(c, ui) && Logs(c, e)
    requires if e.channel == c.nick then e.sender == c.nick || e.sender == "" || e.sender == "AUTH"
             else e.channel == "" || e.channel == "AUTH"
    ensures Says(e, line) && OneLine(ui, Step(ui, c, e), c.host, line) && Step(ui, c, e).sent == ui.sent
  {
    line := EventShows(ui, c, e);
    hide Inv, OneLine, Step, Logs, Says;
  }

  lemma OthersSendNothing(ui: Ui, c: Config, e: Event)
    requires Inv(c, ui) && !e.Typed? && !e.CloseKey?
    ensures Step(ui, c, e).sent == ui.sent
  {
    hide Inv, Route, LocalEcho;
  }

  // ----- what is typed

  lemma CommandTyped(ui: Ui, c: Config, msg: Bytes)
    requires Inv(c, ui) && msg != "" && msg[0] == '/'
    ensures Trimmed(msg) != ""
  {
    TrimmedCovers(msg, 0);
  }

  /** /join asks for a channel, says so in the tab of the name, and shows that tab; for a name that no
      message is shown under it says so in the server tab and shows what was shown. */
  lemma JoinTyped(ui: Ui, c: Config, name: Bytes)
    requires Inv(c, ui)
    ensures var after := Step(ui, c, Typed("/join " + name));
      && after.sent == ui.sent + (if name != "" && (name[0] == '#' || name[0] == '&') then [Request("JOIN", [name])]
                                  else [])
      && (forall t :: LinesUnder(after, t) == LinesUnder(ui, t) +
           if t == (if Unused(c, name) then c.host else name)
           then [Line("<%1> %2", c.host, "you have joined " + name)] else [])
      && 0 <= after.current < |after.tabs|
      && (if Unused(c, name) then after.current == ui.current else Shown(after) == name)
  {
    var msg := "/join " + name;
    CommandTyped(ui, c, msg);
    assert StartsWith(msg, "/join ") && From(msg, 6) == name;
    hide Trimmed, From, StartsWith;
    assert Step(ui, c, Typed(msg)) == Join(ui, c, name);
    JoinShows(ui, c, name);
    hide Join, Inv, LinesUnder;
  }

  lemma NoAction(text: Bytes)
    requires text != "" && text[0] != IrcLine.CTCP
    ensures !StartsWith(text, ACTION)
  {
    assert ACTION[0] == IrcLine.CTCP;
  }

  lemma JoinShows(ui: Ui, c: Config, name: Bytes)
    requires Inv(c, ui)
    ensures var after := Join(ui, c, name);
      && after.sent == ui.sent + (if IsChannelName(name) then [Request("JOIN", [name])] else [])
      && (forall t :: LinesUnder(after, t) == LinesUnder(ui, t) +
           if t == (if Unused(c, name) then c.host else name)
           then [Line("<%1> %2", c.host, "you have joined " + name)] else [])
      && 0 <= after.current < |after.tabs|
      && (if Unused(c, name) then after.current == ui.current else Shown(after) == name)
  {
    var request, text := Request("JOIN", [name]), "you have joined " + name;
    var called := if IsChannelName(name) then Call(ui, request) else ui;
    CallKeeps(ui, c, request);
    NoAction(text);
    var line := ReceivedShows(called, c, c.host, name, text);
    HostMessageHasTab(called, c, name, text);
    ReceiveKeeps(called, c, c.host, name, text);
    var logged := ReceiveMessage(called, c, c.host, name, text);
    JoinedTitle(c, name);
    assert line == Line("<%1> %2", c.host, text);
    ShowLines(logged, c, name);
    hide ReceiveMessage, StartsWith, Route, Inv, FindTab;
  }

  lemma JoinedTitle(c: Config, name: Bytes)
    requires c.host != "" && c.host != "AUTH"
    ensures Route(c, c.host, name) == if Unused(c, name) then c.host else name
  {
  }

  lemma ShowLines(ui: Ui, c: Config, name: Bytes)
    requires Inv(c, ui) && (Unused(c, name) || FindTab(ui.tabs, name) != -1)
    ensures forall t :: LinesUnder(Show(ui, name), t) == LinesUnder(ui, t)
    ensures Show(ui, name).sent == ui.sent && 0 <= Show(ui, name).current < |Show(ui, name).tabs|
    ensures if Unused(c, name) then Show(ui, name).current == ui.current else Shown(Show(ui, name)) == name
  {
    assert Unused(c, name) ==> FindTab(ui.tabs, name) == -1;
  }

  /** Any other text is sent to the name of the tab shown and shown there. */
  lemma TextTyped(ui: Ui, c: Config, msg: Bytes) returns (line: Line)
    requires Inv(c, ui) && Trimmed(msg) != "" && msg[0] != '/'
    ensures var after := Step(ui, c, Typed(msg));
      && after.sent == ui.sent + [Request("PRIVMSG", [Shown(ui), msg])]
      && Says(Message(c.nick, Shown(ui), msg), line) && OneLine(ui, after, Shown(ui), line)
  {
    assert msg != "" by {
      NothingTrimmed();
    }
    NoCommand(msg);
    hide Trimmed;
    assert Step(ui, c, Typed(msg)) == Say(ui, c, msg);
    var request := Request("PRIVMSG", [Shown(ui), msg]);
    CallKeeps(ui, c, request);
    OwnMessageStays(c, ui);
    line := ReceivedShows(Call(ui, request), c, c.nick, Shown(ui), msg);
    hide ReceiveMessage, Route, Inv, FindTab;
  }

  lemma NothingTrimmed()
    ensures Trimmed("") == ""
  {
  }

  lemma NoCommand(msg: Bytes)
    requires msg != "" && msg[0] != '/'
    ensures !StartsWith(msg, "/join ") && !StartsWith(msg, "/me ") && !StartsWith(msg, "/names")
    ensures msg != "/part" && !StartsWith(msg, "/raw ") && msg != "/quit" && msg != "/names" && !StartsWith(msg, "/")
  {
  }

  /** /names asks for the names of the tab shown, or of what follows it and one more byte. */
  lemma NamesTyped(ui: Ui, c: Config, gap: char, channel: Bytes)
    requires Inv(c, ui)
    ensures Step(ui, c, Typed("/names")) == ui.(sent := ui.sent + [Request("NAMES", [Shown(ui)])])
    ensures Step(ui, c, Typed("/names" + [gap] + channel)) == ui.(sent := ui.sent + [Request("NAMES", [channel])])
  {
    var msg := "/names" + [gap] + channel;
    CommandTyped(ui, c, "/names");
    CommandTyped(ui, c, msg);
    assert |msg| > 6 && From(msg, 7) == channel && StartsWith(msg, "/names") && StartsWith("/names", "/names");
    assert msg[1] == 'n' && "/names"[1] == 'n';
    hide Trimmed, From;
  }

  /** /raw sends what follows it. */
  lemma RawTyped(ui: Ui, c: Config, text: Bytes)
    requires Inv(c, ui)
    ensures Step(ui, c, Typed("/raw " + text)) == ui.(sent := ui.sent + [Request("raw", [text])])
  {
    var msg := "/raw " + text;
    CommandTyped(ui, c, msg);
    assert From(msg, 5) == text && StartsWith(msg, "/raw ");
    assert msg[1] == 'r';
    hide Trimmed, From;
  }

  /** /part is the key that closes the tab; /quit and blank text change nothing here. */
  lemma PartTyped(ui: Ui, c: Config, blank: Bytes)
    requires Inv(c, ui) && Trimmed(blank) == ""
    ensures Step(ui, c, Typed("/part")) == Step(ui, c, CloseKey)
    ensures Step(ui, c, Typed("/quit")) == ui && Step(ui, c, Typed(blank)) == ui
  {
    CommandTyped(ui, c, "/part");
    CommandTyped(ui, c, "/quit");
    assert "/part"[1] == 'p' && "/quit"[1] == 'q';
    hide Trimmed, Part;
  }

  /** Any other command is not sent, and the server tab says so. */
  lemma UnknownTyped(ui: Ui, c: Config, msg: Bytes)
    requires Inv(c, ui) && StartsWith(msg, "/") && msg != "/part" && msg != "/quit"
    requires !StartsWith(msg, "/join ") && !StartsWith(msg, "/me ")
    requires !StartsWith(msg, "/names") && !StartsWith(msg, "/raw ")
    ensures var after := Step(ui, c, Typed(msg));
      after.sent == ui.sent && OneLine(ui, after, c.host, Line("<%1> %2", c.host, "unknown command " + msg))
  {
    CommandTyped(ui, c, msg);
    var text := "unknown command " + msg;
    assert StartsWith("/names", "/names");
    NoAction(text);
    var line := ReceivedShows(ui, c, c.host, c.host, text);
    assert Route(c, c.host, c.host) == c.host;
    hide Trimmed, ReceiveMessage, StartsWith, Route, Inv, OneLine, From;
  }

  // ----- closing and cycling

  /** Closing a tab other than the server's takes its lines away and leaves those of every other; it shows
      the tab to its right, or the one to its left when it was the last, and leaves a channel. */
  lemma CloseShows(ui: Ui, c: Config)
    requires Inv(c, ui)
    ensures var after := Step(ui, c, CloseKey);
      if ui.current == 0 then after == ui
      else
        && (forall t :: LinesUnder(after, t) == if t == Shown(ui) then [] else LinesUnder(ui, t))
        && 0 <= after.current < |after.tabs|
        && Shown(after) == ui.tabs[if ui.current + 1 < |ui.tabs| then ui.current + 1 else ui.current - 1].title
        && after.sent == ui.sent + if Shown(ui)[0] == '#' || Shown(ui)[0] == '&' then [Request("PART", [Shown(ui)])]
                                   else []
  {
    if ui.current > 0 {
      forall t
        ensures LinesUnder(Part(ui), t) == if t == Shown(ui) then [] else LinesUnder(ui, t)
      {
        LinesAfterPart(ui, c, t);
      }
      hide LinesUnder;
    }
  }

  lemma TabAfterPart(ui: Ui, c: Config, j: nat)
    requires Inv(c, ui) && ui.current > 0 && j < |ui.tabs| - 1
    ensures |Part(ui).tabs| == |ui.tabs| - 1
    ensures Part(ui).tabs[j] == ui.tabs[if j < ui.current then j else j + 1]
  {
  }

  lemma LinesAfterPart(ui: Ui, c: Config, title: Bytes)
    requires Inv(c, ui) && ui.current > 0
    ensures LinesUnder(Part(ui), title) == if title == Shown(ui) then [] else LinesUnder(ui, title)
  {
    var after, k, i := Part(ui), ui.current, FindTab(ui.tabs, title);
    TabAfterPart(ui, c, 0);
    forall j | 0 <= j < |after.tabs|
      ensures after.tabs[j] == ui.tabs[if j < k then j else j + 1]
    {
      TabAfterPart(ui, c, j);
    }
    hide FindTab, Part;
    if i != -1 && i != k {
      var j := if i < k then i else i - 1;
      assert after.tabs[j] == ui.tabs[i];
      FoundAt(after.tabs, j);
    }
  }

  function Presses(back: bool, n: nat): seq<Event> {
    if n == 0 then [] else [TabKey(back)] + Presses(back, n - 1)
  }

  lemma {:induction false} CycledFirst(count: int, current: int, back: bool, n: nat)
    requires n > 0
    ensures Cycled(count, current, back, n) == Cycled(count, NextTab(count, current, back), back, n - 1)
  {
    if n > 1 {
      CycledFirst(count, current, back, n - 1);
    }
  }

  /** Presses of Ctrl+Tab or Ctrl+Backtab change nothing but the tab shown, and that as Cycled says: forward
      to the right, backward to the left, around the ends. */
  lemma {:induction false} PressesCycle(ui: Ui, c: Config, back: bool, n: nat)
    requires Inv(c, ui)
    ensures RunEvents(ui, c, Presses(back, n)) == ui.(current := Cycled(|ui.tabs|, ui.current, back, n))
    decreases n
  {
    if n > 0 {
      var after := ui.(current := NextTab(|ui.tabs|, ui.current, back));
      StepKeeps(ui, c, TabKey(back));
      CycledFirst(|ui.tabs|, ui.current, back, n);
      assert ([TabKey(back)] + Presses(back, n - 1))[1..] == Presses(back, n - 1);
      assert Step(ui, c, TabKey(back)) == after;
      hide Inv, Step;
      PressesCycle(after, c, back, n - 1);
    }
  }
}
