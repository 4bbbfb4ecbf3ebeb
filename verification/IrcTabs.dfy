/**
 The tabs of the IRC client as values: what every event does to them, and what holds after any run of
 events (examples/ircpeer/mainwindow.cpp).
 */
module IrcTabs {
  import opened ByteArray
  import IrcLine
  import opened IrcReplies

  /** A line shown in a tab: the format and what is put into it. */
  datatype Line = Line(format: string, nick: Bytes, message: Bytes)

  datatype TabState = TabState(title: Bytes, lines: seq<Line>)

  /** A call handed to the connection. */
  datatype Request = Request(command: Bytes, args: seq<Bytes>)

  /** The names the client was configured with. */
  datatype Config = Config(host: Bytes, nick: Bytes)

  /** Tabs in order; keys of the channel table that have no view; the index of the tab shown; what was
      sent. */
  datatype Ui = Ui(tabs: seq<TabState>, blanks: set<Bytes>, current: int, sent: seq<Request>)

  function FindTab(tabs: seq<TabState>, title: Bytes): (i: int)
    ensures -1 <= i < |tabs|
    ensures i >= 0 ==> tabs[i].title == title
    ensures forall j :: 0 <= j < i ==> tabs[j].title != title
    ensures i == -1 ==> forall j :: 0 <= j < |tabs| ==> tabs[j].title != title
  {
    if tabs == [] then -1
    else if tabs[0].title == title then 0
    else
      var r := FindTab(tabs[1..], title);
      if r == -1 then -1 else r + 1
  }

  /** A name that no message is shown under. */
  predicate Unused(c: Config, name: Bytes) {
    name != c.host && (name == "" || name == "AUTH" || name == c.nick)
  }

  /** The tab a message goes to. */
  function Route(c: Config, sender: Bytes, channel: Bytes): (title: Bytes)
    ensures !Unused(c, title)
  {
    var target := if channel != c.nick then channel else if channel == sender then c.host else sender;
    if target == "" || target == "AUTH" then c.host else target
  }

  function Log(ui: Ui, c: Config, sender: Bytes, channel: Bytes, line: Line): Ui {
    var title := Route(c, sender, channel);
    var i := FindTab(ui.tabs, title);
    if i == -1 then ui.(tabs := ui.tabs + [TabState(title, [line])], current := if ui.tabs == [] then 0 else ui.current)
    else ui.(tabs := ui.tabs[i := TabState(title, ui.tabs[i].lines + [line])])
  }

  // ----- the slots

  function ReceiveMessage(ui: Ui, c: Config, sender: Bytes, channel: Bytes, message: Bytes): Ui {
    if StartsWith(message, ACTION) then Log(ui, c, sender, channel, Line("* %1 %2", sender, LocalEcho(message)))
    else Log(ui, c, sender, channel, Line("<%1> %2", sender, message))
  }

  /** A key of the channel table. */
  predicate HasKey(ui: Ui, name: Bytes) {
    name in ui.blanks || FindTab(ui.tabs, name) != -1
  }

  function UserJoin(ui: Ui, c: Config, nick: Bytes, channel: Bytes): Ui {
    var first := if HasKey(ui, nick) then Log(ui, c, nick, nick, Line("! %1 joined %2", nick, channel)) else ui;
    Log(first, c, nick, channel, Line("! %1 %2", nick, "joined the channel"))
  }

  function UserPart(ui: Ui, c: Config, nick: Bytes, channel: Bytes): Ui {
    if nick == c.nick then ui else Log(ui, c, nick, channel, Line("! %1 %2", nick, "left the channel"))
  }

  function UserQuit(ui: Ui, c: Config, nick: Bytes, message: Bytes): Ui {
    var line := Line("! %1 Quit: %2", nick, message);
    Log(if HasKey(ui, nick) then Log(ui, c, nick, nick, line) else ui, c, nick, "", line)
  }

  predicate IsChannelName(title: Bytes) {
    title != "" && (title[0] == '#' || title[0] == '&')
  }

  /** The tab shown is closed, unless it is the server tab; the tab to its right is shown next, or the
      last one. */
  function Part(ui: Ui): Ui
    requires 0 <= ui.current < |ui.tabs|
  {
    if ui.current == 0 then ui
    else
      var title := ui.tabs[ui.current].title;
      ui.(tabs := ui.tabs[..ui.current] + ui.tabs[ui.current + 1..],
          current := if ui.current == |ui.tabs| - 1 then ui.current - 1 else ui.current,
          sent := if IsChannelName(title) then ui.sent + [Request("PART", [title])] else ui.sent)
  }

  function NextTab(count: int, current: int, back: bool): int {
    var next := if back then current - 1 else current + 1;
    var wrapped := if next == -1 then count - 1 else next;
    if wrapped == count then 0 else wrapped
  }

  function Call(ui: Ui, request: Request): Ui {
    ui.(sent := ui.sent + [request])
  }

  /** What the tab shown is called. */
  function Shown(ui: Ui): Bytes
    requires 0 <= ui.current < |ui.tabs|
  {
    ui.tabs[ui.current].title
  }

  /** setCurrentWidget(channels[name]): a name that is no key becomes one without a view. */
  function Show(ui: Ui, name: Bytes): Ui {
    var i := FindTab(ui.tabs, name);
    if i == -1 then ui.(blanks := ui.blanks + {name}) else ui.(current := i)
  }

  function Join(ui: Ui, c: Config, name: Bytes): Ui {
    var called := if IsChannelName(name) then Call(ui, Request("JOIN", [name])) else ui;
    Show(ReceiveMessage(called, c, c.host, name, "you have joined " + name), name)
  }

  /** A message of one's own: sent, and shown like a received one. */
  function Say(ui: Ui, c: Config, message: Bytes): Ui
    requires 0 <= ui.current < |ui.tabs|
  {
    ReceiveMessage(Call(ui, Request("PRIVMSG", [Shown(ui), message])), c, c.nick, Shown(ui), message)
  }

  function Send(ui: Ui, c: Config, msg: Bytes): Ui
    requires 0 <= ui.current < |ui.tabs|
  {
    if Trimmed(msg) == "" then ui
    else if StartsWith(msg, "/join ") then Join(ui, c, From(msg, 6))
    else if StartsWith(msg, "/me ") then Say(ui, c, ACTION + From(msg, 4) + [IrcLine.CTCP])
    else if msg == "/names" then Call(ui, Request("NAMES", [Shown(ui)]))
    else if StartsWith(msg, "/names") then Call(ui, Request("NAMES", [From(msg, 7)]))
    else if msg == "/part" then Part(ui)
    else if StartsWith(msg, "/raw ") then Call(ui, Request("raw", [From(msg, 5)]))
    else if msg == "/quit" then ui
    else if StartsWith(msg, "/") then ReceiveMessage(ui, c, c.host, c.host, "unknown command " + msg)
    else Say(ui, c, msg)
  }

  datatype Event =
    | Message(sender: Bytes, channel: Bytes, text: Bytes)
    | Notice(sender: Bytes, channel: Bytes, text: Bytes)
    | Action(sender: Bytes, channel: Bytes, text: Bytes)
    | Joined(sender: Bytes, channel: Bytes)
    | Parted(sender: Bytes, channel: Bytes)
    | Quit(sender: Bytes, text: Bytes)
    | Typed(text: Bytes)
    | CloseKey
    | TabKey(back: bool)
    | Click(tab: nat)

  function Step(ui: Ui, c: Config, e: Event): Ui
    requires 0 <= ui.current < |ui.tabs|
  {
    match e
    case Message(s, ch, t) => ReceiveMessage(ui, c, s, ch, t)
    case Notice(s, ch, t) => Log(ui, c, s, ch, Line("[%1] %2", s, t))
    case Action(s, ch, t) => Log(ui, c, s, ch, Line("* %1 %2", s, t))
    case Joined(s, ch) => UserJoin(ui, c, s, ch)
    case Parted(s, ch) => UserPart(ui, c, s, ch)
    case Quit(s, t) => UserQuit(ui, c, s, t)
    case Typed(t) => Send(ui, c, t)
    case CloseKey => Part(ui)
    case TabKey(back) => ui.(current := NextTab(|ui.tabs|, ui.current, back))
    case Click(tab) => if tab < |ui.tabs| then ui.(current := tab) else ui
  }

  // ----- what holds in every reachable state

  /** The server tab is there and first, titles are distinct and names that messages are shown under, the
      tab shown exists, and keys without a view are names no message is shown under. */
  predicate Inv(c: Config, ui: Ui) {
    && c.host != "" && c.host != "AUTH"
    && ui.tabs != [] && ui.tabs[0].title == c.host && 0 <= ui.current < |ui.tabs|
    && (forall i, j :: 0 <= i < j < |ui.tabs| ==> ui.tabs[i].title != ui.tabs[j].title)
    && (forall i :: 0 <= i < |ui.tabs| ==> !Unused(c, ui.tabs[i].title))
    && (forall name :: name in ui.blanks ==> Unused(c, name))
  }

  /** Before anything is shown. */
  const EMPTY := Ui([], {}, -1, [])

  /** The message about connecting makes the server tab, for every host name that is not empty or AUTH. */
  lemma ConnectingStarts(c: Config, text: Bytes)
    requires c.host != "" && c.host != "AUTH"
    ensures var ui := ReceiveMessage(EMPTY, c, c.host, c.host, text);
      && Inv(c, ui) && ui.blanks == {} && ui.current == 0 && ui.sent == []
      && (!StartsWith(text, ACTION) ==> ui.tabs == [TabState(c.host, [Line("<%1> %2", c.host, text)])])
  {
    hide LocalEcho;
    assert Route(c, c.host, c.host) == c.host;
  }

  /** Tabs are only added at the end and lines only at the end of tabs. */
  predicate Grows(before: Ui, after: Ui) {
    && |before.tabs| <= |after.tabs| && before.current == after.current && before.blanks == after.blanks
    && forall i :: 0 <= i < |before.tabs| ==>
         before.tabs[i].title == after.tabs[i].title && before.tabs[i].lines <= after.tabs[i].lines
  }

  /** A logged line keeps the invariant and is the last line of the tab it is routed to; nothing else is
      changed. */
  lemma LogKeeps(ui: Ui, c: Config, sender: Bytes, channel: Bytes, line: Line)
    requires Inv(c, ui)
    ensures var after, title := Log(ui, c, sender, channel, line), Route(c, sender, channel);
      && Inv(c, after) && Grows(ui, after) && after.sent == ui.sent
      && var i := FindTab(after.tabs, title);
         && i >= 0
         && after.tabs[i].lines == (if i < |ui.tabs| then ui.tabs[i].lines else []) + [line]
         && forall j :: 0 <= j < |ui.tabs| && j != i ==> after.tabs[j] == ui.tabs[j]
  {
    var after, title := Log(ui, c, sender, channel, line), Route(c, sender, channel);
    var i := FindTab(ui.tabs, title);
    FoundAt(after.tabs, if i == -1 then |ui.tabs| else i);
  }

  /** The lines of a tab; none when there is no such tab. */
  function LinesUnder(ui: Ui, title: Bytes): seq<Line> {
    var i := FindTab(ui.tabs, title);
    if i == -1 then [] else ui.tabs[i].lines
  }

  /** A logged line is one more line of the tab it is routed to, and no other tab's. */
  lemma LogAdds(ui: Ui, c: Config, sender: Bytes, channel: Bytes, line: Line, title: Bytes)
    requires Inv(c, ui)
    ensures LinesUnder(Log(ui, c, sender, channel, line), title)
         == LinesUnder(ui, title) + if title == Route(c, sender, channel) then [line] else []
  {
    var after, i := Log(ui, c, sender, channel, line), FindTab(ui.tabs, title);
    if i != -1 {
      FoundAt(after.tabs, i);
    } else if title == Route(c, sender, channel) {
      FoundAt(after.tabs, |ui.tabs|);
    }
  }

  /** When someone joins a channel, the channel's tab shows it, and so does the tab of that user when there
      is one; no other tab does. */
  lemma JoinedShows(ui: Ui, c: Config, nick: Bytes, channel: Bytes, title: Bytes)
    requires Inv(c, ui)
    ensures LinesUnder(UserJoin(ui, c, nick, channel), title)
         == LinesUnder(ui, title)
            + (if HasKey(ui, nick) && title == Route(c, nick, nick) then [Line("! %1 joined %2", nick, channel)] else [])
            + (if title == Route(c, nick, channel) then [Line("! %1 %2", nick, "joined the channel")] else [])
  {
    var line, last := Line("! %1 joined %2", nick, channel), Line("! %1 %2", nick, "joined the channel");
    LogKeeps(ui, c, nick, nick, line);
    LogAdds(ui, c, nick, nick, line, title);
    LogAdds(if HasKey(ui, nick) then Log(ui, c, nick, nick, line) else ui, c, nick, channel, last, title);
    hide Log, Inv, LinesUnder, Grows, Route;
  }

  /** When someone quits, the tab of the empty channel name shows it, and so does the tab of that user when
      there is one; no other tab does. */
  lemma QuitShows(ui: Ui, c: Config, nick: Bytes, message: Bytes, title: Bytes)
    requires Inv(c, ui)
    ensures LinesUnder(UserQuit(ui, c, nick, message), title)
         == LinesUnder(ui, title)
            + (if HasKey(ui, nick) && title == Route(c, nick, nick) then [Line("! %1 Quit: %2", nick, message)] else [])
            + (if title == Route(c, nick, "") then [Line("! %1 Quit: %2", nick, message)] else [])
  {
    var line := Line("! %1 Quit: %2", nick, message);
    LogKeeps(ui, c, nick, nick, line);
    LogAdds(ui, c, nick, nick, line, title);
    LogAdds(if HasKey(ui, nick) then Log(ui, c, nick, nick, line) else ui, c, nick, "", line, title);
    hide Log, Inv, LinesUnder, Grows, Route;
  }

  /** The tab of a user has the user's name, for every name messages are shown under; the tab of the empty
      channel name is the server tab, for everyone with a nick. */
  lemma TabOfUser(c: Config, nick: Bytes)
    ensures Route(c, nick, nick) == if nick == c.nick || nick == "" || nick == "AUTH" then c.host else nick
    ensures c.nick != "" ==> Route(c, nick, "") == c.host
  {
  }

  lemma FoundAt(tabs: seq<TabState>, i: nat)
    requires i < |tabs|
    requires forall j :: 0 <= j < i ==> tabs[j].title != tabs[i].title
    ensures FindTab(tabs, tabs[i].title) == i
  {
    hide FindTab;
  }

  lemma ReceiveKeeps(ui: Ui, c: Config, sender: Bytes, channel: Bytes, message: Bytes)
    requires Inv(c, ui)
    ensures Inv(c, ReceiveMessage(ui, c, sender, channel, message))
    ensures Grows(ui, ReceiveMessage(ui, c, sender, channel, message))
  {
    hide Log, LocalEcho, Inv, Grows;
    LogKeeps(ui, c, sender, channel, Line("* %1 %2", sender, LocalEcho(message)));
    LogKeeps(ui, c, sender, channel, Line("<%1> %2", sender, message));
  }

  lemma GrowsThrough(a: Ui, b: Ui, d: Ui)
    requires Grows(a, b) && Grows(b, d)
    ensures Grows(a, d)
  {
  }

  lemma JoinedKeeps(ui: Ui, c: Config, nick: Bytes, channel: Bytes)
    requires Inv(c, ui)
    ensures Inv(c, UserJoin(ui, c, nick, channel)) && Grows(ui, UserJoin(ui, c, nick, channel))
  {
    var line, last := Line("! %1 joined %2", nick, channel), Line("! %1 %2", nick, "joined the channel");
    LogKeeps(ui, c, nick, nick, line);
    var first := Log(ui, c, nick, nick, line);
    LogKeeps(ui, c, nick, channel, last);
    LogKeeps(first, c, nick, channel, last);
    GrowsThrough(ui, first, Log(first, c, nick, channel, last));
    hide Log, Inv, Grows;
  }

  lemma QuitKeeps(ui: Ui, c: Config, nick: Bytes, message: Bytes)
    requires Inv(c, ui)
    ensures Inv(c, UserQuit(ui, c, nick, message)) && Grows(ui, UserQuit(ui, c, nick, message))
  {
    var line := Line("! %1 Quit: %2", nick, message);
    LogKeeps(ui, c, nick, nick, line);
    var first := Log(ui, c, nick, nick, line);
    LogKeeps(ui, c, nick, "", line);
    LogKeeps(first, c, nick, "", line);
    GrowsThrough(ui, first, Log(first, c, nick, "", line));
    hide Log, Inv, Grows;
  }

  lemma PartKeeps(ui: Ui, c: Config)
    requires Inv(c, ui)
    ensures Inv(c, Part(ui)) && Part(ui).tabs[0] == ui.tabs[0]
  {
  }

  lemma CallKeeps(ui: Ui, c: Config, request: Request)
    requires Inv(c, ui)
    ensures Inv(c, Call(ui, request)) && Grows(ui, Call(ui, request))
  {
  }

  /** Showing a name after a message was logged to it keeps the invariant, whatever the name. */
  lemma ShowKeeps(ui: Ui, c: Config, name: Bytes)
    requires Inv(c, ui) && (Unused(c, name) || FindTab(ui.tabs, name) != -1)
    ensures Inv(c, Show(ui, name)) && Show(ui, name).tabs == ui.tabs
  {
  }

  /** A message from the host finds or makes the tab of every name that is used. */
  lemma HostMessageHasTab(ui: Ui, c: Config, name: Bytes, message: Bytes)
    requires Inv(c, ui)
    ensures Unused(c, name) || FindTab(ReceiveMessage(ui, c, c.host, name, message).tabs, name) != -1
  {
    hide LocalEcho, Inv;
    LogKeeps(ui, c, c.host, name, Line("* %1 %2", c.host, LocalEcho(message)));
    LogKeeps(ui, c, c.host, name, Line("<%1> %2", c.host, message));
    hide Log, Grows;
    assert !Unused(c, name) ==> Route(c, c.host, name) == name;
  }

  lemma JoinKeeps(ui: Ui, c: Config, name: Bytes)
    requires Inv(c, ui)
    ensures Inv(c, Join(ui, c, name)) && KeepsTabs(ui, Join(ui, c, name))
  {
    var request, text := Request("JOIN", [name]), "you have joined " + name;
    var called := if IsChannelName(name) then Call(ui, request) else ui;
    CallKeeps(ui, c, request);
    ReceiveKeeps(called, c, c.host, name, text);
    HostMessageHasTab(called, c, name, text);
    var logged := ReceiveMessage(called, c, c.host, name, text);
    ShowKeeps(logged, c, name);
    hide ReceiveMessage, Inv, Show, FindTab;
  }

  /** Every tab there was is still there, with at least the lines it had. */
  predicate KeepsTabs(before: Ui, after: Ui) {
    && |before.tabs| <= |after.tabs|
    && forall i :: 0 <= i < |before.tabs| ==>
         before.tabs[i].title == after.tabs[i].title && before.tabs[i].lines <= after.tabs[i].lines
  }

  lemma SayKeeps(ui: Ui, c: Config, message: Bytes)
    requires Inv(c, ui)
    ensures Inv(c, Say(ui, c, message)) && Grows(ui, Say(ui, c, message))
  {
    var request := Request("PRIVMSG", [Shown(ui), message]);
    CallKeeps(ui, c, request);
    ReceiveKeeps(Call(ui, request), c, c.nick, Shown(ui), message);
    GrowsThrough(ui, Call(ui, request), Say(ui, c, message));
    hide ReceiveMessage, Inv, Grows;
  }

  /** The server tab is kept: it stays first and no line of it is lost. */
  predicate KeepsServerTab(before: Ui, after: Ui) {
    before.tabs != [] && after.tabs != []
    && before.tabs[0].title == after.tabs[0].title && before.tabs[0].lines <= after.tabs[0].lines
  }

  lemma SendKeeps(ui: Ui, c: Config, msg: Bytes)
    requires Inv(c, ui)
    ensures Inv(c, Send(ui, c, msg)) && KeepsServerTab(ui, Send(ui, c, msg))
  {
    hide Trimmed, From, Join, Say, Part, ReceiveMessage, LocalEcho;
    JoinKeeps(ui, c, From(msg, 6));
    SayKeeps(ui, c, ACTION + From(msg, 4) + [IrcLine.CTCP]);
    SayKeeps(ui, c, msg);
    PartKeeps(ui, c);
    ReceiveKeeps(ui, c, c.host, c.host, "unknown command " + msg);
    CallKeeps(ui, c, Request("NAMES", [Shown(ui)]));
    CallKeeps(ui, c, Request("NAMES", [From(msg, 7)]));
    CallKeeps(ui, c, Request("raw", [From(msg, 5)]));
    hide Inv;
  }

  /** Every event keeps the invariant, and the server tab with all its lines. */
  lemma StepKeeps(ui: Ui, c: Config, e: Event)
    requires Inv(c, ui)
    ensures Inv(c, Step(ui, c, e)) && KeepsServerTab(ui, Step(ui, c, e))
  {
    hide Log, ReceiveMessage, UserJoin, UserQuit, Send, Part, LocalEcho, Trimmed;
    match e
    case Message(s, ch, t) => ReceiveKeeps(ui, c, s, ch, t);
    case Notice(s, ch, t) => LogKeeps(ui, c, s, ch, Line("[%1] %2", s, t));
    case Action(s, ch, t) => LogKeeps(ui, c, s, ch, Line("* %1 %2", s, t));
    case Joined(s, ch) => JoinedKeeps(ui, c, s, ch);
    case Parted(s, ch) => LogKeeps(ui, c, s, ch, Line("! %1 %2", s, "left the channel"));
    case Quit(s, t) => QuitKeeps(ui, c, s, t);
    case Typed(t) => SendKeeps(ui, c, t);
    case CloseKey => PartKeeps(ui, c);
    case TabKey(back) =>
    case Click(tab) =>
  }

  /** The events of a run, from a state in which the server tab exists. */
  function RunEvents(ui: Ui, c: Config, events: seq<Event>): Ui
    requires Inv(c, ui)
    decreases |events|
  {
    if events == [] then ui
    else
      StepKeeps(ui, c, events[0]);
      RunEvents(Step(ui, c, events[0]), c, events[1..])
  }

  /** The invariant holds in every reachable state, and the server tab is never removed and never loses a
      line. */
  lemma {:induction false} RunKeeps(ui: Ui, c: Config, events: seq<Event>)
    requires Inv(c, ui)
    ensures Inv(c, RunEvents(ui, c, events)) && KeepsServerTab(ui, RunEvents(ui, c, events))
    decreases |events|
  {
    if events != [] {
      StepKeeps(ui, c, events[0]);
      hide Step, Inv;
      RunKeeps(Step(ui, c, events[0]), c, events[1..]);
    }
  }

  /** Every message finds a view: the name it is routed to is no key without one, before or after the tab
      for it is made. */
  lemma LookupIsSafe(ui: Ui, c: Config, events: seq<Event>, sender: Bytes, channel: Bytes)
    requires Inv(c, ui)
    ensures Route(c, sender, channel) !in RunEvents(ui, c, events).blanks
  {
    RunKeeps(ui, c, events);
  }

  /** Keys and titles agree in a state exactly when no key lacks a view. */
  ghost predicate KeysAreTitles(ui: Ui) {
    forall name :: HasKey(ui, name) <==> exists i :: 0 <= i < |ui.tabs| && ui.tabs[i].title == name
  }

  lemma KeysAreTitlesMeans(ui: Ui, c: Config)
    requires Inv(c, ui)
    ensures KeysAreTitles(ui) <==> ui.blanks == {}
  {
    forall name
      ensures FindTab(ui.tabs, name) != -1 <==> exists i :: 0 <= i < |ui.tabs| && ui.tabs[i].title == name
    {
    }
    if ui.blanks != {} {
      var name :| name in ui.blanks;
      assert HasKey(ui, name);
    }
  }

  /** A /join with a name that no message is shown under. */
  predicate JoinsUnused(c: Config, e: Event) {
    e.Typed? && StartsWith(e.text, "/join ") && Unused(c, From(e.text, 6))
  }

  lemma JoinBlanks(ui: Ui, c: Config, name: Bytes)
    requires Inv(c, ui)
    ensures Join(ui, c, name).blanks == ui.blanks + if Unused(c, name) then {name} else {}
  {
    var request, text := Request("JOIN", [name]), "you have joined " + name;
    var called := if IsChannelName(name) then Call(ui, request) else ui;
    CallKeeps(ui, c, request);
    ReceiveKeeps(called, c, c.host, name, text);
    HostMessageHasTab(called, c, name, text);
    var logged := ReceiveMessage(called, c, c.host, name, text);
    hide ReceiveMessage;
    assert Unused(c, name) ==> FindTab(logged.tabs, name) == -1;
  }

  lemma TypedBlanks(ui: Ui, c: Config, msg: Bytes)
    requires Inv(c, ui)
    ensures Send(ui, c, msg).blanks == ui.blanks + if JoinsUnused(c, Typed(msg)) then {From(msg, 6)} else {}
  {
    hide Trimmed, From, Join, Say, Part, ReceiveMessage, LocalEcho, Unused;
    if StartsWith(msg, "/join ") {
      TrimmedCovers(msg, 0);
      JoinBlanks(ui, c, From(msg, 6));
    } else {
      SayKeeps(ui, c, ACTION + From(msg, 4) + [IrcLine.CTCP]);
      SayKeeps(ui, c, msg);
      PartBlanks(ui);
      ReceiveKeeps(ui, c, c.host, c.host, "unknown command " + msg);
    }
    hide Inv;
  }

  lemma PartBlanks(ui: Ui)
    requires 0 <= ui.current < |ui.tabs|
    ensures Part(ui).blanks == ui.blanks
  {
  }

  /** No event but such a /join makes a key without a view, and none takes one away. */
  lemma StepBlanks(ui: Ui, c: Config, e: Event)
    requires Inv(c, ui)
    ensures Step(ui, c, e).blanks == ui.blanks + if JoinsUnused(c, e) then {From(e.text, 6)} else {}
  {
    hide Log, ReceiveMessage, UserJoin, UserQuit, Send, Part, LocalEcho, Unused, From;
    match e
    case Message(s, ch, t) => ReceiveKeeps(ui, c, s, ch, t);
    case Notice(s, ch, t) => LogKeeps(ui, c, s, ch, Line("[%1] %2", s, t));
    case Action(s, ch, t) => LogKeeps(ui, c, s, ch, Line("* %1 %2", s, t));
    case Joined(s, ch) => JoinedKeeps(ui, c, s, ch);
    case Parted(s, ch) => LogKeeps(ui, c, s, ch, Line("! %1 %2", s, "left the channel"));
    case Quit(s, t) => QuitKeeps(ui, c, s, t);
    case Typed(t) => TypedBlanks(ui, c, t);
    case CloseKey => PartBlanks(ui);
    case TabKey(back) =>
    case Click(tab) =>
  }

  ghost predicate NoneJoinsUnused(c: Config, events: seq<Event>) {
    forall e :: e in events ==> !JoinsUnused(c, e)
  }

  lemma {:induction false} RunBlanks(ui: Ui, c: Config, events: seq<Event>)
    requires Inv(c, ui)
    ensures RunEvents(ui, c, events).blanks == {} <==> ui.blanks == {} && NoneJoinsUnused(c, events)
    decreases |events|
  {
    if events != [] {
      StepKeeps(ui, c, events[0]);
      StepBlanks(ui, c, events[0]);
      assert events == [events[0]] + events[1..];
      hide Step, Inv, JoinsUnused;
      RunBlanks(Step(ui, c, events[0]), c, events[1..]);
    }
  }

  /** After a run of events the keys of the channel table are the titles of the tabs exactly when they
      were so before it and every name joined in it is one that messages are shown under. */
  lemma RunAgrees(ui: Ui, c: Config, events: seq<Event>)
    requires Inv(c, ui)
    ensures KeysAreTitles(RunEvents(ui, c, events)) <==> KeysAreTitles(ui) && NoneJoinsUnused(c, events)
  {
    RunKeeps(ui, c, events);
    RunBlanks(ui, c, events);
    hide Inv, KeysAreTitles, RunEvents, NoneJoinsUnused;
    KeysAreTitlesMeans(ui, c);
    KeysAreTitlesMeans(RunEvents(ui, c, events), c);
  }

  /** Cycling stays in range, and one step back undoes one forward. */
  lemma CyclingTurnsBack(count: int, current: int, back: bool)
    requires 0 <= current < count
    ensures 0 <= NextTab(count, current, back) < count
    ensures NextTab(count, NextTab(count, current, back), !back) == current
  {
  }

  /** n presses of the key. */
  function Cycled(count: int, current: int, back: bool, n: nat): int {
    if n == 0 then current else NextTab(count, Cycled(count, current, back, n - 1), back)
  }

  lemma {:induction false} CycledIs(count: int, current: int, back: bool, n: nat)
    requires 0 <= current < count && n <= count
    ensures Cycled(count, current, back, n) ==
            if back then (if n <= current then current - n else current - n + count)
            else (if current + n < count then current + n else current + n - count)
  {
    if n > 0 {
      CycledIs(count, current, back, n - 1);
    }
  }

  /** As many presses as there are tabs end where they began, and on the way every tab is shown by exactly
      one of them. */
  lemma CyclingIsRotation(count: int, current: int, back: bool, tab: int) returns (n: nat)
    requires 0 <= current < count && 0 <= tab < count
    ensures Cycled(count, current, back, count) == current
    ensures n < count && forall k: nat :: k < count ==> (Cycled(count, current, back, k) == tab <==> k == n)
  {
    var distance := if back then current - tab else tab - current;
    n := if distance < 0 then distance + count else distance;
    CycledIs(count, current, back, count);
    forall k: nat | k < count
      ensures Cycled(count, current, back, k) == tab <==> k == n
    {
      CycledIs(count, current, back, k);
    }
  }

  ghost predicate HasTab(ui: Ui, title: Bytes) {
    exists i :: 0 <= i < |ui.tabs| && ui.tabs[i].title == title
  }

  /** Closing removes exactly the tab shown, unless that is the server tab. */
  lemma PartCloses(ui: Ui, c: Config, title: Bytes)
    requires Inv(c, ui)
    ensures HasTab(Part(ui), title) <==> HasTab(ui, title) && (title != Shown(ui) || title == c.host)
  {
    var after, k := Part(ui), ui.current;
    if k > 0 {
      if i :| 0 <= i < |ui.tabs| && ui.tabs[i].title == title && i != k {
        assert after.tabs[if i < k then i else i - 1].title == title;
      }
      if j :| 0 <= j < |after.tabs| && after.tabs[j].title == title {
        assert ui.tabs[if j < k then j else j + 1].title == title;
      }
    }
  }

  /** What one says in a tab is shown in that tab. */
  lemma OwnMessageStays(c: Config, ui: Ui)
    requires Inv(c, ui)
    ensures Route(c, c.nick, Shown(ui)) == Shown(ui)
    ensures FindTab(ui.tabs, Shown(ui)) == ui.current
  {
    FoundAt(ui.tabs, ui.current);
  }

  lemma ActionTyped(text: Bytes)
    ensures var msg := "/me " + text;
      Trimmed(msg) != "" && !StartsWith(msg, "/join ") && StartsWith(msg, "/me ") && From(msg, 4) == text
  {
    var msg := "/me " + text;
    TrimmedCovers(msg, 0);
    hide Trimmed;
    assert msg[1] == 'm';
  }

  /** An action typed in a tab is sent to that tab's name as the message that ActionArrives is about, and
      the tab shows the text as it was typed. */
  lemma ActionIsSentAndShown(ui: Ui, c: Config, text: Bytes)
    requires Inv(c, ui)
    ensures var after := Send(ui, c, "/me " + text);
      && after.sent == ui.sent + [Request("PRIVMSG", ActionMessage(c.nick, Shown(ui), text).params)]
      && after.current == ui.current
      && after.tabs == ui.tabs[ui.current := TabState(Shown(ui), ui.tabs[ui.current].lines + [Line("* %1 %2", c.nick, text)])]
  {
    var message := ACTION + text + [IrcLine.CTCP];
    ActionTyped(text);
    OwnMessageStays(c, ui);
    EchoOfAction(text);
    hide Trimmed, From, LocalEcho, Inv, Join, Part;
    assert StartsWith(message, ACTION);
    assert Send(ui, c, "/me " + text) == Say(ui, c, message);
  }
}
