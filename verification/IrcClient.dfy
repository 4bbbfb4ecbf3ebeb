/**
 MainWindow: the channel table and the tab widget as the client's slots update them
 (examples/ircpeer/mainwindow.cpp).
 */
module IrcClient {
  import opened ByteArray
  import IrcLine
  import opened IrcReplies
  import opened IrcTabs

  class TextBrowser {
    var lines: seq<Line>

    constructor ()
      ensures lines == []
    {
      lines := [];
    }

    method Append(line: Line)
      modifies this
      ensures lines == old(lines) + [line]
    {
      lines := lines + [line];
    }
  }

  datatype Tab = Tab(view: TextBrowser, title: Bytes)

  /** Every tab has its own view, which is the one the channel table has for its title, and every view in
      the table belongs to a tab. */
  ghost predicate Agree(channels: map<Bytes, TextBrowser?>, tabs: seq<Tab>) {
    && (forall i, j :: 0 <= i < j < |tabs| ==> tabs[i].view != tabs[j].view && tabs[i].title != tabs[j].title)
    && (forall i :: 0 <= i < |tabs| ==> tabs[i].title in channels && channels[tabs[i].title] == tabs[i].view)
    && (forall name :: name in channels && channels[name] != null ==> HasTitle(tabs, name))
  }

  ghost predicate HasTitle(tabs: seq<Tab>, name: Bytes) {
    exists i :: 0 <= i < |tabs| && tabs[i].title == name
  }

  ghost function ViewsOf(tabs: seq<Tab>): set<TextBrowser> {
    set t | t in tabs :: t.view
  }

  /** What the tabs show. */
  ghost function StatesOf(tabs: seq<Tab>): (r: seq<TabState>)
    reads ViewsOf(tabs)
    ensures |r| == |tabs|
    ensures forall i :: 0 <= i < |tabs| ==> r[i] == TabState(tabs[i].title, tabs[i].view.lines)
  {
    seq(|tabs|, i requires 0 <= i < |tabs| reads ViewsOf(tabs) => TabState(tabs[i].title, tabs[i].view.lines))
  }

  lemma StatesMore(tabs: seq<Tab>, tab: Tab)
    ensures StatesOf(tabs + [tab]) == StatesOf(tabs) + [TabState(tab.title, tab.view.lines)]
    ensures ViewsOf(tabs + [tab]) == ViewsOf(tabs) + {tab.view}
  {
  }

  lemma StatesLess(tabs: seq<Tab>, k: nat)
    requires k < |tabs|
    ensures StatesOf(tabs[..k] + tabs[k + 1..]) == StatesOf(tabs)[..k] + StatesOf(tabs)[k + 1..]
    ensures ViewsOf(tabs[..k] + tabs[k + 1..]) <= ViewsOf(tabs)
  {
  }

  /** Keys without a view. */
  ghost function NullKeys(channels: map<Bytes, TextBrowser?>): set<Bytes> {
    set name | name in channels && channels[name] == null
  }

  lemma AgreeMore(channels: map<Bytes, TextBrowser?>, tabs: seq<Tab>, name: Bytes, view: TextBrowser)
    requires Agree(channels, tabs) && name !in channels
    requires forall i :: 0 <= i < |tabs| ==> tabs[i].view != view
    ensures Agree(channels[name := view], tabs + [Tab(view, name)])
    ensures NullKeys(channels[name := view]) == NullKeys(channels)
  {
    var keys, wider := channels[name := view], tabs + [Tab(view, name)];
    forall title | title in keys && keys[title] != null
      ensures HasTitle(wider, title)
    {
      if title == name {
        assert wider[|tabs|].title == title;
      } else {
        var i :| 0 <= i < |tabs| && tabs[i].title == title;
        assert wider[i].title == title;
      }
    }
  }

  lemma AgreeNull(channels: map<Bytes, TextBrowser?>, tabs: seq<Tab>, name: Bytes)
    requires Agree(channels, tabs) && name !in channels
    ensures Agree(channels[name := null], tabs)
    ensures NullKeys(channels[name := null]) == NullKeys(channels) + {name}
  {
  }

  lemma AgreeLess(channels: map<Bytes, TextBrowser?>, tabs: seq<Tab>, k: nat)
    requires Agree(channels, tabs) && k < |tabs|
    ensures Agree(channels - {tabs[k].title}, tabs[..k] + tabs[k + 1..])
    ensures NullKeys(channels - {tabs[k].title}) == NullKeys(channels)
  {
    var keys, fewer := channels - {tabs[k].title}, tabs[..k] + tabs[k + 1..];
    forall title | title in keys && keys[title] != null
      ensures HasTitle(fewer, title)
    {
      var i :| 0 <= i < |tabs| && tabs[i].title == title;
      assert fewer[if i < k then i else i - 1].title == title;
    }
  }

  class MainWindow {
    const config: Config
    var channels: map<Bytes, TextBrowser?>
    var tabs: seq<Tab>
    var current: int
    var sent: seq<Request>

    ghost function Views(): set<TextBrowser>
      reads this`tabs
    {
      ViewsOf(tabs)
    }

    ghost function State(): (ui: Ui)
      reads this, Views()
    {
      Ui(StatesOf(tabs), NullKeys(channels), current, sent)
    }

    ghost predicate Consistent()
      reads this
    {
      Agree(channels, tabs)
    }

    ghost predicate Valid()
      reads this, Views()
    {
      Consistent() && Inv(config, State())
    }

    constructor (config: Config)
      ensures this.config == config && Consistent() && State() == EMPTY
    {
      this.config := config;
      channels, tabs, current, sent := map[], [], -1, [];
    }

    /** A message can be shown: the server tab is there, or this message is the one that makes it. */
    ghost predicate CanShow(nick: Bytes, channel: Bytes)
      reads this, Views()
    {
      && Consistent()
      && (|| Inv(config, State())
          || (State() == EMPTY && nick == channel == config.host != "" && config.host != "AUTH"))
    }

    /** A new view under a new name, at the end of the tabs. */
    method OpenTab(name: Bytes)
      requires Consistent() && name !in channels
      modifies this
      ensures Consistent() && fresh(Views() - old(Views()))
      ensures |tabs| == |old(tabs)| + 1 && tabs[|tabs| - 1].title == name
      ensures State() == old(State()).(tabs := old(State()).tabs + [TabState(name, [])],
                                       current := if old(tabs) == [] then 0 else old(current))
    {
      var view := new TextBrowser();
      hide Agree, NullKeys, StatesOf, ViewsOf;
      AgreeMore(channels, tabs, name, view);
      StatesMore(tabs, Tab(view, name));
      channels := channels[name := view];
      tabs := tabs + [Tab(view, name)];
      if |tabs| == 1 { current := 0; }
    }

    /** The view of a tab gets one more line. */
    method AppendLine(name: Bytes, line: Line, ghost i: nat)
      requires Consistent() && i < |tabs| && tabs[i].title == name
      modifies Views()
      ensures Consistent()
      ensures State() == old(State()).(tabs := old(State()).tabs[i := TabState(name, old(State()).tabs[i].lines + [line])])
    {
      var view := channels[name];
      view.Append(line);
    }

    /** The name a message is routed to is a key with a view, or no key at all. */
    lemma RoutedHasView(nick: Bytes, channel: Bytes)
      requires CanShow(nick, channel)
      ensures var name := Route(config, nick, channel);
        && (if name in channels then 0 <= FindTab(State().tabs, name) else FindTab(State().tabs, name) == -1)
        && (State() != EMPTY ==> config.host in channels)
    {
      assert State() != EMPTY ==> tabs[0].title == State().tabs[0].title;
      var name := Route(config, nick, channel);
      if name in channels {
        assert name !in NullKeys(channels);
        assert HasTitle(tabs, name);
        var i :| 0 <= i < |tabs| && tabs[i].title == name;
        assert State().tabs[i].title == name;
      } else {
        assert forall i :: 0 <= i < |tabs| ==> State().tabs[i].title == tabs[i].title;
      }
    }

    method LogMessage(nick: Bytes, channel: Bytes, line: Line)
      requires CanShow(nick, channel)
      modifies this, Views()
      ensures Valid() && State() == Log(old(State()), config, nick, channel, line)
      ensures fresh(Views() - old(Views()))
    {
      RoutedHasView(nick, channel);
      ghost var ui, title := State(), Route(config, nick, channel);
      if ui == EMPTY {
        assert Inv(config, Log(ui, config, nick, channel, line));
      } else {
        LogKeeps(ui, config, nick, channel, line);
      }
      hide Inv, Consistent;
      var name := channel;
      if name == config.nick {
        if name == nick {
          name := config.host;
        } else {
          name := nick;
        }
      }
      if name == "" || name == "AUTH" {
        name := config.host;
      } else if name !in channels {
        OpenTab(name);
      }
      assert name == title;
      NewTab(ui.tabs, title, line);
      ghost var i := FindTab(ui.tabs, title);
      AppendLine(name, line, if i == -1 then |ui.tabs| else i);
    }

    method ReceiveMessage(nick: Bytes, channel: Bytes, message: Bytes)
      requires CanShow(nick, channel)
      modifies this, Views()
      ensures Valid() && State() == IrcTabs.ReceiveMessage(old(State()), config, nick, channel, message)
      ensures fresh(Views() - old(Views()))
    {
      hide Log, Inv, Mid;
      if StartsWith(message, ACTION) {
        ReceiveAction(nick, channel, Mid(message, 8, |message| - 9));
      } else {
        LogMessage(nick, channel, Line("<%1> %2", nick, message));
      }
    }

    method ReceiveNotice(nick: Bytes, channel: Bytes, message: Bytes)
      requires Valid()
      modifies this, Views()
      ensures Valid() && State() == Step(old(State()), config, Notice(nick, channel, message))
      ensures fresh(Views() - old(Views()))
    {
      LogMessage(nick, channel, Line("[%1] %2", nick, message));
    }

    method ReceiveAction(nick: Bytes, channel: Bytes, message: Bytes)
      requires CanShow(nick, channel)
      modifies this, Views()
      ensures Valid() && State() == Log(old(State()), config, nick, channel, Line("* %1 %2", nick, message))
      ensures fresh(Views() - old(Views()))
    {
      LogMessage(nick, channel, Line("* %1 %2", nick, message));
    }

    /** A name is a key of the channel table exactly when HasKey says so. */
    lemma KeysAre(name: Bytes)
      requires Consistent()
      ensures name in channels <==> HasKey(State(), name)
    {
      assert forall i :: 0 <= i < |tabs| ==> State().tabs[i].title == tabs[i].title;
      if name in channels && channels[name] != null {
        assert HasTitle(tabs, name);
      }
    }

    method UserJoin(nick: Bytes, channel: Bytes)
      requires Valid()
      modifies this, Views()
      ensures Valid() && State() == IrcTabs.UserJoin(old(State()), config, nick, channel)
      ensures fresh(Views() - old(Views()))
    {
      KeysAre(nick);
      hide Log, Inv, HasKey, Agree, NullKeys, StatesOf, ViewsOf;
      if nick in channels {
        LogMessage(nick, nick, Line("! %1 joined %2", nick, channel));
      }
      LogMessage(nick, channel, Line("! %1 %2", nick, "joined the channel"));
    }

    method UserPart(nick: Bytes, channel: Bytes)
      requires Valid()
      modifies this, Views()
      ensures Valid() && State() == IrcTabs.UserPart(old(State()), config, nick, channel)
      ensures fresh(Views() - old(Views()))
    {
      if nick == config.nick { return; }
      LogMessage(nick, channel, Line("! %1 %2", nick, "left the channel"));
    }

    method UserQuit(nick: Bytes, message: Bytes)
      requires Valid()
      modifies this, Views()
      ensures Valid() && State() == IrcTabs.UserQuit(old(State()), config, nick, message)
      ensures fresh(Views() - old(Views()))
    {
      KeysAre(nick);
      hide Log, Inv, HasKey, Agree, NullKeys, StatesOf, ViewsOf;
      if nick in channels {
        LogMessage(nick, nick, Line("! %1 Quit: %2", nick, message));
      }
      LogMessage(nick, "", Line("! %1 Quit: %2", nick, message));
    }

    method Call(request: Request)
      requires Valid()
      modifies this`sent
      ensures Valid() && State() == IrcTabs.Call(old(State()), request) && Views() == old(Views())
    {
      sent := sent + [request];
    }

    method PartCurrentChannel()
      requires Valid()
      modifies this
      ensures Valid() && State() == Part(old(State()))
      ensures Views() <= old(Views())
    {
      ghost var ui := State();
      if current == 0 { return; }
      PartKeeps(ui, config);
      hide Inv, StatesOf, ViewsOf, Agree, NullKeys, IsChannelName;
      assert |ui.tabs| == |tabs| && 0 < current < |tabs|;
      var title := tabs[current].title;
      assert ui.tabs[current].title == title;
      CloseTab(title);
      if IsChannelName(title) {
        sent := sent + [Request("PART", [title])];
      }
      assert State() == Part(ui);
    }

    /** Forgets the tab shown. */
    method CloseTab(title: Bytes)
      requires Consistent() && 0 < current < |tabs| && title == tabs[current].title
      modifies this`channels, this`tabs, this`current
      ensures Consistent() && Views() <= old(Views())
      ensures var ui := old(State());
        State() == ui.(tabs := ui.tabs[..ui.current] + ui.tabs[ui.current + 1..],
                       current := if ui.current == |ui.tabs| - 1 then ui.current - 1 else ui.current)
    {
      hide Agree, NullKeys, StatesOf, ViewsOf;
      AgreeLess(channels, tabs, current);
      StatesLess(tabs, current);
      channels := channels - {title};
      tabs := tabs[..current] + tabs[current + 1..];
      if current == |tabs| { current := current - 1; }
    }

    /** Ctrl+Tab and Ctrl+Backtab. */
    method CycleTab(back: bool)
      requires Valid()
      modifies this`current
      ensures Valid() && State() == Step(old(State()), config, TabKey(back))
    {
      ghost var ui := State();
      assert 0 <= current < |tabs| && |ui.tabs| == |tabs|;
      hide Step, Inv, StatesOf, ViewsOf, Agree, NullKeys;
      TabKeyStep(ui, back);
      var nextTab := current;
      if back {
        nextTab := nextTab - 1;
      } else {
        nextTab := nextTab + 1;
      }
      if nextTab == -1 { nextTab := |tabs| - 1; }
      if nextTab == |tabs| { nextTab := 0; }
      current := nextTab;
    }

    lemma TabKeyStep(ui: Ui, back: bool)
      requires Inv(config, ui)
      ensures Step(ui, config, TabKey(back)) == ui.(current := NextTab(|ui.tabs|, ui.current, back))
      ensures Inv(config, Step(ui, config, TabKey(back)))
    {
      StepKeeps(ui, config, TabKey(back));
      hide Inv;
    }

    lemma ClickStep(ui: Ui, i: nat)
      requires Inv(config, ui)
      ensures Step(ui, config, Click(i)) == if i < |ui.tabs| then ui.(current := i) else ui
      ensures Inv(config, Step(ui, config, Click(i)))
    {
      StepKeeps(ui, config, Click(i));
      hide Inv;
    }

    method SelectTab(i: nat)
      requires Valid()
      modifies this`current
      ensures Valid() && State() == Step(old(State()), config, Click(i))
    {
      ghost var ui := State();
      assert |ui.tabs| == |tabs|;
      hide Step, Inv, StatesOf, ViewsOf, Agree, NullKeys;
      ClickStep(ui, i);
      if i < |tabs| { current := i; }
    }

    /** The index of the tab with a view, if there is one. */
    method FindView(view: TextBrowser) returns (k: nat)
      ensures k <= |tabs| && (k < |tabs| ==> tabs[k].view == view)
      ensures forall j :: 0 <= j < k ==> tabs[j].view != view
    {
      k := 0;
      while k < |tabs| && tabs[k].view != view
        invariant 0 <= k <= |tabs|
        invariant forall j :: 0 <= j < k ==> tabs[j].view != view
      {
        k := k + 1;
      }
    }

    /** The tab with the view of a key is the tab with its title. */
    lemma ViewIsTitle(name: Bytes, k: nat)
      requires Consistent() && name in channels && channels[name] != null
      requires k <= |tabs| && (k < |tabs| ==> tabs[k].view == channels[name])
      requires forall j :: 0 <= j < k ==> tabs[j].view != channels[name]
      ensures k < |tabs| && FindTab(State().tabs, name) == k
    {
      assert HasTitle(tabs, name);
      var i :| 0 <= i < |tabs| && tabs[i].title == name;
      assert channels[tabs[i].title] == tabs[i].view;
      FoundAt(State().tabs, i);
    }

    lemma AlreadyIn(names: set<Bytes>, name: Bytes)
      requires name in names
      ensures names + {name} == names
    {
    }

    lemma NullIsBlank(name: Bytes)
      requires Consistent()
      ensures name in channels && channels[name] == null ==> FindTab(State().tabs, name) == -1 && name in NullKeys(channels)
      ensures name !in channels ==> FindTab(State().tabs, name) == -1
    {
    }

    /** tabWidget->setCurrentWidget(channels[name]): looking up a name that is no key makes it one. */
    method ShowChannel(name: Bytes)
      requires Valid() && (Unused(config, name) || FindTab(State().tabs, name) != -1)
      modifies this
      ensures Valid() && State() == Show(old(State()), name) && Views() == old(Views())
    {
      ShowKeeps(State(), config, name);
      NullIsBlank(name);
      ghost var ui := State();
      hide Inv, StatesOf, FindTab;
      if name !in channels {
        AgreeNull(channels, tabs, name);
        hide Agree, NullKeys;
        channels := channels[name := null];
      } else if channels[name] != null {
        var k := FindView(channels[name]);
        ViewIsTitle(name, k);
        hide Agree, NullKeys;
        current := k;
      } else {
        AlreadyIn(NullKeys(channels), name);
      }
      assert State() == Show(ui, name);
    }

    lemma NewTab(before: seq<TabState>, title: Bytes, line: Line)
      ensures var wider := before + [TabState(title, [])];
        wider[|before| := TabState(title, wider[|before|].lines + [line])] == before + [TabState(title, [line])]
    {
      assert [] + [line] == [line];
    }

    /** The host name's message that makes the server tab. */
    method LateInit(text: Bytes)
      requires Consistent() && State() == EMPTY && config.host != "" && config.host != "AUTH"
      modifies this, Views()
      ensures Valid() && State() == IrcTabs.ReceiveMessage(EMPTY, config, config.host, config.host, text)
    {
      ReceiveMessage(config.host, config.host, text);
    }

    /** The message about joining, which makes the tab, after the request for a channel. */
    method AnnounceJoin(name: Bytes)
      requires Valid()
      modifies this, Views()
      ensures Valid() && fresh(Views() - old(Views()))
      ensures State() == IrcTabs.ReceiveMessage(
                           if IsChannelName(name) then IrcTabs.Call(old(State()), Request("JOIN", [name])) else old(State()),
                           config, config.host, name, "you have joined " + name)
    {
      ghost var before := Views();
      hide Inv, StatesOf, Agree, NullKeys, IrcTabs.ReceiveMessage, FindTab;
      if IsChannelName(name) {
        Call(Request("JOIN", [name]));
        assert Views() == before;
        ReceiveMessage(config.host, name, "you have joined " + name);
      } else {
        ReceiveMessage(config.host, name, "you have joined " + name);
      }
    }

    method Join(name: Bytes)
      requires Valid()
      modifies this, Views()
      ensures Valid() && State() == IrcTabs.Join(old(State()), config, name)
      ensures fresh(Views() - old(Views()))
    {
      hide Inv, StatesOf, ViewsOf, Agree, NullKeys, IrcTabs.ReceiveMessage, FindTab;
      CallKeeps(State(), config, Request("JOIN", [name]));
      HostMessageHasTab(State(), config, name, "you have joined " + name);
      HostMessageHasTab(IrcTabs.Call(State(), Request("JOIN", [name])), config, name, "you have joined " + name);
      AnnounceJoin(name);
      ShowChannel(name);
    }

    method Say(message: Bytes)
      requires Valid()
      modifies this, Views()
      ensures Valid() && State() == IrcTabs.Say(old(State()), config, message)
      ensures fresh(Views() - old(Views()))
    {
      ghost var ui := State();
      assert 0 <= current < |tabs| && tabs[current].title == Shown(ui);
      hide Inv, StatesOf, ViewsOf, Agree, NullKeys, IrcTabs.ReceiveMessage;
      var title := tabs[current].title;
      Call(Request("PRIVMSG", [title, message]));
      ReceiveMessage(config.nick, title, message);
    }

    /** What is typed into the line: a command, or a message to the tab shown. */
    method Send(msg: Bytes)
      requires Valid()
      modifies this, Views()
      ensures Valid() && State() == IrcTabs.Send(old(State()), config, msg)
      ensures fresh(Views() - old(Views()))
    {
      ghost var ui := State();
      assert 0 <= current < |tabs| && tabs[current].title == Shown(ui);
      hide Inv, StatesOf, ViewsOf, Agree, NullKeys, IrcTabs.ReceiveMessage, IrcTabs.Say, IrcTabs.Join, Part, Trimmed,
        From, StartsWith;
      if Trimmed(msg) == "" { return; }
      if StartsWith(msg, "/") {
        if StartsWith(msg, "/join ") {
          Join(From(msg, 6));
        } else if StartsWith(msg, "/me ") {
          Say(ACTION + From(msg, 4) + [IrcLine.CTCP]);
        } else if StartsWith(msg, "/names") {
          if msg == "/names" {
            Call(Request("NAMES", [tabs[current].title]));
          } else {
            Call(Request("NAMES", [From(msg, 7)]));
          }
        } else if msg == "/part" {
          PartCurrentChannel();
        } else if StartsWith(msg, "/raw ") {
          Call(Request("raw", [From(msg, 5)]));
        } else if msg != "/quit" {
          ReceiveMessage(config.host, config.host, "unknown command " + msg);
        }
      } else {
        Say(msg);
      }
    }
  }
}
