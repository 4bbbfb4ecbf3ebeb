/**
 The receive loop that feeds the codec (src/core/qxtrpcservice.cpp), and whole streams of messages.
 */
module RpcService {
  import opened ByteArray
  import opened IrcName
  import opened IrcLine
  import opened IrcFaults
  import opened IrcFraming
  import opened IrcRoundTrip
  import IrcSerializer

  // ----- streams of messages

  predicate AllWellFormed(ms: seq<Message>) {
    forall i :: 0 <= i < |ms| ==> WellFormed(ms[i])
  }

  function Stream(ms: seq<Message>): Bytes
    requires AllWellFormed(ms)
  {
    if ms == [] then "" else Wire(ms[0]) + Stream(ms[1..])
  }

  function LinesOf(ms: seq<Message>): seq<Bytes> {
    seq(|ms|, i requires 0 <= i < |ms| => Line(ms[i]))
  }

  lemma LinesOfCons(ms: seq<Message>)
    requires ms != []
    ensures LinesOf(ms) == [Line(ms[0])] + LinesOf(ms[1..])
  {
    hide Line;
  }

  lemma DrainLine(line: Bytes, rest: Bytes)
    requires Tight(line) && NoEol(line)
    ensures Drain(line + "\r\n" + rest) == Drained([line] + Drain(rest).lines, Drain(rest).rest)
  {
    CrLf(line, rest);
    DrainCut(line, CR, [LF] + rest);
    DrainCut("", LF, rest);
    TrimmedTight(line);
    hide Drain;
  }

  /** Draining the bytes of a run of messages gives their lines, and leaves nothing. */
  lemma {:induction false} DrainStream(ms: seq<Message>)
    requires AllWellFormed(ms)
    ensures Drain(Stream(ms)) == Drained(LinesOf(ms), "")
  {
    if ms != [] {
      SurvivingLine(ms[0]);
      DrainStream(ms[1..]);
      LinesOfCons(ms);
      DrainLine(Line(ms[0]), Stream(ms[1..]));
      hide Drain, Line, WellFormed, LinesOf, Tight, NoEol;
    }
  }

  /** However the bytes of a run of messages arrive, draining after each chunk hands over exactly the
      lines of these messages, each of which parses to its message, and leaves an empty buffer. */
  lemma StreamDelivery(ms: seq<Message>, chunks: seq<Bytes>)
    requires AllWellFormed(ms) && Flatten(chunks) == Stream(ms)
    ensures Feed("", chunks) == Drained(LinesOf(ms), "")
    ensures forall i :: 0 <= i < |ms| ==> LinesOf(ms)[i] != "" && ParseLine(LinesOf(ms)[i]) == Received(ms[i])
  {
    hide Drain, Feed, WellFormed, Line, ParseLine, Received, Stream;
    ChunkIndependence("", chunks);
    assert "" + Flatten(chunks) == Flatten(chunks);
    DrainStream(ms);
    LinesParse(ms);
  }

  lemma LinesParse(ms: seq<Message>)
    requires AllWellFormed(ms)
    ensures forall i :: 0 <= i < |ms| ==> LinesOf(ms)[i] != "" && ParseLine(LinesOf(ms)[i]) == Received(ms[i])
  {
    hide Survives, Line, ParseLine, Received;
    forall i | 0 <= i < |ms|
      ensures LinesOf(ms)[i] != "" && ParseLine(LinesOf(ms)[i]) == Received(ms[i])
    {
      SurvivingLine(ms[i]);
    }
  }

  // ----- the loop over the buffer

  /** A call handed to the dispatcher: always eight arguments. */
  datatype Call = Call(fn: Bytes, args: seq<Variant>)

  function FirstEight(params: seq<Variant>): (r: seq<Variant>)
    ensures |r| == 8
    ensures forall i :: 0 <= i < 8 ==> r[i] == if i < |params| then params[i] else Invalid
  {
    if |params| < 8 then params + Padding(8 - |params|) else params[..8]
  }

  datatype Status = Open | Disconnected | Crashed

  datatype Link = Link(buffer: Bytes, calls: seq<Call>, status: Status)

  /** One turn of the loop on what deserialize returned: nothing for a blank line, the end of the
      connection for a protocol error, a dispatched call otherwise. */
  function Handle(link: Link, d: Outcome): Link {
    if d.OutOfRange? then link.(status := Crashed)
    else if IsNoOp(d) then link
    else if IsProtocolError(d) then link.(status := Disconnected)
    else link.(calls := link.calls + [Call(d.command, FirstEight(d.params))])
  }

  function Turn(link: Link): Link {
    Handle(link.(buffer := Remaining(link.buffer)), Deserialized(link.buffer))
  }

  /** The loop is left when the connection is, or when canDeserialize says no. */
  predicate Halted(link: Link) {
    link.status != Open || !CanDeserialize(link.buffer)
  }

  function Turns(link: Link, n: nat): Link
    decreases n
  {
    if n == 0 then link else if Halted(link) then link else Turns(Turn(link), n - 1)
  }

  /** A line that ends the connection. */
  predicate Stops(line: Bytes) {
    RunsOut(line) || EmptyCommand(line)
  }

  lemma StopsMeans(line: Bytes)
    requires line != ""
    ensures Stops(line) <==> ParseLine(line).OutOfRange? || IsProtocolError(ParseLine(line))
  {
    RunsOutExactly(line);
    ProtocolErrorExactly(line);
    hide RunsOut, EmptyCommand, ParseLine;
  }

  /** The loop comes to an end: found by following its cuts. */
  predicate Settles(buffer: Bytes)
    decreases |buffer|
  {
    if LF !in buffer then CR !in buffer
    else Stops(NextMessage(buffer)) || Settles(Remaining(buffer))
  }

  predicate SomeStops(lines: seq<Bytes>) {
    exists i :: 0 <= i < |lines| && Stops(lines[i])
  }

  lemma SomeStopsCons(line: Bytes, lines: seq<Bytes>)
    ensures SomeStops(Cons(line, lines)) <==> Stops(line) || SomeStops(lines)
  {
    var all := Cons(line, lines);
    if line != "" {
      assert all[0] == line;
      assert forall i :: 0 <= i < |lines| ==> all[i + 1] == lines[i];
    }
  }

  /** A buffer settles exactly when there is no CR after its last LF, or one of the lines before that
      LF ends the connection. */
  lemma {:induction false} SettlesMeans(buffer: Bytes)
    ensures Settles(buffer) <==> CR !in Drain(buffer).rest || SomeStops(Drain(buffer).lines)
    decreases |buffer|
  {
    if LF in buffer {
      SettlesMeans(Remaining(buffer));
      SomeStopsCons(NextMessage(buffer), Drain(Remaining(buffer)).lines);
    }
  }

  /** A buffer with a CR and no LF: deserialize neither takes anything out nor reports anything, and
      canDeserialize still asks for another turn. */
  lemma LoneCrSpins(link: Link)
    requires link.status == Open && LF !in link.buffer && CR in link.buffer
    ensures !Halted(link) && Turn(link) == link
  {
    assert link.buffer[0..] == link.buffer;
    assert Trimmed("") == "";
  }

  lemma TurnWithLf(link: Link)
    requires link.status == Open && LF in link.buffer
    ensures !Halted(link) && |Turn(link).buffer| < |link.buffer|
    ensures Turn(link).status == Open ==> (Settles(link.buffer) <==> Settles(Turn(link).buffer))
    ensures Turn(link).status != Open ==> Settles(link.buffer) && Halted(Turn(link))
  {
    var line := NextMessage(link.buffer);
    if line != "" {
      StopsMeans(line);
    }
    hide Stops, NextMessage, ParseLine;
  }

  ghost predicate EndsAfter(link: Link, n: nat) {
    Halted(Turns(link, n))
  }

  lemma EndsOneLater(link: Link, n: nat)
    requires EndsAfter(Turn(link), n) && !Halted(link)
    ensures EndsAfter(link, n + 1)
  {
  }

  lemma EndsAtOnce(link: Link)
    requires Halted(link)
    ensures EndsAfter(link, 0)
  {
  }

  lemma SettledTurn(link: Link)
    requires link.status == Open && Settles(link.buffer) && !Halted(link)
    ensures |Turn(link).buffer| < |link.buffer|
    ensures Halted(Turn(link)) || (Turn(link).status == Open && Settles(Turn(link).buffer))
  {
    TurnWithLf(link);
    hide Turn;
  }

  lemma {:induction false} SettledLoopEnds(link: Link) returns (n: nat)
    requires Halted(link) || (link.status == Open && Settles(link.buffer))
    ensures EndsAfter(link, n)
    decreases |link.buffer|
  {
    hide Turn, Turns, EndsAfter, Settles, Halted;
    if Halted(link) {
      EndsAtOnce(link);
      n := 0;
    } else {
      SettledTurn(link);
      var k := SettledLoopEnds(Turn(link));
      EndsOneLater(link, k);
      n := k + 1;
    }
  }

  lemma UnsettledTurn(link: Link)
    requires link.status == Open && !Settles(link.buffer)
    ensures !Halted(link) && Turn(link).status == Open && !Settles(Turn(link).buffer)
  {
    if LF !in link.buffer {
      LoneCrSpins(link);
    } else {
      TurnWithLf(link);
    }
    hide Turn;
  }

  lemma {:induction false} UnsettledLoopGoesOn(link: Link, n: nat)
    requires link.status == Open && !Settles(link.buffer)
    ensures !EndsAfter(link, n)
    decreases n
  {
    hide Turn, Settles;
    UnsettledTurn(link);
    if n > 0 {
      UnsettledLoopGoesOn(Turn(link), n - 1);
    }
  }

  /** The receive loop ends on a buffer exactly when there is no CR after the last LF, or a line before
      it ends the connection. */
  lemma LoopEndsExactlyWhen(link: Link)
    requires link.status == Open
    ensures (exists n: nat :: EndsAfter(link, n)) <==>
            CR !in Tail(link.buffer) || SomeStops(NonBlank(Pieces(Complete(link.buffer))))
  {
    SettlesMeans(link.buffer);
    DrainIsSplit(link.buffer);
    if Settles(link.buffer) {
      var n := SettledLoopEnds(link);
      assert EndsAfter(link, n);
    } else {
      forall n: nat
        ensures !EndsAfter(link, n)
      {
        UnsettledLoopGoesOn(link, n);
      }
    }
  }

  // ----- the state the loop ends in

  /** The loop run to its end. */
  function Served(link: Link): Link
    requires link.status == Open ==> Settles(link.buffer)
    decreases if link.status == Open then 1 else 0, |link.buffer|
  {
    if Halted(link) then link
    else
      SettledTurn(link);
      hide Turn, Settles, Stops;
      Served(Turn(link))
  }

  /** The reading slot of the client, as it runs. */
  class RpcPeer {
    const serverBuffer: IrcSerializer.Buffer
    var calls: seq<Call>
    var status: Status

    ghost function State(): Link
      reads this, serverBuffer
    {
      Link(serverBuffer.data, calls, status)
    }

    constructor ()
      ensures State() == Link("", [], Open) && fresh(serverBuffer)
    {
      serverBuffer := new IrcSerializer.Buffer("");
      calls, status := [], Open;
    }

    /** Reads a chunk and handles every line that is complete.  The call returns exactly when the
        buffer settles (LoopEndsExactlyWhen). */
    method ServerData(chunk: Bytes)
      requires status == Open && Settles(serverBuffer.data + chunk)
      modifies this, serverBuffer
      ensures State() == Served(Link(old(serverBuffer.data) + chunk, old(calls), Open))
    {
      serverBuffer.data := serverBuffer.data + chunk;
      while CanDeserialize(serverBuffer.data)
        invariant status == Open && Settles(serverBuffer.data)
        invariant Served(State()) == Served(Link(old(serverBuffer.data) + chunk, old(calls), Open))
        decreases |serverBuffer.data|
      {
        ghost var before := State();
        TurnWithLf(before);
        var data := IrcSerializer.Deserialize(serverBuffer);
        if IsNoOp(data) {
          assert Turn(before) == State();
          continue;
        }
        if data.OutOfRange? {
          status := Crashed;
          assert Turn(before) == State();
          return;
        }
        if IsProtocolError(data) {
          status := Disconnected;
          assert Turn(before) == State();
          return;
        }
        calls := calls + [Call(data.command, FirstEight(data.params))];
        assert Turn(before) == State();
      }
    }
  }

  // ----- whole streams through the loop

  /** The dispatched call of a line that parses. */
  function CallOfLine(line: Bytes): Call {
    if line == "" || ParseLine(line).OutOfRange? then Call("", [])
    else Call(ParseLine(line).command, FirstEight(ParseLine(line).params))
  }

  function CallsOf(lines: seq<Bytes>): (r: seq<Call>)
    ensures |r| == |lines|
    ensures forall i :: 0 <= i < |lines| ==> r[i] == CallOfLine(lines[i])
  {
    if lines == [] then [] else [CallOfLine(lines[0])] + CallsOf(lines[1..])
  }

  lemma TurnOfLine(link: Link)
    requires link.status == Open && LF in link.buffer && !Stops(NextMessage(link.buffer))
    ensures Turn(link) == Link(Remaining(link.buffer),
                               if NextMessage(link.buffer) == "" then link.calls
                               else link.calls + [CallOfLine(NextMessage(link.buffer))], Open)
  {
    var line := NextMessage(link.buffer);
    if line != "" {
      StopsMeans(line);
    }
    hide ParseLine, Remaining, NextMessage, Stops;
  }

  lemma CallsOfCons(calls: seq<Call>, line: Bytes, lines: seq<Bytes>)
    ensures (if line == "" then calls else calls + [CallOfLine(line)]) + CallsOf(lines) == calls + CallsOf(Cons(line, lines))
  {
    hide CallOfLine;
    if line != "" {
      assert ([line] + lines)[1..] == lines;
      assert CallsOf([line] + lines) == [CallOfLine(line)] + CallsOf(lines);
    }
  }

  /** On a buffer whose lines all parse, the loop dispatches exactly the calls of the drained lines, in
      their order, and keeps the bytes after the last LF. */
  lemma {:induction false} ServedIsDrained(link: Link)
    requires link.status == Open && Settles(link.buffer) && !SomeStops(Drain(link.buffer).lines)
    ensures Served(link) == Link(Drain(link.buffer).rest, link.calls + CallsOf(Drain(link.buffer).lines), Open)
    decreases |link.buffer|
  {
    if LF !in link.buffer {
      ServedNothing(link);
    } else {
      var message, rest := NextMessage(link.buffer), Remaining(link.buffer);
      SomeStopsCons(message, Drain(rest).lines);
      TurnOfLine(link);
      hide Turn;
      ServedIsDrained(Turn(link));
      CallsOfCons(link.calls, message, Drain(rest).lines);
    }
  }

  lemma ServedNothing(link: Link)
    requires link.status == Open && Settles(link.buffer) && LF !in link.buffer
    ensures Served(link) == Link(Drain(link.buffer).rest, link.calls + CallsOf(Drain(link.buffer).lines), Open)
  {
    assert Drain(link.buffer) == Drained([], link.buffer);
    assert link.calls + [] == link.calls;
  }

  // ----- a line that ends the connection

  lemma CutIs(head: Bytes, c: char, next: Bytes)
    requires NoEol(head) && IsEol(c) && (c == LF || LF in next)
    ensures LF in head + [c] + next
    ensures NextMessage(head + [c] + next) == Trimmed(head) && Remaining(head + [c] + next) == next
  {
    var data := head + [c] + next;
    EndPosCut(head, c, next);
    hide EndPos, Trimmed;
    assert data[|head|] == c;
    assert data[..|head|] == head && data[|head| + 1..] == next;
  }

  lemma TurnStops(link: Link)
    requires link.status == Open && LF in link.buffer && Stops(NextMessage(link.buffer))
    ensures Settles(link.buffer)
    ensures Served(link) == Link(Remaining(link.buffer), link.calls,
                                 if RunsOut(NextMessage(link.buffer)) then Crashed else Disconnected)
  {
    var line := NextMessage(link.buffer);
    assert line != "";
    StopsMeans(line);
    RunsOutExactly(line);
    hide Stops, NextMessage, Remaining, ParseLine, RunsOut;
    assert Halted(Turn(link));
  }

  lemma ServedAfterTurn(link: Link)
    requires link.status == Open && LF in link.buffer && !Stops(NextMessage(link.buffer)) && Settles(Remaining(link.buffer))
    ensures Settles(link.buffer)
    ensures var line := NextMessage(link.buffer);
      Served(link) == Served(Link(Remaining(link.buffer),
                                  if line == "" then link.calls else link.calls + [CallOfLine(line)], Open))
  {
    TurnOfLine(link);
    hide Turn, Stops, NextMessage, Remaining, CallOfLine;
    assert !Halted(link);
  }

  /** The cut-off part of a buffer: pieces that end at line ends, of which the last holds the given line. */
  ghost predicate CutOff(front: Bytes, lines: seq<Bytes>) {
    && lines != [] && NonBlank(Pieces(front)) == lines
    && Pieces(front) != [] && Trimmed(Pieces(front)[|Pieces(front)| - 1]) == lines[|lines| - 1]
    && front != "" && IsEol(front[|front| - 1])
  }

  lemma CutOffOne(head: Bytes, c: char)
    requires NoEol(head) && IsEol(c) && Trimmed(head) != ""
    ensures CutOff(head + [c], [Trimmed(head)])
  {
    PiecesCut(head, c, "");
    assert head + [c] + "" == head + [c];
    assert Pieces("") == [] && [head] + [] == [head];
    NonBlankCons(head, []);
    hide Pieces, Trimmed;
  }

  lemma LastOfPieces(head: Bytes, pieces: seq<Bytes>)
    requires pieces != []
    ensures ([head] + pieces)[|[head] + pieces| - 1] == pieces[|pieces| - 1]
  {
  }

  lemma ConsNotEmpty(line: Bytes, lines: seq<Bytes>)
    requires lines != []
    ensures Cons(line, lines) != [] && Cons(line, lines)[|Cons(line, lines)| - 1] == lines[|lines| - 1]
  {
  }

  lemma CutOffMore(head: Bytes, c: char, front: Bytes, lines: seq<Bytes>)
    requires NoEol(head) && IsEol(c) && CutOff(front, lines)
    ensures CutOff(head + [c] + front, Cons(Trimmed(head), lines))
  {
    PiecesCut(head, c, front);
    LastByte(head + [c], front);
    hide Pieces, Trimmed, NonBlank, Cons;
    NonBlankCons(head, Pieces(front));
    LastOfPieces(head, Pieces(front));
    ConsNotEmpty(Trimmed(head), lines);
  }

  /** Line k is the first of the lines that ends the connection. */
  predicate FirstStop(lines: seq<Bytes>, k: nat) {
    k < |lines| && Stops(lines[k]) && forall i :: 0 <= i < k ==> !Stops(lines[i])
  }

  lemma FirstStopAfter(line: Bytes, lines: seq<Bytes>, k: nat)
    requires FirstStop(Cons(line, lines), k) && !Stops(line)
    ensures var j := if line == "" then k else k - 1; j >= 0 && FirstStop(lines, j)
  {
    hide Stops;
    if line != "" {
      var all := [line] + lines;
      assert Cons(line, lines) == all && all[0] == line && k > 0 && all[k] == lines[k - 1];
      forall i | 0 <= i < k - 1
        ensures !Stops(lines[i])
      {
        assert all[i + 1] == lines[i];
      }
    }
  }

  lemma FirstStopAtOnce(line: Bytes, lines: seq<Bytes>, k: nat)
    requires FirstStop(Cons(line, lines), k) && Stops(line)
    ensures line != "" && k == 0 && Cons(line, lines)[..k] == [] && Cons(line, lines)[..k + 1] == [line]
    ensures Cons(line, lines)[k] == line && CallsOf([]) == []
  {
    assert Cons(line, lines)[0] == line;
    hide Stops;
  }

  /** The loop has dispatched the calls of the lines before line k and no other; the connection is lost when
      line k runs out of parameters and closed when its command is empty; and the buffer is what follows
      line k. */
  ghost predicate StoppedAt(link: Link, lines: seq<Bytes>, k: nat, front: Bytes) {
    && k < |lines| && (link.status == Open ==> Settles(link.buffer))
    && Served(link).calls == link.calls + CallsOf(lines[..k])
    && Served(link).status == (if RunsOut(lines[k]) then Crashed else Disconnected)
    && link.buffer == front + Served(link).buffer && CutOff(front, lines[..k + 1])
  }

  lemma StopsHere(link: Link, head: Bytes, c: char, next: Bytes, lines: seq<Bytes>, k: nat)
    requires link.status == Open && link.buffer == head + [c] + next
    requires NoEol(head) && IsEol(c) && (c == LF || LF in next)
    requires FirstStop(Cons(Trimmed(head), lines), k) && Stops(Trimmed(head))
    ensures StoppedAt(link, Cons(Trimmed(head), lines), k, head + [c])
  {
    CutIs(head, c, next);
    hide Stops, RunsOut, Served, Settles, CutOff, CallsOf, FirstStop, Trimmed, NextMessage, Remaining, Cons, NoEol;
    TurnStops(link);
    FirstStopAtOnce(Trimmed(head), lines, k);
    CutOffOne(head, c);
    assert link.calls + [] == link.calls;
  }

  lemma StopsLater(link: Link, head: Bytes, c: char, next: Bytes, lines: seq<Bytes>, j: nat, rest: Bytes)
    requires link.status == Open && link.buffer == head + [c] + next
    requires NoEol(head) && IsEol(c) && (c == LF || LF in next) && !Stops(Trimmed(head)) && j < |lines|
    requires var line := Trimmed(head);
      var after := Link(next, if line == "" then link.calls else link.calls + [CallOfLine(line)], Open);
      StoppedAt(after, lines, j, rest)
    ensures var line := Trimmed(head);
      StoppedAt(link, Cons(line, lines), if line == "" then j else j + 1, head + [c] + rest)
  {
    var line := Trimmed(head);
    var after := Link(next, if line == "" then link.calls else link.calls + [CallOfLine(line)], Open);
    CutIs(head, c, next);
    hide Stops, RunsOut, Served, Settles, CutOff, CallsOf, CallOfLine, Trimmed, NextMessage, Remaining, NoEol;
    ServedAfterTurn(link);
    CutOffMore(head, c, rest, lines[..j + 1]);
    CallsOfCons(link.calls, line, lines[..j]);
    Assoc(head + [c], rest, Served(after).buffer);
    ConsPrefix(line, lines, j);
  }

  lemma ConsPrefix(line: Bytes, lines: seq<Bytes>, j: nat)
    requires j < |lines|
    ensures var k := if line == "" then j else j + 1;
      && k < |Cons(line, lines)| && Cons(line, lines)[k] == lines[j]
      && Cons(line, lines[..j]) == Cons(line, lines)[..k] && Cons(line, lines[..j + 1]) == Cons(line, lines)[..k + 1]
  {
  }

  lemma CutDrained(buffer: Bytes) returns (head: Bytes, c: char, next: Bytes)
    requires Drain(buffer).lines != []
    ensures buffer == head + [c] + next && NoEol(head) && IsEol(c) && (c == LF || LF in next)
    ensures Drain(buffer).lines == Cons(Trimmed(head), Drain(next).lines)
  {
    EolBeforeLf(buffer);
    head, c, next := CutAtEol(buffer);
    DrainCut(head, c, next);
    hide Drain, Trimmed;
  }

  /** The loop stops at the first line that ends the connection. */
  lemma {:induction false} ServedStops(link: Link, k: nat) returns (front: Bytes)
    requires link.status == Open && FirstStop(Drain(link.buffer).lines, k)
    ensures Settles(link.buffer) && StoppedAt(link, Drain(link.buffer).lines, k, front)
    decreases |link.buffer|
  {
    hide *;
    FirstStopInRange(Drain(link.buffer).lines, k);
    var head, c, next := CutDrained(link.buffer);
    var line, lines := Trimmed(head), Drain(next).lines;
    if Stops(line) {
      StopsHere(link, head, c, next, lines, k);
      front := head + [c];
    } else {
      FirstStopAfter(line, lines, k);
      var j := if line == "" then k else k - 1;
      var rest := ServedStops(Link(next, if line == "" then link.calls else link.calls + [CallOfLine(line)], Open), j);
      FirstStopInRange(lines, j);
      StopsLater(link, head, c, next, lines, j, rest);
      front := head + [c] + rest;
    }
    StoppedSettles(link, Drain(link.buffer).lines, k, front);
  }

  lemma FirstStopInRange(lines: seq<Bytes>, k: nat)
    requires FirstStop(lines, k)
    ensures k < |lines|
  {
  }

  lemma StoppedSettles(link: Link, lines: seq<Bytes>, k: nat, front: Bytes)
    requires StoppedAt(link, lines, k, front) && link.status == Open
    ensures Settles(link.buffer)
  {
    hide Served, Settles, CutOff, RunsOut, CallsOf;
  }

  /** An empty command is no line that runs out of parameters. */
  lemma EmptyCommandEnds(line: Bytes)
    requires EmptyCommand(line)
    ensures Stops(line) && !RunsOut(line)
  {
    ProtocolErrorExactly(line);
    RunsOutExactly(line);
    hide EmptyCommand, RunsOut, ParseLine;
  }

  // ----- clean streams

  /** Every CR is followed by an LF. */
  predicate CrLfOnly(s: Bytes) {
    forall i :: 0 <= i < |s| && s[i] == CR ==> i + 1 < |s| && s[i + 1] == LF
  }

  predicate EndsInCr(s: Bytes) {
    s != "" && s[|s| - 1] == CR
  }

  /** No chunk ends between a CR and its LF. */
  predicate WholeLineEnds(before: Bytes, chunks: seq<Bytes>)
    decreases |chunks|
  {
    chunks == [] || (!EndsInCr(before + chunks[0]) && WholeLineEnds(before + chunks[0], chunks[1..]))
  }

  /** Chunks handed to serverData one by one, for as long as the connection is open. */
  function Run(link: Link, chunks: seq<Bytes>): Link
    requires Responsive(link, chunks)
    decreases |chunks|
  {
    if chunks == [] || link.status != Open then link else Run(Receive(link, chunks[0]), chunks[1..])
  }

  function Receive(link: Link, chunk: Bytes): Link
    requires link.status == Open && Settles(link.buffer + chunk)
  {
    Served(link.(buffer := link.buffer + chunk))
  }

  /** Every call of serverData returns. */
  predicate Responsive(link: Link, chunks: seq<Bytes>)
    decreases |chunks|
  {
    chunks == [] || link.status != Open
    || (Settles(link.buffer + chunks[0]) && Responsive(Receive(link, chunks[0]), chunks[1..]))
  }

  lemma CrAfterLastLf(front: Bytes, back: Bytes, i: nat)
    requires CrLfOnly(front + back)
    requires LastLf(front) < i < |front| && front[i] == CR
    ensures i == |front| - 1
  {
    FrontAt(front, back, i);
    FrontAt(front, back, i + 1);
    hide LastLf;
  }

  lemma CrInTailAt(front: Bytes) returns (i: nat)
    requires CR in Tail(front)
    ensures LastLf(front) < i < |front| && front[i] == CR
  {
    hide LastLf;
    var k :| 0 <= k < |Tail(front)| && Tail(front)[k] == CR;
    i := LastLf(front) + 1 + k;
  }

  lemma FinalCrInTail(front: Bytes)
    requires EndsInCr(front)
    ensures CR in Tail(front)
  {
    hide LastLf;
    assert Tail(front)[|Tail(front)| - 1] == CR;
  }

  /** In a prefix of a stream whose CRs all belong to a CR LF, the bytes after the last LF hold a CR
      only when the prefix ends in one. */
  lemma CrInTail(front: Bytes, back: Bytes)
    requires CrLfOnly(front + back)
    ensures CR in Tail(front) <==> EndsInCr(front)
  {
    hide CrLfOnly, LastLf, Tail;
    if CR in Tail(front) {
      var i := CrInTailAt(front);
      CrAfterLastLf(front, back, i);
    }
    if EndsInCr(front) {
      FinalCrInTail(front);
    }
  }

  lemma SomeStopsAppend(a: seq<Bytes>, b: seq<Bytes>)
    requires !SomeStops(a + b)
    ensures !SomeStops(a) && !SomeStops(b)
  {
    hide Stops;
    assert forall i :: 0 <= i < |a| ==> (a + b)[i] == a[i];
    assert forall i :: 0 <= i < |b| ==> (a + b)[|a| + i] == b[i];
  }

  /** The lines of a prefix of a stream are among the lines of the stream. */
  lemma PrefixStopsNothing(front: Bytes, back: Bytes)
    requires !SomeStops(Drain(front + back).lines)
    ensures !SomeStops(Drain(front).lines)
  {
    DrainAppend(front, back);
    hide Drain, Stops, SomeStops;
    SomeStopsAppend(Drain(front).lines, Drain(Drain(front).rest + back).lines);
  }

  /** The state of a connection that has read `front` and whose lines all parsed. */
  ghost predicate HasRead(link: Link, front: Bytes) {
    link == Link(Drain(front).rest, CallsOf(Drain(front).lines), Open)
  }

  /** One chunk of a clean stream: the call returns exactly when the chunk does not end inside a
      CR LF, and then everything up to there is handled. */
  lemma ReadChunk(link: Link, front: Bytes, chunk: Bytes, back: Bytes)
    requires HasRead(link, front)
    requires CrLfOnly(front + chunk + back) && !SomeStops(Drain(front + chunk + back).lines)
    ensures Settles(link.buffer + chunk) <==> !EndsInCr(front + chunk)
    ensures !EndsInCr(front + chunk) ==> HasRead(Receive(link, chunk), front + chunk)
  {
    var whole, part := front + chunk, link.buffer + chunk;
    PrefixStopsNothing(whole, back);
    CrInTail(whole, back);
    DrainIsSplit(whole);
    DrainAppend(front, chunk);
    var a, b := Drain(front).lines, Drain(part).lines;
    assert Drain(whole) == Drained(a + b, Drain(part).rest);
    SettlesMeans(part);
    SomeStopsAppend(a, b);
    if Settles(part) {
      ServedIsDrained(link.(buffer := part));
      CallsOfAppend(a, b);
    }
  }

  lemma CallsOfAppend(a: seq<Bytes>, b: seq<Bytes>)
    ensures CallsOf(a + b) == CallsOf(a) + CallsOf(b)
  {
    hide CallOfLine;
  }

  lemma {:induction false} RunReads(link: Link, front: Bytes, chunks: seq<Bytes>, stream: Bytes)
    requires HasRead(link, front) && stream == front + Flatten(chunks)
    requires CrLfOnly(stream) && !SomeStops(Drain(stream).lines)
    ensures Responsive(link, chunks) <==> WholeLineEnds(front, chunks)
    ensures Responsive(link, chunks) ==> HasRead(Run(link, chunks), stream)
    decreases |chunks|
  {
    if chunks == [] {
      assert front + "" == front;
    } else {
      var chunk, more := chunks[0], chunks[1..];
      Assoc(front, chunk, Flatten(more));
      ReadChunk(link, front, chunk, Flatten(more));
      hide CrLfOnly, SomeStops, Settles, Drain, EndsInCr, Served, Receive;
      if !EndsInCr(front + chunk) {
        RunReads(Receive(link, chunk), front + chunk, more, stream);
      }
    }
  }

  lemma LineCrLf(line: Bytes, rest: Bytes)
    requires NoEol(line) && CrLfOnly(rest)
    ensures CrLfOnly(line + "\r\n" + rest)
  {
    var s, n := line + "\r\n" + rest, |line| + 2;
    assert forall i :: 0 <= i < |line| ==> s[i] == line[i];
    assert s[n - 1] == LF;
    assert forall i :: 0 <= i < |rest| ==> s[n + i] == rest[i];
    forall i | 0 <= i < |s| && s[i] == CR
      ensures i + 1 < |s| && s[i + 1] == LF
    {
      assert i >= n - 2;
      if i >= n {
        assert rest[i - n] == CR;
      }
    }
  }

  lemma {:induction false} StreamCrLf(ms: seq<Message>)
    requires AllWellFormed(ms)
    ensures CrLfOnly(Stream(ms))
  {
    if ms != [] {
      SurvivingLine(ms[0]);
      StreamCrLf(ms[1..]);
      LineCrLf(Line(ms[0]), Stream(ms[1..]));
    }
  }

  function MessageCalls(ms: seq<Message>): seq<Call>
    requires AllWellFormed(ms)
  {
    seq(|ms|, i requires 0 <= i < |ms| => Call(ms[i].command, Args(ms[i])))
  }

  lemma PaddedArgs(m: Message)
    requires |m.params| <= 7
    ensures FirstEight([Sender(m.sender)] + Texts(m.params)) == Args(m)
  {
  }

  lemma CallOfMessageLine(m: Message)
    requires WellFormed(m)
    ensures Line(m) != "" && !Stops(Line(m))
    ensures CallOfLine(Line(m)) == Call(m.command, Args(m))
  {
    assert m.command != "";
    SurvivingLine(m);
    StopsMeans(Line(m));
    PaddedArgs(m);
    hide Line, ParseLine, FirstEight, Args, WellFormed, Stops;
  }

  lemma CallsOfMessages(ms: seq<Message>)
    requires AllWellFormed(ms)
    ensures !SomeStops(LinesOf(ms)) && CallsOf(LinesOf(ms)) == MessageCalls(ms)
  {
    hide Line, Stops, CallOfLine, PlainCommand, PlainName, FitParams, ParamsWithoutEol, EndsInSpace, NotPlainPrivmsg;
    forall i | 0 <= i < |ms|
      ensures !Stops(Line(ms[i])) && CallOfLine(Line(ms[i])) == Call(ms[i].command, Args(ms[i]))
    {
      CallOfMessageLine(ms[i]);
    }
  }

  const START := Link("", [], Open)

  /** A run of messages sent by serialize and received in arbitrary chunks: every call of serverData
      returns exactly when no chunk ends between a CR and its LF, and then each message has been
      dispatched once, in order, with the eight arguments it was sent with, and nothing is left. */
  lemma MessagesAreDelivered(ms: seq<Message>, chunks: seq<Bytes>)
    requires AllWellFormed(ms) && Flatten(chunks) == Stream(ms)
    ensures Responsive(START, chunks) <==> WholeLineEnds("", chunks)
    ensures Responsive(START, chunks) ==> Run(START, chunks) == Link("", MessageCalls(ms), Open)
  {
    hide Drain, SomeStops, CrLfOnly, Responsive, WholeLineEnds, Run, Stream, WellFormed, CallsOf, MessageCalls;
    DrainStream(ms);
    StreamCrLf(ms);
    CallsOfMessages(ms);
    assert "" + Flatten(chunks) == Flatten(chunks);
    StartHasRead();
    RunReads(START, "", chunks, Stream(ms));
  }

  lemma StartHasRead()
    ensures HasRead(START, "")
  {
  }
}
