/**
 How the codec cuts lines out of the receive buffer (examples/ircpeer/ircpeer.cpp), and what draining a
 buffer amounts to, however the bytes arrive.
 */
module IrcFraming {
  import opened ByteArray
  import opened IrcLine

  // ----- one cut, as deserialize makes it

  /** The position deserialize cuts at; -1 when there is no LF, whether or not there is a CR. */
  function EndPos(data: Bytes): (e: int)
    ensures -1 <= e < |data|
    ensures e == -1 <==> LF !in data
  {
    var lf, cr := IndexOf(data, LF), IndexOf(data, CR);
    if cr == -1 || lf < cr then lf else cr
  }

  function NextMessage(data: Bytes): Bytes {
    Trimmed(Left(data, EndPos(data)))
  }

  function Remaining(data: Bytes): Bytes {
    data[EndPos(data) + 1..]
  }

  function Deserialized(data: Bytes): Outcome {
    if NextMessage(data) == "" then NO_OP else ParseLine(NextMessage(data))
  }

  predicate CanDeserialize(buffer: Bytes) {
    IndexOf(buffer, LF) != -1 || IndexOf(buffer, CR) != -1
  }

  // ----- the reference: pieces between line ends, and the bytes after the last LF

  predicate IsEol(c: char) {
    c == CR || c == LF
  }

  predicate NoEol(s: Bytes) {
    CR !in s && LF !in s
  }

  function LastLf(s: Bytes): (i: int)
    ensures -1 <= i < |s|
    ensures i >= 0 ==> s[i] == LF
    ensures forall j :: i < j < |s| ==> s[j] != LF
  {
    if s == "" then -1
    else if s[|s| - 1] == LF then |s| - 1
    else LastLf(s[..|s| - 1])
  }

  /** The part of a buffer that ends with its last LF, and what follows it. */
  function Complete(s: Bytes): Bytes {
    s[..LastLf(s) + 1]
  }

  function Tail(s: Bytes): Bytes {
    s[LastLf(s) + 1..]
  }

  function FirstEol(s: Bytes): (i: nat)
    ensures i <= |s|
    ensures i < |s| ==> IsEol(s[i])
    ensures forall j :: 0 <= j < i ==> !IsEol(s[j])
  {
    if s == "" || IsEol(s[0]) then 0 else 1 + FirstEol(s[1..])
  }

  /** The pieces that end at each CR and at each LF. */
  function Pieces(s: Bytes): seq<Bytes> {
    var i := FirstEol(s);
    if i == |s| then [] else [s[..i]] + Pieces(s[i + 1..])
  }

  /** A line put before others, unless it is blank. */
  function Cons(line: Bytes, lines: seq<Bytes>): seq<Bytes> {
    if line == "" then lines else [line] + lines
  }

  /** The pieces, trimmed, without the blank ones. */
  function NonBlank(pieces: seq<Bytes>): seq<Bytes> {
    if pieces == [] then [] else Cons(Trimmed(pieces[0]), NonBlank(pieces[1..]))
  }

  // ----- draining

  datatype Drained = Drained(lines: seq<Bytes>, rest: Bytes)

  /** Cuts made for as long as there is an LF; the lines are those handed to ParseLine. */
  function Drain(data: Bytes): Drained
    decreases |data|
  {
    if LF !in data then Drained([], data)
    else
      var d := Drain(Remaining(data));
      Drained(Cons(NextMessage(data), d.lines), d.rest)
  }

  // One cut, seen from the bytes: everything before the first line end, that line end, and the rest.

  /** Where there is an LF, deserialize cuts at the first CR or LF. */
  lemma EndPosCut(head: Bytes, c: char, next: Bytes)
    requires NoEol(head) && IsEol(c) && (c == LF || LF in next)
    ensures EndPos(head + [c] + next) == |head|
  {
    var data := head + [c] + next;
    IndexOfIn(head, c, next);
    if c == CR {
      assert LF !in head + [c];
      IndexOfInSecond(head + [c], next, LF);
    } else if CR in next {
      assert CR !in head + [c];
      IndexOfInSecond(head + [c], next, CR);
    } else {
      assert CR !in data;
    }
  }

  lemma FirstEolCut(head: Bytes, c: char, next: Bytes)
    requires NoEol(head) && IsEol(c)
    ensures FirstEol(head + [c] + next) == |head|
  {
    var data := head + [c] + next;
    assert IsEol(data[|head|]);
    assert forall j :: 0 <= j < |head| ==> data[j] in head;
  }

  lemma CutAtEol(data: Bytes) returns (head: Bytes, c: char, next: Bytes)
    requires FirstEol(data) < |data|
    ensures data == head + [c] + next && NoEol(head) && IsEol(c)
    ensures |head| == FirstEol(data)
  {
    var i := FirstEol(data);
    head, c, next := data[..i], data[i], data[i + 1..];
    assert forall j :: 0 <= j < i ==> !IsEol(head[j]);
  }

  lemma PiecesCut(head: Bytes, c: char, next: Bytes)
    requires NoEol(head) && IsEol(c)
    ensures Pieces(head + [c] + next) == [head] + Pieces(next)
  {
    var data := head + [c] + next;
    FirstEolCut(head, c, next);
    assert data[..|head|] == head;
    assert data[|head| + 1..] == next;
  }

  lemma {:induction false} LastLfAppend(a: Bytes, b: Bytes)
    ensures LastLf(a + b) == if LastLf(b) == -1 then LastLf(a) else |a| + LastLf(b)
    decreases |b|
  {
    if b == "" {
      assert a + b == a;
    } else {
      var front, n := b[..|b| - 1], |a + b| - 1;
      LastLfAppend(a, front);
      assert (a + b)[..n] == a + front;
      assert (a + b)[n] == b[|b| - 1];
    }
  }

  lemma LastLfCut(head: Bytes, c: char, next: Bytes)
    requires NoEol(head) && IsEol(c) && (c == LF || LF in next)
    ensures LastLf(head + [c] + next) == |head| + 1 + LastLf(next)
  {
    LastLfAppend(head + [c], next);
  }

  lemma CompleteCut(head: Bytes, c: char, next: Bytes)
    requires NoEol(head) && IsEol(c) && (c == LF || LF in next)
    ensures Complete(head + [c] + next) == head + [c] + Complete(next)
    ensures Tail(head + [c] + next) == Tail(next)
  {
    LastLfCut(head, c, next);
    hide LastLf;
    SliceAppend(head + [c], next, LastLf(next) + 1);
  }

  lemma SliceAppend(a: Bytes, b: Bytes, n: nat)
    requires n <= |b|
    ensures (a + b)[..|a| + n] == a + b[..n]
    ensures (a + b)[|a| + n..] == b[n..]
  {
  }

  lemma DrainCut(head: Bytes, c: char, next: Bytes)
    requires NoEol(head) && IsEol(c) && (c == LF || LF in next)
    ensures Drain(head + [c] + next) == Drained(Cons(Trimmed(head), Drain(next).lines), Drain(next).rest)
  {
    var data := head + [c] + next;
    EndPosCut(head, c, next);
    assert data[..|head|] == head;
    assert data[|head| + 1..] == next;
  }

  lemma NonBlankCons(piece: Bytes, pieces: seq<Bytes>)
    ensures NonBlank([piece] + pieces) == Cons(Trimmed(piece), NonBlank(pieces))
  {
    assert ([piece] + pieces)[1..] == pieces;
  }

  lemma EolBeforeLf(data: Bytes)
    requires LF in data
    ensures FirstEol(data) < |data|
  {
    var k :| 0 <= k < |data| && data[k] == LF;
    assert IsEol(data[k]);
  }

  /** Draining processes exactly the non-blank trimmed pieces of the part up to the last LF, split at
      every CR and LF, and leaves exactly the bytes after the last LF. */
  lemma {:induction false} DrainIsSplit(data: Bytes)
    ensures Drain(data) == Drained(NonBlank(Pieces(Complete(data))), Tail(data))
    decreases |data|
  {
    if LF !in data {
      assert LastLf(data) == -1;
      assert Complete(data) == "";
      assert Tail(data) == data;
    } else {
      EolBeforeLf(data);
      var head, c, next := CutAtEol(data);
      DrainIsSplit(next);
      DrainCut(head, c, next);
      CompleteCut(head, c, next);
      PiecesCut(head, c, Complete(next));
      NonBlankCons(head, Pieces(Complete(next)));
    }
  }

  /** Draining in two instalments. */
  function DrainMore(d: Drained, more: Bytes): Drained {
    var e := Drain(d.rest + more);
    Drained(d.lines + e.lines, e.rest)
  }

  lemma DrainMoreCons(line: Bytes, d: Drained, more: Bytes)
    ensures DrainMore(Drained(Cons(line, d.lines), d.rest), more)
         == Drained(Cons(line, DrainMore(d, more).lines), DrainMore(d, more).rest)
  {
    hide Drain;
    var e := Drain(d.rest + more);
    assert [line] + d.lines + e.lines == [line] + (d.lines + e.lines);
  }

  lemma DrainAppendCut(head: Bytes, c: char, next: Bytes, b: Bytes)
    requires NoEol(head) && IsEol(c) && (c == LF || LF in next)
    requires Drain(next + b) == DrainMore(Drain(next), b)
    ensures Drain(head + [c] + (next + b)) == DrainMore(Drain(head + [c] + next), b)
  {
    DrainCut(head, c, next);
    DrainCut(head, c, next + b);
    DrainMoreCons(Trimmed(head), Drain(next), b);
  }

  lemma DrainWithoutLf(a: Bytes, b: Bytes)
    requires LF !in a
    ensures Drain(a) == Drained([], a)
    ensures Drain(a + b) == DrainMore(Drain(a), b)
  {
    var d := Drain(a + b);
    assert [] + d.lines == d.lines;
  }

  /** Draining a, then what that left together with b, is draining a ++ b. */
  lemma {:induction false} DrainAppend(a: Bytes, b: Bytes)
    ensures Drain(a + b) == DrainMore(Drain(a), b)
    decreases |a|
  {
    if LF in a {
      EolBeforeLf(a);
      var head, c, next := CutAtEol(a);
      assert a + b == head + [c] + (next + b);
      DrainAppend(next, b);
      DrainAppendCut(head, c, next, b);
    } else {
      DrainWithoutLf(a, b);
    }
  }

  /** Chunks read one after the other, each appended to what was left and drained. */
  function Feed(rest: Bytes, chunks: seq<Bytes>): Drained
    decreases |chunks|
  {
    if chunks == [] then Drained([], rest)
    else
      var d := Drain(rest + chunks[0]);
      var f := Feed(d.rest, chunks[1..]);
      Drained(d.lines + f.lines, f.rest)
  }

  lemma DrainLeavesNoLf(data: Bytes)
    ensures LF !in Drain(data).rest
  {
    DrainIsSplit(data);
  }

  lemma FeedCons(rest: Bytes, chunk: Bytes, chunks: seq<Bytes>)
    ensures var d := Drain(rest + chunk);
      Feed(rest, [chunk] + chunks) == Drained(d.lines + Feed(d.rest, chunks).lines, Feed(d.rest, chunks).rest)
  {
    assert ([chunk] + chunks)[1..] == chunks;
  }

  lemma FeedNothing(rest: Bytes)
    requires LF !in rest
    ensures Feed(rest, []) == Drain(rest + Flatten([]))
  {
    assert rest + "" == rest;
    DrainWithoutLf(rest, "");
  }

  lemma FeedOne(rest: Bytes, chunk: Bytes, chunks: seq<Bytes>)
    requires Feed(Drain(rest + chunk).rest, chunks) == Drain(Drain(rest + chunk).rest + Flatten(chunks))
    ensures Feed(rest, [chunk] + chunks) == Drain(rest + chunk + Flatten(chunks))
  {
    FeedCons(rest, chunk, chunks);
    DrainAppend(rest + chunk, Flatten(chunks));
  }

  /** However a stream is cut into chunks, the lines and the rest are those of the whole stream. */
  lemma {:induction false} ChunkIndependence(rest: Bytes, chunks: seq<Bytes>)
    requires LF !in rest
    ensures Feed(rest, chunks) == Drain(rest + Flatten(chunks))
    decreases |chunks|
  {
    if chunks == [] {
      FeedNothing(rest);
    } else {
      var first, more := chunks[0], chunks[1..];
      assert chunks == [first] + more;
      assert rest + Flatten(chunks) == rest + first + Flatten(more);
      DrainLeavesNoLf(rest + first);
      ChunkIndependence(Drain(rest + first).rest, more);
      FeedOne(rest, first, more);
    }
  }
}
