/**
 The parameters a line is scanned into, and which of the parameters that are sent arrive
 (examples/ircpeer/ircpeer.cpp).
 */
module IrcParams {
  import opened ByteArray
  import opened IrcLine
  import opened IrcFraming
  import opened IrcRoundTrip

  // ----- the shape of scanned parameters

  /** Scanned parameters before the last are words; the last may also be a trailing text, even an empty
      one. */
  predicate ScanShape(args: seq<Bytes>) {
    forall i :: 0 <= i < |args| - 1 ==> args[i] != "" && !NeedsColon(args[i])
  }

  lemma ScanShapeCons(word: Bytes, args: seq<Bytes>)
    requires word != "" && !NeedsColon(word) && ScanShape(args)
    ensures ScanShape([word] + args)
  {
  }

  lemma {:induction false} ScanHasShape(s: Bytes)
    ensures ScanShape(ScanParams(s))
    decreases |s|
  {
    if s != "" && s[0] == ' ' {
      ScanHasShape(s[1..]);
    } else if s != "" && s[0] != ':' && ' ' in s {
      var word, rest := CutAt(s, ' ');
      ScanHasShape(rest);
      ScanCut(word, rest);
      hide ScanParams;
      ScanShapeCons(word, ScanParams(rest));
    }
  }

  lemma LastOfArgs(a: seq<Bytes>, b: seq<Bytes>)
    requires b != []
    ensures a + b != [] && (a + b)[|a + b| - 1] == b[|b| - 1]
  {
  }

  /** The last parameter ends where the bytes end. */
  lemma {:induction false} ScanEnd(s: Bytes)
    requires s != "" && !IsSpace(s[|s| - 1])
    ensures ScanParams(s) != [] && !EndsInSpace(ScanParams(s)[|ScanParams(s)| - 1])
    decreases |s|
  {
    if s[0] == ' ' {
      ScanEnd(s[1..]);
    } else if s[0] != ':' && ' ' in s {
      var word, rest := CutAt(s, ' ');
      assert rest != "";
      LastByte(word + [' '], rest);
      ScanEnd(rest);
      ScanCut(word, rest);
      hide ScanParams;
      LastOfArgs([word], ScanParams(rest));
    }
  }

  function Spaces(s: Bytes): nat {
    if s == "" then 0 else (if s[0] == ' ' then 1 else 0) + Spaces(s[1..])
  }

  lemma {:induction false} SpacesConcat(a: Bytes, b: Bytes)
    ensures Spaces(a + b) == Spaces(a) + Spaces(b)
  {
    if a == "" {
      assert a + b == b;
    } else {
      DropFirst(a, b);
      SpacesConcat(a[1..], b);
    }
  }

  lemma {:induction false} NoSpaces(s: Bytes)
    requires ' ' !in s
    ensures Spaces(s) == 0
  {
    if s != "" {
      NoSpaces(s[1..]);
    }
  }

  /** There are no more parameters than spaces before them. */
  lemma {:induction false} ScanCount(s: Bytes)
    ensures |ScanParams(s)| <= Spaces(s) + (if s == "" || s[0] == ' ' then 0 else 1)
    decreases |s|
  {
    if s != "" && s[0] == ' ' {
      ScanCount(s[1..]);
    } else if s != "" && s[0] != ':' && ' ' in s {
      var word, rest := CutAt(s, ' ');
      ScanCount(rest);
      ScanCut(word, rest);
      SpacesOfCut(word, rest);
    }
  }

  lemma SpacesOfCut(word: Bytes, rest: Bytes)
    ensures Spaces(word + [' '] + rest) >= 1 + Spaces(rest)
  {
    SpacesConcat(word + [' '], rest);
    SpacesConcat(word, [' ']);
  }

  // ----- trimming the end of a line

  lemma {:induction false} TrimRightConcat(a: Bytes, b: Bytes)
    ensures TrimRight(a + b) == if TrimRight(b) != "" then a + TrimRight(b) else TrimRight(a)
    decreases |b|
  {
    if b == "" {
      assert a + b == a;
    } else {
      LastByte(a, b);
      if IsSpace(b[|b| - 1]) {
        DropLastOf(a, b);
        TrimRightConcat(a, b[..|b| - 1]);
      }
    }
  }

  lemma DropLastOf(a: Bytes, b: Bytes)
    requires b != ""
    ensures (a + b)[..|a + b| - 1] == a + b[..|b| - 1]
  {
  }

  lemma TrimRightOfSpace(s: Bytes)
    ensures TrimRight(s + [' ']) == TrimRight(s)
  {
    assert (s + [' '])[..|s|] == s;
  }

  lemma TrimRightSpaces(s: Bytes)
    ensures Spaces(TrimRight(s)) <= Spaces(s)
  {
    var gap := TrimRightCut(s);
    SpacesConcat(TrimRight(s), gap);
  }

  lemma TrimRightStart(s: Bytes)
    requires TrimRight(s) != ""
    ensures s != "" && TrimRight(s)[0] == s[0]
  {
    var gap := TrimRightCut(s);
    hide TrimRight;
    DropFirst(TrimRight(s), gap);
  }

  // ----- parameters on the wire

  /** The parameters that arrive when these are sent. */
  function Arriving(ps: seq<Bytes>): seq<Bytes> {
    ScanParams(TrimRight(ParamBytes(ps)))
  }

  lemma {:induction false} EmptyLastParam(ps: seq<Bytes>) returns (front: Bytes)
    requires ps != [] && ScanShape(ps) && ps[|ps| - 1] == ""
    ensures ParamBytes(ps) == front + [' '] && Spaces(front) == |ps| - 1
  {
    if |ps| == 1 {
      front := "";
      assert ParamBytes(ps) == [' '] + ps[0] + ParamBytes(ps[1..]);
    } else {
      var rest := EmptyLastParam(ps[1..]);
      front := [' '] + ps[0] + rest;
      Assoc([' '] + ps[0], rest, [' ']);
      SpacesConcat([' '] + ps[0], rest);
      SpacesConcat([' '], ps[0]);
      NoSpaces(ps[0]);
    }
  }

  lemma EmptyLastIsLost(ps: seq<Bytes>)
    requires ps != [] && ScanShape(ps) && ps[|ps| - 1] == ""
    ensures |Arriving(ps)| < |ps|
  {
    var front := EmptyLastParam(ps);
    TrimRightOfSpace(front);
    TrimRightSpaces(front);
    ScanCount(TrimRight(front));
    if TrimRight(front) != "" {
      TrimRightStart(front);
      ParamBytesStart(ps);
      assert front[0] == ParamBytes(ps)[0];
    }
  }

  lemma ParamBytesStart(ps: seq<Bytes>)
    requires ps != []
    ensures ParamBytes(ps) != "" && ParamBytes(ps)[0] == ' '
  {
  }

  lemma FitParamsArrive(ps: seq<Bytes>)
    requires FitParams(ps) && (ps != [] ==> !EndsInSpace(ps[|ps| - 1]))
    ensures Arriving(ps) == ps
  {
    ScanParamBytes(ps);
    if ps != [] {
      ParamBytesEnd(ps);
    }
    hide ScanParams;
  }

  /** Parameters arrive as they were sent exactly when none is empty, none but the last contains a space
      or starts with ':', and the last does not end in white space. */
  lemma ArrivingExactly(ps: seq<Bytes>)
    ensures Arriving(ps) == ps <==> FitParams(ps) && (ps != [] ==> !EndsInSpace(ps[|ps| - 1]))
  {
    if FitParams(ps) && (ps != [] ==> !EndsInSpace(ps[|ps| - 1])) {
      FitParamsArrive(ps);
    }
    if Arriving(ps) == ps && ps != [] {
      var s := TrimRight(ParamBytes(ps));
      var gap := TrimRightCut(ParamBytes(ps));
      ScanHasShape(s);
      if s != "" {
        ScanEnd(s);
      }
      if ps[|ps| - 1] == "" {
        EmptyLastIsLost(ps);
      }
    }
  }

  // ----- bytes and sizes

  lemma ScanKeeps(s: Bytes, c: char)
    requires c !in s
    ensures forall i :: 0 <= i < |ScanParams(s)| ==> c !in ScanParams(s)[i]
    decreases |s|
  {
    if s != "" && s[0] == ' ' {
      ScanKeeps(s[1..], c);
    } else if s != "" && s[0] != ':' && ' ' in s {
      var word, rest := CutAt(s, ' ');
      ScanKeeps(rest, c);
      ScanCut(word, rest);
      hide ScanParams;
    }
  }

  /** The bytes of parameters, each with a space. */
  function Size(ps: seq<Bytes>): nat {
    if ps == [] then 0 else 1 + |ps[0]| + Size(ps[1..])
  }

  lemma SizeCons(p: Bytes, ps: seq<Bytes>)
    ensures Size([p] + ps) == 1 + |p| + Size(ps)
  {
    assert ([p] + ps)[1..] == ps;
  }

  lemma {:induction false} ParamBytesSize(ps: seq<Bytes>)
    ensures |ParamBytes(ps)| <= Size(ps) + 1
  {
    if ps != [] {
      ParamBytesSize(ps[1..]);
    }
  }

  /** Scanned parameters take no more bytes than they are scanned from. */
  lemma {:induction false} ScanSize(s: Bytes)
    ensures Size(ScanParams(s)) <= |s| + (if s == "" || s[0] == ' ' then 0 else 1)
    decreases |s|
  {
    if s != "" && s[0] == ' ' {
      ScanSize(s[1..]);
    } else if s != "" && s[0] != ':' && ' ' in s {
      var word, rest := CutAt(s, ' ');
      ScanSize(rest);
      ScanCut(word, rest);
      SizeCons(word, ScanParams(rest));
      hide ScanParams, Size;
    }
  }

  lemma {:induction false} SpacedSize(pieces: seq<Bytes>)
    ensures |Spaced(pieces)| == Size(pieces)
  {
    if pieces != [] {
      SpacedSize(pieces[1..]);
    }
  }

  lemma {:induction false} SuffixSize(ps: seq<Bytes>, n: nat)
    requires n <= |ps|
    ensures Size(ps[n..]) <= Size(ps)
  {
    if n > 0 {
      SuffixSize(ps[1..], n - 1);
      assert ps[1..][n - 1..] == ps[n..];
    }
  }
}
