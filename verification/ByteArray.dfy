/**
 The parts of QByteArray the IRC codec relies on.  A byte string is a `string`, one `char` a byte.
 */
module ByteArray {

  type Bytes = string

  const LF: char := '\n'
  const CR: char := '\r'

  /** The position of the first `c`, or -1. */
  function IndexOf(s: Bytes, c: char): (i: int)
    ensures -1 <= i < |s|
    ensures i == -1 <==> c !in s
    ensures i >= 0 ==> s[i] == c && c !in s[..i]
  {
    if s == "" then -1
    else if s[0] == c then 0
    else
      var r := IndexOf(s[1..], c);
      assert s == [s[0]] + s[1..];
      assert r >= 0 ==> s[..r + 1] == [s[0]] + s[1..][..r];
      if r == -1 then -1 else r + 1
  }

  lemma {:induction false} IndexOfAt(s: Bytes, c: char, i: nat)
    requires i < |s| && s[i] == c && c !in s[..i]
    ensures IndexOf(s, c) == i
  {
    if i > 0 {
      assert s[..i][0] == s[0];
      assert s[..i][1..] == s[1..][..i - 1];
      IndexOfAt(s[1..], c, i - 1);
    }
  }

  /** A first occurrence is found where it is, whatever follows it. */
  lemma IndexOfIn(head: Bytes, c: char, tail: Bytes)
    requires c !in head
    ensures IndexOf(head + [c] + tail, c) == |head|
  {
    var s := head + [c] + tail;
    assert s[..|head|] == head;
    IndexOfAt(s, c, |head|);
  }

  lemma {:induction false} IndexOfInSecond(a: Bytes, b: Bytes, c: char)
    requires c !in a && c in b
    ensures IndexOf(a + b, c) == |a| + IndexOf(b, c)
  {
    if a == "" {
      assert a + b == b;
    } else {
      assert (a + b)[1..] == a[1..] + b;
      IndexOfInSecond(a[1..], b, c);
    }
  }

  predicate StartsWith(s: Bytes, prefix: Bytes) {
    prefix <= s
  }

  /** left(): the first bytes; a negative length gives none. */
  function Left(s: Bytes, n: int): Bytes {
    if n < 0 then "" else if n > |s| then s else s[..n]
  }

  /** mid(): at most so many bytes from a position on; a negative count means all of them. */
  function Mid(s: Bytes, from: nat, count: int): Bytes {
    if from >= |s| then "" else if count < 0 || from + count > |s| then s[from..] else s[from..from + count]
  }

  /** mid() without a count. */
  function From(s: Bytes, n: nat): Bytes {
    Mid(s, n, -1)
  }

  /** isspace() in the C locale. */
  predicate IsSpace(c: char) {
    c == ' ' || '\t' <= c <= '\r'
  }

  predicate AllSpace(s: Bytes) {
    forall i :: 0 <= i < |s| ==> IsSpace(s[i])
  }

  function TrimLeft(s: Bytes): Bytes {
    if s != "" && IsSpace(s[0]) then TrimLeft(s[1..]) else s
  }

  function TrimRight(s: Bytes): Bytes {
    if s != "" && IsSpace(s[|s| - 1]) then TrimRight(s[..|s| - 1]) else s
  }

  function Trimmed(s: Bytes): Bytes {
    TrimRight(TrimLeft(s))
  }

  /** Neither end of the string is white space. */
  predicate Tight(s: Bytes) {
    s != "" && !IsSpace(s[0]) && !IsSpace(s[|s| - 1])
  }

  lemma {:induction false} TrimLeftCut(s: Bytes) returns (gap: Bytes)
    ensures s == gap + TrimLeft(s) && AllSpace(gap)
    ensures TrimLeft(s) != "" ==> !IsSpace(TrimLeft(s)[0])
  {
    gap := "";
    if s != "" && IsSpace(s[0]) {
      gap := TrimLeftCut(s[1..]);
      gap := [s[0]] + gap;
    }
  }

  lemma {:induction false} TrimRightCut(s: Bytes) returns (gap: Bytes)
    ensures s == TrimRight(s) + gap && AllSpace(gap)
    ensures TrimRight(s) != "" ==> !IsSpace(TrimRight(s)[|TrimRight(s)| - 1])
  {
    gap := "";
    if s != "" && IsSpace(s[|s| - 1]) {
      gap := TrimRightCut(s[..|s| - 1]);
      gap := gap + [s[|s| - 1]];
    }
  }

  /** Trimming takes white space away at both ends, until what is left has none there, or is nothing. */
  lemma TrimmedCut(s: Bytes) returns (before: Bytes, after: Bytes)
    ensures s == before + Trimmed(s) + after && AllSpace(before) && AllSpace(after)
    ensures Trimmed(s) != "" ==> Tight(Trimmed(s))
  {
    hide TrimLeft, TrimRight, AllSpace;
    before := TrimLeftCut(s);
    after := TrimRightCut(TrimLeft(s));
    Assoc(before, Trimmed(s), after);
  }

  lemma TrimmedTight(s: Bytes)
    requires Tight(s)
    ensures Trimmed(s) == s
  {
  }

  /** split(' '): the pieces between all spaces, empty ones kept. */
  function Split(s: Bytes): (words: seq<Bytes>)
    ensures |words| > 0
    ensures forall w :: w in words ==> ' ' !in w
  {
    var i := IndexOf(s, ' ');
    if i == -1 then [s] else [s[..i]] + Split(s[i + 1..])
  }

  function JoinWords(words: seq<Bytes>): Bytes {
    if words == [] then ""
    else if |words| == 1 then words[0]
    else words[0] + " " + JoinWords(words[1..])
  }

  /** A word and the rest of the line, as split and join see them. */
  lemma SplitCut(word: Bytes, rest: Bytes)
    requires ' ' !in word
    ensures Split(word + [' '] + rest) == [word] + Split(rest)
  {
    var s := word + [' '] + rest;
    IndexOfIn(word, ' ', rest);
    assert s[..|word|] == word;
    assert s[|word| + 1..] == rest;
  }

  lemma JoinCons(word: Bytes, words: seq<Bytes>)
    requires words != []
    ensures JoinWords([word] + words) == word + [' '] + JoinWords(words)
  {
    assert ([word] + words)[1..] == words;
  }

  /** A string is its part before the first `c`, `c`, and the rest. */
  lemma CutAt(s: Bytes, c: char) returns (head: Bytes, rest: Bytes)
    requires c in s
    ensures s == head + [c] + rest && c !in head && |head| == IndexOf(s, c)
    ensures head == s[..IndexOf(s, c)] && rest == s[IndexOf(s, c) + 1..]
  {
    var i := IndexOf(s, c);
    head, rest := s[..i], s[i + 1..];
  }

  lemma {:induction false} JoinSplit(s: Bytes)
    ensures JoinWords(Split(s)) == s
    decreases |s|
  {
    if ' ' in s {
      var word, rest := CutAt(s, ' ');
      JoinSplit(rest);
      SplitCut(word, rest);
      JoinCons(word, Split(rest));
    }
  }

  /** replace(c, ""): every `c` taken out. */
  function Without(s: Bytes, c: char): (r: Bytes)
    ensures c !in r
    ensures c !in s ==> r == s
  {
    if s == "" then ""
    else if s[0] == c then Without(s[1..], c)
    else [s[0]] + Without(s[1..], c)
  }

  lemma {:induction false} WithoutConcat(s: Bytes, t: Bytes, c: char)
    ensures Without(s + t, c) == Without(s, c) + Without(t, c)
  {
    if s == "" {
      assert s + t == t;
    } else {
      assert (s + t)[1..] == s[1..] + t;
      WithoutConcat(s[1..], t, c);
    }
  }

  predicate AllDigits(s: Bytes) {
    forall i :: 0 <= i < |s| ==> '0' <= s[i] <= '9'
  }

  function Decimal(s: Bytes): nat
    requires AllDigits(s)
  {
    if s == "" then 0 else Decimal(s[..|s| - 1]) * 10 + (s[|s| - 1] as int - '0' as int)
  }

  /** toInt(): surrounding white space and one sign are accepted; anything else, and anything outside
      32 bits, counts as 0. */
  function ToInt(word: Bytes): (v: int)
    ensures -0x8000_0000 <= v < 0x8000_0000
  {
    var t := Trimmed(word);
    var digits := if t != "" && (t[0] == '-' || t[0] == '+') then t[1..] else t;
    if digits == "" || !AllDigits(digits) then 0
    else
      var v: int := if t[0] == '-' then 0 - Decimal(digits) else Decimal(digits);
      if -0x8000_0000 <= v < 0x8000_0000 then v else 0
  }

  /** Digits count as the number they spell, if it is in range; with a '-' as its negative. */
  lemma ToIntOfDigits(digits: Bytes)
    requires digits != "" && AllDigits(digits)
    ensures ToInt(digits) == if Decimal(digits) < 0x8000_0000 then Decimal(digits) else 0
    ensures ToInt(['-'] + digits) == if Decimal(digits) <= 0x8000_0000 then 0 - Decimal(digits) else 0
  {
    assert '0' <= digits[0] <= '9' && '0' <= digits[|digits| - 1] <= '9';
    TrimmedTight(digits);
    TrimmedTight(['-'] + digits);
    hide Trimmed, Decimal, AllDigits;
    assert (['-'] + digits)[1..] == digits;
  }

  /** number(): the digits of a number. */
  function Number(n: nat): (digits: Bytes)
    ensures digits != "" && AllDigits(digits)
  {
    if n < 10 then [('0' as int + n) as char] else Number(n / 10) + [('0' as int + n % 10) as char]
  }

  lemma DecimalMore(digits: Bytes, d: char)
    requires AllDigits(digits) && '0' <= d <= '9'
    ensures AllDigits(digits + [d]) && Decimal(digits + [d]) == Decimal(digits) * 10 + (d as int - '0' as int)
  {
    assert (digits + [d])[..|digits|] == digits;
  }

  /** The digits of a number spell it. */
  lemma {:induction false} DecimalOfNumber(n: nat)
    ensures Decimal(Number(n)) == n
  {
    var d := ('0' as int + n % 10) as char;
    if n < 10 {
      assert Number(n) == "" + [d];
      DecimalMore("", d);
    } else {
      DecimalOfNumber(n / 10);
      DecimalMore(Number(n / 10), d);
    }
  }

  /** A zero in front changes nothing. */
  lemma {:induction false} DecimalOfZeroFirst(digits: Bytes)
    requires AllDigits(digits)
    ensures AllDigits(['0'] + digits) && Decimal(['0'] + digits) == Decimal(digits)
  {
    if digits == "" {
      assert ['0'] + digits == "" + ['0'];
      DecimalMore("", '0');
    } else {
      var front, d := digits[..|digits| - 1], digits[|digits| - 1];
      DecimalOfZeroFirst(front);
      DecimalMore(['0'] + front, d);
      assert ['0'] + front + [d] == ['0'] + digits;
    }
  }

  /** A printed number is read as it was. */
  lemma ToIntOfNumber(n: nat)
    requires n < 0x8000_0000
    ensures ToInt(Number(n)) == n
  {
    DecimalOfNumber(n);
    ToIntOfDigits(Number(n));
    hide ToInt, Decimal;
  }

  /** A word with a byte that is no digit, sign or white space never counts as a number. */
  lemma NotANumber(word: Bytes, i: nat)
    requires i < |word|
    requires !IsSpace(word[i]) && !('0' <= word[i] <= '9') && word[i] != '-' && word[i] != '+'
    ensures ToInt(word) == 0
  {
    TrimmedCovers(word, i);
    var t := Trimmed(word);
    var digits := if t != "" && (t[0] == '-' || t[0] == '+') then t[1..] else t;
    var k :| 0 <= k < |t| && t[k] == word[i];
    assert |digits| == |t| - 1 ==> k > 0;
    var j := if |digits| == |t| then k else k - 1;
    assert digits[j] == word[i];
  }

  lemma TrimLeftCovers(s: Bytes, i: nat)
    requires i < |s| && !IsSpace(s[i])
    ensures s[i] in TrimLeft(s)
  {
    if IsSpace(s[0]) {
      TrimLeftCovers(s[1..], i - 1);
    }
  }

  lemma TrimRightCovers(s: Bytes, i: nat)
    requires i < |s| && !IsSpace(s[i])
    ensures s[i] in TrimRight(s)
  {
    if IsSpace(s[|s| - 1]) {
      TrimRightCovers(s[..|s| - 1], i);
    }
  }

  lemma TrimmedCovers(s: Bytes, i: nat)
    requires i < |s| && !IsSpace(s[i])
    ensures s[i] in Trimmed(s)
  {
    TrimLeftCovers(s, i);
    var t := TrimLeft(s);
    var j :| 0 <= j < |t| && t[j] == s[i];
    TrimRightCovers(t, j);
  }

  function Flatten(pieces: seq<Bytes>): Bytes {
    if pieces == [] then "" else pieces[0] + Flatten(pieces[1..])
  }

  // ----- equalities of concatenations, kept apart from everything else

  lemma Assoc(a: Bytes, b: Bytes, c: Bytes)
    ensures a + b + c == a + (b + c)
  {
  }

  lemma DropFirst(a: Bytes, b: Bytes)
    requires a != ""
    ensures (a + b)[0] == a[0] && (a + b)[1..] == a[1..] + b
  {
  }

  lemma SplitAt(s: Bytes, n: nat)
    requires n <= |s|
    ensures s[..n] + s[n..] == s
  {
  }

  lemma FrontAt(a: Bytes, b: Bytes, i: nat)
    ensures i < |a| ==> (a + b)[i] == a[i]
  {
  }

  lemma CrLf(line: Bytes, rest: Bytes)
    ensures line + "\r\n" + rest == line + [CR] + ([LF] + rest)
    ensures [LF] + rest == "" + [LF] + rest
  {
  }
}
