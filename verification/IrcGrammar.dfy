/**
 The parameter grammar of RFC 1459, section 2.3.1, as a relation between the bytes after a command and
 the parameters they stand for, and its agreement with the scan the codec does.
 */
module IrcGrammar {
  import opened ByteArray
  import opened IrcLine

  predicate Blank(s: Bytes) {
    forall i :: 0 <= i < |s| ==> s[i] == ' '
  }

  predicate Middle(word: Bytes) {
    word != "" && ' ' !in word && word[0] != ':'
  }

  /** `s` spells `params`: blanks; or blanks, ':' and a last parameter that is the rest of the bytes; or
      blanks, a middle parameter that ends with the bytes or at a space, and the spelling of the others. */
  ghost predicate Spells(s: Bytes, params: seq<Bytes>)
    decreases |params|
  {
    if params == [] then Blank(s)
    else exists gap: Bytes, rest: Bytes :: Blank(gap) && SpellsFirst(s, params, gap, rest)
  }

  ghost predicate SpellsFirst(s: Bytes, params: seq<Bytes>, gap: Bytes, rest: Bytes)
    requires params != []
    decreases |params|, 0
  {
    || (|params| == 1 && s == gap + ([':'] + params[0]))
    || (Middle(params[0]) && s == gap + (params[0] + rest) && (rest == "" || rest[0] == ' ')
        && Spells(rest, params[1..]))
  }

  lemma {:induction false} ScanBlank(gap: Bytes, s: Bytes)
    requires Blank(gap)
    ensures ScanParams(gap + s) == ScanParams(s)
  {
    if gap == "" {
      assert gap + s == s;
    } else {
      DropFirst(gap, s);
      ScanBlank(gap[1..], s);
    }
  }

  lemma ScanOneMiddle(word: Bytes, rest: Bytes)
    requires Middle(word) && (rest == "" || rest[0] == ' ')
    ensures ScanParams(word + rest) == [word] + ScanParams(rest)
  {
    if rest == "" {
      assert word + rest == word;
    } else {
      var after := rest[1..];
      assert rest == [' '] + after;
      Assoc(word, [' '], after);
      ScanCut(word, after);
    }
  }

  /** Whatever spells a list of parameters scans to it. */
  lemma {:induction false} SpelledIsScanned(s: Bytes, params: seq<Bytes>)
    requires Spells(s, params)
    ensures ScanParams(s) == params
    decreases |params|
  {
    if params == [] {
      ScanBlank(s, "");
      assert s + "" == s;
    } else {
      var gap: Bytes, rest: Bytes :| Blank(gap) && SpellsFirst(s, params, gap, rest);
      SpelledFirstIsScanned(s, params, gap, rest);
    }
  }

  lemma {:induction false} SpelledFirstIsScanned(s: Bytes, params: seq<Bytes>, gap: Bytes, rest: Bytes)
    requires params != [] && Blank(gap) && SpellsFirst(s, params, gap, rest)
    ensures ScanParams(s) == params
    decreases |params|, 0
  {
    if |params| == 1 && s == gap + ([':'] + params[0]) {
      ScanBlank(gap, [':'] + params[0]);
      DropFirst([':'], params[0]);
      assert [':'][1..] + params[0] == params[0];
      assert params == [params[0]];
    } else {
      ScanBlank(gap, params[0] + rest);
      ScanOneMiddle(params[0], rest);
      SpelledIsScanned(rest, params[1..]);
      assert params == [params[0]] + params[1..];
    }
  }

  lemma SpellsBlankFirst(s: Bytes, params: seq<Bytes>)
    requires Spells(s, params)
    ensures Spells([' '] + s, params)
  {
    if params != [] {
      var gap: Bytes, rest: Bytes :| Blank(gap) && SpellsFirst(s, params, gap, rest);
      assert Blank([' '] + gap);
      Assoc([' '], gap, [':'] + params[0]);
      Assoc([' '], gap, params[0] + rest);
      assert SpellsFirst([' '] + s, params, [' '] + gap, rest);
    }
  }

  lemma SpellsTrailing(text: Bytes)
    ensures Spells([':'] + text, [text])
  {
    assert "" + ([':'] + text) == [':'] + text;
    assert Blank("") && SpellsFirst([':'] + text, [text], "", "");
  }

  lemma SpellsMiddle(word: Bytes, rest: Bytes, params: seq<Bytes>)
    requires Middle(word) && (rest == "" || rest[0] == ' ') && Spells(rest, params)
    ensures Spells(word + rest, [word] + params)
  {
    assert ([word] + params)[1..] == params;
    assert "" + (word + rest) == word + rest;
    assert Blank("") && SpellsFirst(word + rest, [word] + params, "", rest);
  }

  /** Every byte string spells what it scans to. */
  lemma {:induction false} ScannedIsSpelled(s: Bytes)
    ensures Spells(s, ScanParams(s))
    decreases |s|
  {
    if s == "" {
    } else if s[0] == ' ' {
      ScannedIsSpelled(s[1..]);
      SpellsBlankFirst(s[1..], ScanParams(s[1..]));
      assert s == [' '] + s[1..];
    } else if s[0] == ':' {
      SpellsTrailing(s[1..]);
      assert s == [':'] + s[1..];
    } else {
      ScannedWordIsSpelled(s);
    }
  }

  lemma {:induction false} ScannedWordIsSpelled(s: Bytes)
    requires s != "" && s[0] != ' ' && s[0] != ':'
    ensures Spells(s, ScanParams(s))
    decreases |s|, 0
  {
    if ' ' in s {
      var word, after := CutAt(s, ' ');
      ScannedIsSpelled(after);
      SpellsBlankFirst(after, ScanParams(after));
      ScanCut(word, after);
      SpellsMiddle(word, [' '] + after, ScanParams(after));
      Assoc(word, [' '], after);
    } else {
      SpellsMiddle(s, "", []);
      assert s + "" == s;
      assert [s] + [] == [s];
    }
  }

  /** The scan returns the one list of parameters the grammar gives the bytes. */
  lemma ScanIsTheGrammar(s: Bytes, params: seq<Bytes>)
    ensures Spells(s, params) <==> ScanParams(s) == params
  {
    ScannedIsSpelled(s);
    if Spells(s, params) {
      SpelledIsScanned(s, params);
    }
  }
}
