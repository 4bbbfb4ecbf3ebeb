/**
 IRCName: the nick!ident@host sender of a message (examples/ircpeer/ircpeer.cpp).
 */
module IrcName {
  import opened ByteArray

  datatype Name = Name(nick: Bytes, ident: Bytes, host: Bytes)

  const NO_NAME := Name("", "", "")

  /** assemble(): an empty ident or host is left out together with its separator. */
  function Assemble(n: Name): Bytes {
    n.nick
    + (if n.ident == "" then "" else "!" + n.ident)
    + (if n.host == "" then "" else "@" + n.host)
  }

  /** The pattern of fromName as a language of byte strings: a nick free of '@' and '!', then
      '!' and an ident free of '@', then optionally '@' and any host. */
  ghost predicate Decomposes(s: Bytes, n: Name) {
    && '@' !in n.nick && '!' !in n.nick
    && '@' !in n.ident
    && (|| (s == n.nick + ['!'] + n.ident && n.host == "")
        || s == n.nick + ['!'] + (n.ident + ['@'] + n.host))
  }

  /** The condition under which fromName's pattern matches: a '!' that no '@' precedes. */
  predicate HasPattern(s: Bytes) {
    var bang := IndexOf(s, '!');
    bang != -1 && '@' !in s[..bang]
  }

  /** fromName(): the three captures of the pattern, all empty when it does not match. */
  function FromName(s: Bytes): Name {
    if !HasPattern(s) then NO_NAME
    else
      var bang := IndexOf(s, '!');
      var rest := s[bang + 1..];
      var at := IndexOf(rest, '@');
      if at == -1 then Name(s[..bang], rest, "")
      else Name(s[..bang], rest[..at], rest[at + 1..])
  }

  /** The sender deserialize builds from a prefix. */
  function FromPrefix(prefix: Bytes): Name {
    if prefix == "" then NO_NAME
    else if '@' in prefix then FromName(prefix)
    else Name(prefix, prefix, prefix)
  }

  /** What deserialize makes of a prefix, without saying how: nothing of none, a nick three times of one
      without '@', and of one with '@' the parts of its match, or nothing when it has none. */
  ghost predicate SentBy(prefix: Bytes, n: Name) {
    if prefix == "" then n == NO_NAME
    else if '@' !in prefix then n.nick == n.ident == n.host == prefix
    else Decomposes(prefix, n) || (n == NO_NAME && forall o :: !Decomposes(prefix, o))
  }

  lemma SplitOfName(nick: Bytes, rest: Bytes)
    requires '@' !in nick && '!' !in nick
    ensures HasPattern(nick + ['!'] + rest)
    ensures '@' !in rest ==> FromName(nick + ['!'] + rest) == Name(nick, rest, "")
    ensures '@' in rest ==>
      FromName(nick + ['!'] + rest) == Name(nick, rest[..IndexOf(rest, '@')], rest[IndexOf(rest, '@') + 1..])
  {
    IndexOfIn(nick, '!', rest);
    hide IndexOf;
    var s := nick + ['!'] + rest;
    assert s[..|nick|] == nick;
    assert s[|nick| + 1..] == rest;
  }

  lemma SplitAtSign(ident: Bytes, host: Bytes)
    requires '@' !in ident
    ensures IndexOf(ident + ['@'] + host, '@') == |ident|
    ensures (ident + ['@'] + host)[..|ident|] == ident
    ensures (ident + ['@'] + host)[|ident| + 1..] == host
  {
    IndexOfIn(ident, '@', host);
  }

  lemma MatchIsFromName(s: Bytes, n: Name)
    requires Decomposes(s, n)
    ensures HasPattern(s) && n == FromName(s)
  {
    if s == n.nick + ['!'] + n.ident && n.host == "" {
      SplitOfName(n.nick, n.ident);
    } else {
      SplitAtSign(n.ident, n.host);
      SplitOfName(n.nick, n.ident + ['@'] + n.host);
    }
  }

  lemma FromNameDecomposes(s: Bytes)
    requires HasPattern(s)
    ensures Decomposes(s, FromName(s))
  {
    var nick, rest := CutAt(s, '!');
    if '@' in rest {
      var ident, host := CutAt(rest, '@');
    }
  }

  /** The pattern matches in at most one way, and it matches exactly the strings with a '!' before
      every '@'; fromName returns the parts of that one match. */
  lemma FromNameIsTheMatch(s: Bytes, n: Name)
    ensures Decomposes(s, n) <==> HasPattern(s) && n == FromName(s)
  {
    if Decomposes(s, n) {
      MatchIsFromName(s, n);
    }
    if HasPattern(s) {
      FromNameDecomposes(s);
    }
  }

  /** The sender of a prefix is the one and only that SentBy describes. */
  lemma FromPrefixIsTheSender(prefix: Bytes, n: Name)
    ensures SentBy(prefix, n) <==> n == FromPrefix(prefix)
  {
    forall o
      ensures Decomposes(prefix, o) <==> HasPattern(prefix) && o == FromName(prefix)
    {
      FromNameIsTheMatch(prefix, o);
    }
    assert !HasPattern(prefix) ==> FromName(prefix) == NO_NAME;
    hide Decomposes, HasPattern, FromName;
    if HasPattern(prefix) {
      assert Decomposes(prefix, FromName(prefix));
    }
  }

  /** fromName undoes assemble exactly on the names with an ident, a nick free of '!' and '@' and an
      ident free of '@' (and on the name without parts). */
  lemma FromNameOfAssemble(n: Name)
    ensures FromName(Assemble(n)) == n <==>
            n == NO_NAME || (n.ident != "" && '!' !in n.nick && '@' !in n.nick && '@' !in n.ident)
  {
    var s := Assemble(n);
    if n.ident != "" && '!' !in n.nick && '@' !in n.nick && '@' !in n.ident {
      if n.host == "" {
        assert s == n.nick + ['!'] + n.ident;
      } else {
        assert s == n.nick + ['!'] + (n.ident + ['@'] + n.host);
      }
      assert Decomposes(s, n);
      FromNameIsTheMatch(s, n);
    }
    if FromName(s) == n && n != NO_NAME {
      FromNameIsTheMatch(s, n);
      assert |s| == |n.nick| + (if n.ident == "" then 0 else 1 + |n.ident|) + (if n.host == "" then 0 else 1 + |n.host|);
    }
  }

  lemma AssembleOfMatch(s: Bytes, n: Name)
    requires Decomposes(s, n)
    ensures Assemble(n) == s <==> n.ident != "" && (n.host != "" || '@' !in s)
  {
    if s == n.nick + ['!'] + n.ident && n.host == "" {
      assert '@' !in s;
      assert n.ident != "" ==> Assemble(n) == s;
      assert n.ident == "" ==> |Assemble(n)| < |s|;
    } else {
      assert s[|n.nick| + 1 + |n.ident|] == '@';
      if n.ident != "" && n.host != "" {
        assert Assemble(n) == n.nick + ("!" + n.ident) + ("@" + n.host) == s;
      } else {
        assert |Assemble(n)| < |s|;
      }
    }
  }

  /** assemble undoes fromName exactly on the strings that match with a non-empty ident and with no
      '@' after the '!' or something after that '@' (and on the empty string). */
  lemma AssembleOfFromName(s: Bytes)
    ensures Assemble(FromName(s)) == s <==>
            || s == ""
            || (HasPattern(s) && FromName(s).ident != ""
                && (FromName(s).host != "" || '@' !in s))
  {
    if HasPattern(s) {
      FromNameDecomposes(s);
      AssembleOfMatch(s, FromName(s));
    }
  }

  /** The names a prefix can carry: none at all, or three parts with ident and host present. */
  predicate Transmissible(n: Name) {
    || n == NO_NAME
    || (n.ident != "" && n.host != "" && '!' !in n.nick && '@' !in n.nick && '@' !in n.ident)
  }

  lemma AtSignInAssembled(n: Name)
    ensures '@' in Assemble(n) <==> '@' in n.nick || '@' in n.ident || n.host != ""
  {
    if n.host != "" {
      var front := n.nick + (if n.ident == "" then "" else "!" + n.ident);
      assert Assemble(n)[|front|] == '@';
    }
  }

  lemma ThreefoldIsLonger(s: Bytes)
    requires s != ""
    ensures Assemble(Name(s, s, s)) != s
  {
    assert |Assemble(Name(s, s, s))| > |s|;
  }

  /** Printing a sender as a prefix and parsing it again gives it back exactly for the transmissible
      names. */
  lemma PrefixRoundTrip(n: Name)
    ensures FromPrefix(Assemble(n)) == n <==> Transmissible(n)
  {
    var s := Assemble(n);
    FromNameOfAssemble(n);
    AtSignInAssembled(n);
    assert s == "" ==> n == NO_NAME;
    hide Assemble, FromName;
    if s != "" {
      ThreefoldIsLonger(s);
    }
  }
}
