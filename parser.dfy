/** `parse_addresses` of lib/address.cc: tokenize a header line, match it
    as an address list, and on success hand back the normalized line and
    the list of addresses, each ending in a line feed. */
module Parser {
  import opened Wrappers
  import opened Tokenizer
  import opened Grammar
  import TokenizerProps
  import GrammarProps
  import Matcher
  import opened Quoting
  import opened Chars

  /** The match of a whole line: `None` when the line does not tokenize or
      is not an address list ending at the end of the line. Every address
      it yields ends with a line feed. */
  function Parse(line: string, canon: Canon): (r: Option<Match>)
    ensures r.Some? ==> Tokens(line).Some? && ValidPos(Tokens(line).value, 0)
    ensures r.Some? ==> GrammarProps.IsLines(r.value.addr)
  {
    match Tokens(line)
    case None => None
    case Some(toks) =>
      TokenizerProps.TokensStream(line);
      var r := Addresses(toks, 0, canon);
      ParsedLines(toks, canon);
      r
  }

  /** The addresses the list loop collects each end in a line feed, so
      their concatenation is empty or ends in one too. */
  lemma {:induction false} MoreAddressesLines(toks: seq<Token>, p: nat, canon: Canon)
    requires ValidPos(toks, p)
    ensures GrammarProps.IsLines(GrammarProps.Concat(GrammarProps.MoreAddresses(toks, p, canon).addrs))
    decreases |toks| - p
  {
    var node := SkipSeparators(toks, p).next;
    if toks[node].kind != Eot && Address(toks, node, canon).Some? {
      var a := Address(toks, node, canon).value;
      var rest := GrammarProps.MoreAddresses(toks, a.next, canon).addrs;
      MoreAddressesLines(toks, a.next, canon);
      GrammarProps.AddressLines(toks, node, canon);
      GrammarProps.MoreAddressesStep(toks, p, canon, node, a);
      assert ([a.addr] + rest)[1..] == rest;
      GrammarProps.LinesAppend(a.addr, GrammarProps.Concat(rest));
    }
  }

  /** A successful match of an address list yields address text that is
      empty or ends in a line feed. */
  lemma ParsedLines(toks: seq<Token>, canon: Canon)
    requires ValidPos(toks, 0)
    ensures Addresses(toks, 0, canon).Some? ==> GrammarProps.IsLines(Addresses(toks, 0, canon).value.addr)
  {
    GrammarProps.AddressesOrder(toks, 0, canon);
    if Addresses(toks, 0, canon).Some? {
      var a := Address(toks, 0, canon).value;
      var rest := GrammarProps.MoreAddresses(toks, a.next, canon).addrs;
      GrammarProps.AddressLines(toks, 0, canon);
      MoreAddressesLines(toks, a.next, canon);
      assert ([a.addr] + rest)[1..] == rest;
      GrammarProps.LinesAppend(a.addr, GrammarProps.Concat(rest));
    }
  }

  /** What `parse_addresses` accepts and writes back. A line is accepted
      exactly when it tokenizes, an address matches at its start, and the
      list ends, after any commas and comments, on the end of the text. The
      new line shows the first address, then each later one after the
      comments among the commas before it and `", "`, then the comments
      after the last; the list is the addresses' texts in input order. */
  lemma ParsedText(line: string, canon: Canon)
    ensures Parse(line, canon).Some? <==>
      && Tokens(line).Some? && ValidPos(Tokens(line).value, 0)
      && Address(Tokens(line).value, 0, canon).Some?
      && var toks := Tokens(line).value;
         toks[GrammarProps.MoreAddresses(toks, Address(toks, 0, canon).value.next, canon).end].kind == Eot
    ensures Parse(line, canon).Some? ==>
      var toks := Tokens(line).value;
      var a := Address(toks, 0, canon).value;
      var l := GrammarProps.MoreAddresses(toks, a.next, canon);
      var r := Parse(line, canon).value;
      && r.str == a.str + a.comment + GrammarProps.Listing(l.gaps, l.shown) + l.tail
      && r.addr == GrammarProps.Concat([a.addr] + l.addrs)
  {
    if Tokens(line).Some? {
      TokenizerProps.TokensStream(line);
      GrammarProps.AddressesOrder(Tokens(line).value, 0, canon);
    }
  }

  /** `parse_addresses`: on success the line becomes the normalized text
      and the list the addresses; on failure both are left as they were. */
  method ParseAddresses(line: string, list: string, canon: Canon)
    returns (ok: bool, line': string, list': string)
    ensures ok <==> Parse(line, canon).Some?
    ensures ok ==> line' == Parse(line, canon).value.str && list' == Parse(line, canon).value.addr
    ensures ok ==> GrammarProps.IsLines(list')
    ensures !ok ==> line' == line && list' == list
  {
    var toks := Tokenize(line);
    if toks.None? {
      return false, line, list;
    }
    TokenizerProps.TokensStream(line);
    var r := Matcher.MatchAddresses(toks.value, 0, canon);
    if r.None? {
      return false, line, list;
    }
    return true, r.value.str, r.value.addr;
  }

  /** A header line whose quoted local part escapes a line feed. */
  const EscapedLine: string := "\"a\\\nb\"@c"
  const EscapedWord: string := "\"a\\\nb\""
  const EscapedTokens: seq<Token> :=
    [Token(QuotedString, EscapedWord), Token(AtSign, []), Token(Atom, "c"), Token(Eot, [])]

  lemma EscapedNewlineScan()
    ensures NextToken(EscapedLine, 0) == Some(Scanned(Token(QuotedString, EscapedWord), 6))
    ensures NextToken(EscapedLine, 6) == Some(Scanned(Token(AtSign, []), 7))
    ensures NextToken(EscapedLine, 7) == Some(Scanned(Token(Atom, "c"), 8))
    ensures NextToken(EscapedLine, 8) == Some(Scanned(Token(Eot, []), 8))
  {
    var line := EscapedLine;
    assert QTextEnd(line, 1) == 5;
    assert line[0..6] == EscapedWord;
    assert AtomEnd(line, 7) == 8;
    assert line[7..8] == "c";
  }

  /** The tokens of the line: the quoted string keeps its escaped line
      feed. */
  lemma EscapedNewlineTokens()
    ensures Tokens(EscapedLine) == Some(EscapedTokens)
  {
    var line := EscapedLine;
    EscapedNewlineScan();
    assert TokensFrom(line, 8) == Some([Token(Eot, [])]);
    var t3 := [Token(Atom, "c"), Token(Eot, [])];
    var t2 := [Token(AtSign, [])] + t3;
    assert [Token(Atom, "c")] + [Token(Eot, [])] == t3;
    assert TokensFrom(line, 7) == Some(t3);
    assert TokensFrom(line, 6) == Some(t2);
    assert TokensFrom(line, 0) == Some([Token(QuotedString, EscapedWord)] + t2);
    assert [Token(QuotedString, EscapedWord)] + t2 == EscapedTokens;
  }

  /** `unquote` turns the escaped line feed into a plain one, and `quote`
      leaves the result as it is, since a line feed is not a symbol. */
  lemma EscapedNewlineWord()
    ensures UnquoteDefined(EscapedWord)
    ensures Unquoted(EscapedWord) == "a\nb"
    ensures Quoted("a\nb") == "a\nb"
  {
    var q := EscapedWord;
    assert Strips(q);
    assert !IsQPair(q, 1) && IsQPair(q, 2) && !IsQPair(q, 4);
    assert !Dangles(q, 4, 1);
    assert !Dangles(q, 1, 4);
    assert UnescapeFrom(q, 5, 0) == [];
    assert UnescapeFrom(q, 4, 1) == "b";
    assert UnescapeFrom(q, 2, 3) == "\nb";
    assert UnescapeFrom(q, 1, 4) == "a\nb";
    var addr := "a\nb";
    assert forall k | 0 <= k < |addr| :: !IsSymbol(addr[k]);
  }

  /** The tokens of the line are a valid token list. */
  lemma EscapedNewlineValid()
    ensures ValidPos(EscapedTokens, 0) && ValidPos(EscapedTokens, 1)
  {
    EscapedNewlineTokens();
    TokenizerProps.TokensStream(EscapedLine);
  }

  /** The quoted string is one word, and the `@` after it is none. */
  lemma EscapedNewlineWords()
    ensures ValidPos(EscapedTokens, 0)
    ensures Word(EscapedTokens, 0) == Some(Match(1, "a\nb", [], "a\nb"))
    ensures Word(EscapedTokens, 1).None?
    ensures SkipComments(EscapedTokens, 1) == 1 && CommentText(EscapedTokens, 1, 1) == []
  {
    var toks := EscapedTokens;
    EscapedNewlineValid();
    EscapedNewlineWord();
    assert SkipComments(toks, 0) == 0 && SkipComments(toks, 1) == 1;
    assert CommentText(toks, 0, 0) == [] && CommentText(toks, 1, 1) == [];
    assert toks[0].kind == QuotedString && toks[0].text == EscapedWord;
    assert Word(toks, 0) == Some(Match(1, Quoted(Unquoted(EscapedWord)), [], Unquoted(EscapedWord)));
  }

  /** The quoted string is the whole phrase and the whole local part. */
  lemma EscapedNewlineLocalPart()
    ensures ValidPos(EscapedTokens, 0)
    ensures Word(EscapedTokens, 0) == Some(Match(1, "a\nb", [], "a\nb"))
    ensures Phrase(EscapedTokens, 0) == Some(Match(1, "a\nb", [], "a\nb"))
    ensures LocalPart(EscapedTokens, 0) == Some(Match(1, "a\nb", [], "a\nb"))
  {
    var toks := EscapedTokens;
    EscapedNewlineWords();
    var w := Match(1, "a\nb", [], "a\nb");
    assert PhraseLoop(toks, w) == w;
    assert LocalPartLoop(toks, w) == w;
  }

  /** The line is neither a group nor a route-addr: no `:` and no `<`
      follows the phrase. */
  lemma EscapedNewlineNoRoute(canon: Canon)
    ensures ValidPos(EscapedTokens, 0)
    ensures Group(EscapedTokens, 0, canon).None?
    ensures RouteSpec(EscapedTokens, 0, canon).None?
  {
    var toks := EscapedTokens;
    EscapedNewlineWords();
    EscapedNewlineLocalPart();
    assert RouteAddr(toks, 1, canon).None?;
  }

  /** The addr-spec: the unquoted local part, `@`, the canonical domain and
      a line feed. */
  lemma EscapedNewlineAddrSpec(canon: Canon)
    ensures ValidPos(EscapedTokens, 0)
    ensures AddrSpec(EscapedTokens, 0, canon)
            == Some(Match(3, "a\nb@" + canon("c"), [], "a\nb@" + canon("c") + "\n"))
  {
    var toks := EscapedTokens;
    EscapedNewlineLocalPart();
    var addr := "a\nb";
    var w := Match(1, addr, [], addr);
    var d := Match(3, "c", [], "c");
    assert SubDomain(toks, 2) == Some(d);
    assert Domain(toks, 2) == Some(d);
    assert AddrSpecLoop(toks, d.(str := addr, addr := addr), "c") == Pending(Match(3, addr, [], addr), "c");
    assert AddrSpecLoop(toks, w, []) == Pending(Match(3, addr, [], addr), "c");
    assert addr + "@" == "a\nb@";
  }

  /** The address list holds that one addr-spec and nothing else. */
  lemma EscapedNewlineList(canon: Canon)
    ensures ValidPos(EscapedTokens, 0)
    ensures Addresses(EscapedTokens, 0, canon).Some?
    ensures Addresses(EscapedTokens, 0, canon).value.addr == "a\nb@" + canon("c") + "\n"
  {
    var toks := EscapedTokens;
    EscapedNewlineNoRoute(canon);
    EscapedNewlineAddrSpec(canon);
    var a := Match(3, "a\nb@" + canon("c"), [], "a\nb@" + canon("c") + "\n");
    assert Address(toks, 0, canon) == Some(a);
    assert SkipSeparators(toks, 3) == Skip(3, []);
  }

  /** A quoted pair may escape a line feed, and `unquote` keeps it: the
      address text of `"a\<LF>b"@c` is `a`, a line feed, then `b@`, the
      canonical `c` and the closing line feed. So an address ends in a line
      feed but may hold another one. */
  lemma EscapedNewline(canon: Canon)
    ensures Parse(EscapedLine, canon).Some?
    ensures Parse(EscapedLine, canon).value.addr == "a\nb@" + canon("c") + "\n"
  {
    EscapedNewlineTokens();
    EscapedNewlineList(canon);
  }
}
