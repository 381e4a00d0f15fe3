/** Whole header lines taken through the model, from the text to what
    `parse_addresses` writes back. `canon` stays a parameter: the lines
    show where the canonical domain lands, whatever `canonicalize` does. */
module Samples {
  import opened Wrappers
  import opened Chars
  import opened Tokenizer
  import opened Grammar
  import TokenizerProps
  import GrammarProps
  import Parser

  // ---------------------------------------------------------------------
  // Tokenizer steps over known text

  /** Spaces from `i` up to `p`, and none at `p`. */
  lemma {:induction false} SkipsTo(s: string, i: nat, p: nat)
    requires i <= p <= |s| && !IsSpace(CharAt(s, p))
    requires forall k | i <= k < p :: IsSpace(s[k])
    ensures SkipSpaces(s, i) == p
    decreases p - i
  {
    if i < p {
      SkipsTo(s, i + 1, p);
    }
  }

  /** Atom characters from `p` up to `e`, and none at `e`. */
  lemma {:induction false} AtomsTo(s: string, p: nat, e: nat)
    requires p <= e <= |s| && !IsAtom(CharAt(s, e))
    requires forall k | p <= k < e :: IsAtom(s[k])
    ensures AtomEnd(s, p) == e
    decreases e - p
  {
    if p < e {
      AtomsTo(s, p + 1, e);
    }
  }

  /** One step of `tokenize` that reads the atom `s[p..e]` after the
      spaces from `i`. */
  lemma AtomStep(s: string, i: nat, p: nat, e: nat)
    requires i <= p < e <= |s| && !IsAtom(CharAt(s, e))
    requires forall k | i <= k < p :: IsSpace(s[k])
    requires forall k | p <= k < e :: IsAtom(s[k])
    ensures NextToken(s, i) == Some(Scanned(Token(Atom, s[p..e]), e))
  {
    assert IsAtom(s[p]);
    SkipsTo(s, i, p);
    AtomsTo(s, p, e);
  }

  /** One step of `tokenize` that reads the one-character token at `p`
      after the spaces from `i`. */
  lemma SpecialStep(s: string, i: nat, p: nat, k: Kind)
    requires i <= p < |s| && SpecialKind(s[p]) == Some(k)
    requires forall j | i <= j < p :: IsSpace(s[j])
    ensures NextToken(s, i) == Some(Scanned(Token(k, []), p + 1))
  {
    SkipsTo(s, i, p);
  }

  /** The last step of `tokenize`: only spaces are left from `i`. */
  lemma EndStep(s: string, i: nat)
    requires i <= |s|
    requires forall k | i <= k < |s| :: IsSpace(s[k])
    ensures NextToken(s, i) == Some(Scanned(Token(Eot, []), |s|))
  {
    SkipsTo(s, i, |s|);
  }

  /** Step `k` of a scan of `s`: from `ps[k]` it reads the token `ts[k]`,
      which is not the end, and stops at `ps[k + 1]`. */
  predicate Reads(s: string, ts: seq<Token>, ps: seq<nat>, k: nat)
    requires k + 1 < |ts| == |ps|
  {
    ts[k].kind != Eot && NextToken(s, ps[k]) == Some(Scanned(ts[k], ps[k + 1]))
  }

  /** A step that reads `ts[k]` puts it in front of the tokens after
      it. */
  lemma ReadsCons(s: string, ts: seq<Token>, ps: seq<nat>, k: nat)
    requires k + 1 < |ts| == |ps| && Reads(s, ts, ps, k)
    requires TokensFrom(s, ps[k + 1]) == Some(ts[k + 1..])
    ensures TokensFrom(s, ps[k]) == Some(ts[k..])
  {
    assert ts[k..] == [ts[k]] + ts[k + 1..];
  }

  /** A step that reads the end ends the token list. */
  lemma ReadsEnd(s: string, p: nat, ts: seq<Token>)
    requires |ts| > 0 && ts[|ts| - 1] == Token(Eot, [])
    requires NextToken(s, p) == Some(Scanned(Token(Eot, []), |s|))
    ensures TokensFrom(s, p) == Some(ts[|ts| - 1..])
  {
    assert ts[|ts| - 1..] == [Token(Eot, [])];
  }

  // ---------------------------------------------------------------------
  // Mailboxes of the form `local@sub.sub`

  /** The tokens `local @ sub . sub` from `p`, followed by a token that
      continues neither the domain nor the addr-spec. */
  predicate Simple(toks: seq<Token>, p: nat) {
    && ValidPos(toks, p + 5)
    && toks[p].kind == Atom && toks[p + 1].kind == AtSign && toks[p + 2].kind == Atom
    && toks[p + 3].kind == Period && toks[p + 4].kind == Atom
    && toks[p + 5].kind != Comment && toks[p + 5].kind != Period && toks[p + 5].kind != AtSign
  }

  /** Such tokens are an addr-spec: the local part, `@` and the canonical
      domain. */
  lemma SimpleAddrSpec(toks: seq<Token>, p: nat, canon: Canon)
    requires Simple(toks, p)
    ensures var d := canon(toks[p + 2].text + "." + toks[p + 4].text);
      AddrSpec(toks, p, canon) == Some(Match(p + 5, toks[p].text + "@" + d, [], toks[p].text + "@" + d + "\n"))
  {
    var l, x, y := toks[p].text, toks[p + 2].text, toks[p + 4].text;
    var w := Match(p + 1, l, [], l);
    assert SkipComments(toks, p) == p && SkipComments(toks, p + 1) == p + 1;
    assert Word(toks, p) == Some(w);
    assert LocalPartLoop(toks, w) == w;
    assert SkipComments(toks, p + 2) == p + 2 && SkipComments(toks, p + 3) == p + 3;
    assert SkipComments(toks, p + 4) == p + 4 && SkipComments(toks, p + 5) == p + 5;
    assert SubDomain(toks, p + 2) == Some(Match(p + 3, x, [], x));
    assert SubDomain(toks, p + 4) == Some(Match(p + 5, y, [], y));
    var dm := Match(p + 5, x + "." + y, [], x + "." + y);
    assert DomainLoop(toks, dm, []) == dm;
    assert Domain(toks, p + 2) == Some(dm);
    var m := Match(p + 5, l, [], l);
    assert AddrSpecLoop(toks, m, x + "." + y) == Pending(m, x + "." + y);
    assert AddrSpecLoop(toks, w, []) == AddrSpecLoop(toks, m, x + "." + y);
  }

  /** Such tokens are no route-spec: the one-word phrase is followed by
      `@`, not `<`. */
  lemma SimpleNoRouteSpec(toks: seq<Token>, p: nat, canon: Canon)
    requires Simple(toks, p)
    ensures RouteSpec(toks, p, canon).None?
  {
    var l := toks[p].text;
    var w := Match(p + 1, l, [], l);
    assert SkipComments(toks, p) == p && SkipComments(toks, p + 1) == p + 1;
    assert Word(toks, p) == Some(w);
    assert PhraseLoop(toks, w) == w;
    assert RouteAddr(toks, p + 1, canon).None?;
  }

  /** So they are a mailbox through its second alternative. */
  lemma SimpleMailbox(toks: seq<Token>, p: nat, canon: Canon, l: string, d: string)
    requires Simple(toks, p)
    requires toks[p].text == l && toks[p + 2].text + "." + toks[p + 4].text == d
    ensures Mailbox(toks, p, canon) == Some(Match(p + 5, l + "@" + canon(d), [], l + "@" + canon(d) + "\n"))
  {
    SimpleNoRouteSpec(toks, p, canon);
    SimpleAddrSpec(toks, p, canon);
  }

  // ---------------------------------------------------------------------
  // A display name before a route-addr

  /** The line `John Doe <john@example.com>`, character by character. */
  predicate IsNamedLine(s: string) {
    && |s| == 27 && s[0] == 'J' && s[1] == 'o' && s[2] == 'h' && s[3] == 'n' && s[4] == ' ' && s[5] == 'D'
    && s[6] == 'o' && s[7] == 'e' && s[8] == ' ' && s[9] == '<' && s[10] == 'j' && s[11] == 'o'
    && s[12] == 'h' && s[13] == 'n' && s[14] == '@' && s[15] == 'e' && s[16] == 'x' && s[17] == 'a'
    && s[18] == 'm' && s[19] == 'p' && s[20] == 'l' && s[21] == 'e' && s[22] == '.' && s[23] == 'c'
    && s[24] == 'o' && s[25] == 'm' && s[26] == '>'
  }

  /** Where each step of `tokenize` over the line starts. */
  const NamedStarts: seq<nat> := [0, 4, 8, 10, 14, 15, 22, 23, 26, 27]

  /** The tokens of such a line, each atom's text taken from the line. */
  function NamedTokens(s: string): (t: seq<Token>)
    requires |s| == 27
    ensures |t| == 10
  {
    [Token(Atom, s[0..4]), Token(Atom, s[5..8]), Token(LABracket, []), Token(Atom, s[10..14]),
      Token(AtSign, []), Token(Atom, s[15..22]), Token(Period, []), Token(Atom, s[23..26]),
      Token(RABracket, []), Token(Eot, [])]
  }

  // The steps of `tokenize` over the line, one token each.

  lemma NamedStep0(s: string)
    requires IsNamedLine(s)
    ensures Reads(s, NamedTokens(s), NamedStarts, 0)
  {
    AtomStep(s, 0, 0, 4);
  }

  lemma NamedStep1(s: string)
    requires IsNamedLine(s)
    ensures Reads(s, NamedTokens(s), NamedStarts, 1)
  {
    AtomStep(s, 4, 5, 8);
  }

  lemma NamedStep2(s: string)
    requires IsNamedLine(s)
    ensures Reads(s, NamedTokens(s), NamedStarts, 2)
  {
    SpecialStep(s, 8, 9, LABracket);
  }

  lemma NamedStep3(s: string)
    requires IsNamedLine(s)
    ensures Reads(s, NamedTokens(s), NamedStarts, 3)
  {
    AtomStep(s, 10, 10, 14);
  }

  lemma NamedStep4(s: string)
    requires IsNamedLine(s)
    ensures Reads(s, NamedTokens(s), NamedStarts, 4)
  {
    SpecialStep(s, 14, 14, AtSign);
  }

  lemma NamedStep5(s: string)
    requires IsNamedLine(s)
    ensures Reads(s, NamedTokens(s), NamedStarts, 5)
  {
    AtomStep(s, 15, 15, 22);
  }

  lemma NamedStep6(s: string)
    requires IsNamedLine(s)
    ensures Reads(s, NamedTokens(s), NamedStarts, 6)
  {
    SpecialStep(s, 22, 22, Period);
  }

  lemma NamedStep7(s: string)
    requires IsNamedLine(s)
    ensures Reads(s, NamedTokens(s), NamedStarts, 7)
  {
    AtomStep(s, 23, 23, 26);
  }

  lemma NamedStep8(s: string)
    requires IsNamedLine(s)
    ensures Reads(s, NamedTokens(s), NamedStarts, 8)
  {
    SpecialStep(s, 26, 26, RABracket);
  }

  lemma NamedStep9(s: string)
    requires IsNamedLine(s)
    ensures NextToken(s, 27) == Some(Scanned(Token(Eot, []), 27))
  {
    EndStep(s, 27);
  }

  /** The line's tokens: two atoms for the name, then the route-addr. */
  lemma NamedTokensOf(s: string)
    requires IsNamedLine(s)
    ensures Tokens(s) == Some(NamedTokens(s))
  {
    var t, ps := NamedTokens(s), NamedStarts;
    NamedStep0(s);
    NamedStep1(s);
    NamedStep2(s);
    NamedStep3(s);
    NamedStep4(s);
    NamedStep5(s);
    NamedStep6(s);
    NamedStep7(s);
    NamedStep8(s);
    NamedStep9(s);
    ReadsEnd(s, 27, t);
    ReadsCons(s, t, ps, 8);
    ReadsCons(s, t, ps, 7);
    ReadsCons(s, t, ps, 6);
    ReadsCons(s, t, ps, 5);
    ReadsCons(s, t, ps, 4);
    ReadsCons(s, t, ps, 3);
    ReadsCons(s, t, ps, 2);
    ReadsCons(s, t, ps, 1);
    ReadsCons(s, t, ps, 0);
    assert t[0..] == t;
  }

  /** The token kinds of the line: two atoms, then `<`, a simple
      addr-spec and `>`. */
  predicate NamedShape(toks: seq<Token>) {
    && Stream(toks) && |toks| == 10
    && toks[0].kind == Atom && toks[1].kind == Atom && toks[2].kind == LABracket
    && Simple(toks, 3) && toks[8].kind == RABracket
  }

  lemma NamedShaped(s: string)
    requires IsNamedLine(s)
    ensures NamedShape(NamedTokens(s))
  {
    NamedTokensOf(s);
    TokenizerProps.TokensStream(s);
  }

  /** The texts of its atoms. */
  lemma NamedTexts(s: string)
    requires IsNamedLine(s)
    ensures NamedTokens(s)[0].text == "John" && NamedTokens(s)[1].text == "Doe"
    ensures NamedTokens(s)[3].text == "john" && NamedTokens(s)[5].text + "." + NamedTokens(s)[7].text == "example.com"
  {
  }

  /** The name is a two-word phrase, shown one space apart; its address
      text is its first word's. */
  lemma NamedPhrase(toks: seq<Token>)
    requires NamedShape(toks)
    ensures Phrase(toks, 0) == Some(Match(2, toks[0].text + " " + toks[1].text, [], toks[0].text))
  {
    var x, y := toks[0].text, toks[1].text;
    assert SkipComments(toks, 0) == 0 && SkipComments(toks, 1) == 1 && SkipComments(toks, 2) == 2;
    assert Word(toks, 0) == Some(Match(1, x, [], x));
    assert Word(toks, 1) == Some(Match(2, y, [], y));
    assert Word(toks, 2).None?;
    var m := Match(2, x + " " + y, [], x);
    assert PhraseLoop(toks, m) == m;
    assert PhraseLoop(toks, Match(1, x, [], x)) == PhraseLoop(toks, m);
  }

  /** The route-addr has no route: it shows the addr-spec in brackets, and
      its address is the addr-spec's. */
  lemma NamedRouteAddr(toks: seq<Token>, canon: Canon, a: Match)
    requires NamedShape(toks) && AddrSpec(toks, 3, canon) == Some(a) && a.next == 8 && a.comment == []
    ensures RouteAddr(toks, 2, canon) == Some(Match(9, "<" + a.str + ">", [], a.addr))
  {
    assert SkipComments(toks, 2) == 2 && SkipComments(toks, 8) == 8;
    assert Route(toks, 3).None?;
    assert SpecStart(toks, 2) == 3;
    assert LeadingComment(toks, 2, 2) == [];
    assert CommentText(toks, 8, 8) == [];
    assert RouteAddr(toks, 2, canon) == RouteAddrClose(toks, Some(a), []);
    assert "<" + a.str + ">" + ([] + [] + []) == "<" + a.str + ">";
  }

  /** A phrase and a route-addr after it, neither holding back a
      comment: the route-spec shows the phrase, a space and the
      route-addr's display. */
  lemma PhraseRouteSpec(toks: seq<Token>, canon: Canon, p: Match, r: Match)
    requires ValidPos(toks, 0) && Phrase(toks, 0) == Some(p) && p.comment == []
    requires RouteAddr(toks, p.next, canon) == Some(r) && r.comment == []
    ensures RouteSpec(toks, 0, canon) == Some(r.(str := p.str + " " + r.str))
  {
    assert p.str + p.comment + " " + r.str + r.comment == p.str + " " + r.str;
  }

  /** No `:` follows the name, so the line is no group. */
  lemma NamedNoGroup(toks: seq<Token>, canon: Canon)
    requires NamedShape(toks)
    ensures Group(toks, 0, canon).None?
  {
    NamedPhrase(toks);
  }

  /** A mailbox that ends the line is the whole address list. */
  lemma WholeLine(toks: seq<Token>, canon: Canon, m: Match)
    requires Stream(toks) && Address(toks, 0, canon) == Some(m) && m.comment == []
    requires m.next == |toks| - 1
    ensures Addresses(toks, 0, canon) == Some(m)
  {
    var e := m.next;
    assert SkipComments(toks, e) == e && CommentText(toks, e, e) == [];
    assert SkipSeparators(toks, e) == Skip(e, []);
    assert m.str + m.comment == m.str && m.str + [] == m.str;
    assert AddressesLoop(toks, Match(e, m.str, [], m.addr), canon) == Some(m);
  }

  /** The display texts of the line, written out. */
  lemma NamedGlue(c: string)
    ensures "John" + " " + "Doe" + " " + ("<" + ("john" + "@" + c) + ">") == "John Doe <john@" + c + ">"
    ensures "john" + "@" + c + "\n" == "john@" + c + "\n"
  {
    assert "John" + " " + "Doe" + " " + "<" + "john" + "@" == "John Doe <john@";
  }

  /** Tokens of that shape and text match as one route-spec mailbox. */
  lemma NamedMatch(t: seq<Token>, canon: Canon)
    requires NamedShape(t) && t[0].text == "John" && t[1].text == "Doe"
    requires t[3].text == "john" && t[5].text + "." + t[7].text == "example.com"
    ensures Addresses(t, 0, canon)
            == Some(Match(9, "John Doe <john@" + canon("example.com") + ">", [], "john@" + canon("example.com") + "\n"))
  {
    var c := canon("example.com");
    var sa := "john" + "@" + c;
    var a := Match(8, sa, [], sa + "\n");
    SimpleAddrSpec(t, 3, canon);
    var r := Match(9, "<" + sa + ">", [], a.addr);
    NamedRouteAddr(t, canon, a);
    NamedPhrase(t);
    PhraseRouteSpec(t, canon, Match(2, "John" + " " + "Doe", [], "John"), r);
    NamedNoGroup(t, canon);
    var m := r.(str := "John" + " " + "Doe" + " " + r.str);
    assert Mailbox(t, 0, canon) == Some(m);
    assert Address(t, 0, canon) == Some(m);
    WholeLine(t, canon, m);
    NamedGlue(c);
  }

  /** `John Doe <john@example.com>` is accepted as it stands, with the
      canonical domain: the line written back is the name, a space and
      the bracketed address, and the list holds the one address. */
  lemma Named(s: string, canon: Canon)
    requires IsNamedLine(s)
    ensures Parser.Parse(s, canon)
            == Some(Match(9, "John Doe <john@" + canon("example.com") + ">", [], "john@" + canon("example.com") + "\n"))
  {
    NamedTokensOf(s);
    NamedShaped(s);
    NamedTexts(s);
    NamedMatch(NamedTokens(s), canon);
  }

  // ---------------------------------------------------------------------
  // A group of two mailboxes

  /** The line `list: a@b.c, d@e.f;`, character by character. */
  predicate IsGroupLine(s: string) {
    && |s| == 19 && s[0..4] == "list" && s[4] == ':' && s[5] == ' '
    && s[6] == 'a' && s[7] == '@' && s[8] == 'b' && s[9] == '.' && s[10] == 'c' && s[11] == ',' && s[12] == ' '
    && s[13] == 'd' && s[14] == '@' && s[15] == 'e' && s[16] == '.' && s[17] == 'f' && s[18] == ';'
  }

  /** Where each step of `tokenize` over the line starts. */
  const GroupStarts: seq<nat> := [0, 4, 5, 7, 8, 9, 10, 11, 12, 14, 15, 16, 17, 18, 19]

  /** The tokens of such a line, each atom's text taken from the line. */
  function GroupTokens(s: string): (t: seq<Token>)
    requires |s| == 19
    ensures |t| == 15
  {
    [Token(Atom, s[0..4]), Token(Colon, []), Token(Atom, s[6..7]), Token(AtSign, []),
      Token(Atom, s[8..9]), Token(Period, []), Token(Atom, s[10..11]), Token(Comma, []),
      Token(Atom, s[13..14]), Token(AtSign, []), Token(Atom, s[15..16]), Token(Period, []),
      Token(Atom, s[17..18]), Token(Semicolon, []), Token(Eot, [])]
  }

  // The steps of `tokenize` over the line, one token each.

  lemma GroupStep0(s: string)
    requires IsGroupLine(s)
    ensures Reads(s, GroupTokens(s), GroupStarts, 0)
  {
    AtomStep(s, 0, 0, 4);
  }

  lemma GroupStep1(s: string)
    requires IsGroupLine(s)
    ensures Reads(s, GroupTokens(s), GroupStarts, 1)
  {
    SpecialStep(s, 4, 4, Colon);
  }

  lemma GroupStep2(s: string)
    requires IsGroupLine(s)
    ensures Reads(s, GroupTokens(s), GroupStarts, 2)
  {
    AtomStep(s, 5, 6, 7);
  }

  lemma GroupStep3(s: string)
    requires IsGroupLine(s)
    ensures Reads(s, GroupTokens(s), GroupStarts, 3)
  {
    SpecialStep(s, 7, 7, AtSign);
  }

  lemma GroupStep4(s: string)
    requires IsGroupLine(s)
    ensures Reads(s, GroupTokens(s), GroupStarts, 4)
  {
    AtomStep(s, 8, 8, 9);
  }

  lemma GroupStep5(s: string)
    requires IsGroupLine(s)
    ensures Reads(s, GroupTokens(s), GroupStarts, 5)
  {
    SpecialStep(s, 9, 9, Period);
  }

  lemma GroupStep6(s: string)
    requires IsGroupLine(s)
    ensures Reads(s, GroupTokens(s), GroupStarts, 6)
  {
    AtomStep(s, 10, 10, 11);
  }

  lemma GroupStep7(s: string)
    requires IsGroupLine(s)
    ensures Reads(s, GroupTokens(s), GroupStarts, 7)
  {
    SpecialStep(s, 11, 11, Comma);
  }

  lemma GroupStep8(s: string)
    requires IsGroupLine(s)
    ensures Reads(s, GroupTokens(s), GroupStarts, 8)
  {
    AtomStep(s, 12, 13, 14);
  }

  lemma GroupStep9(s: string)
    requires IsGroupLine(s)
    ensures Reads(s, GroupTokens(s), GroupStarts, 9)
  {
    SpecialStep(s, 14, 14, AtSign);
  }

  lemma GroupStep10(s: string)
    requires IsGroupLine(s)
    ensures Reads(s, GroupTokens(s), GroupStarts, 10)
  {
    AtomStep(s, 15, 15, 16);
  }

  lemma GroupStep11(s: string)
    requires IsGroupLine(s)
    ensures Reads(s, GroupTokens(s), GroupStarts, 11)
  {
    SpecialStep(s, 16, 16, Period);
  }

  lemma GroupStep12(s: string)
    requires IsGroupLine(s)
    ensures Reads(s, GroupTokens(s), GroupStarts, 12)
  {
    AtomStep(s, 17, 17, 18);
  }

  lemma GroupStep13(s: string)
    requires IsGroupLine(s)
    ensures Reads(s, GroupTokens(s), GroupStarts, 13)
  {
    SpecialStep(s, 18, 18, Semicolon);
  }

  lemma GroupStep14(s: string)
    requires IsGroupLine(s)
    ensures NextToken(s, 19) == Some(Scanned(Token(Eot, []), 19))
  {
    EndStep(s, 19);
  }

  /** The tokens from the `,` on. */
  lemma GroupTokensTail(s: string)
    requires IsGroupLine(s)
    ensures TokensFrom(s, 11) == Some(GroupTokens(s)[7..])
  {
    var t, ps := GroupTokens(s), GroupStarts;
    GroupStep7(s);
    GroupStep8(s);
    GroupStep9(s);
    GroupStep10(s);
    GroupStep11(s);
    GroupStep12(s);
    GroupStep13(s);
    GroupStep14(s);
    ReadsEnd(s, 19, t);
    ReadsCons(s, t, ps, 13);
    ReadsCons(s, t, ps, 12);
    ReadsCons(s, t, ps, 11);
    ReadsCons(s, t, ps, 10);
    ReadsCons(s, t, ps, 9);
    ReadsCons(s, t, ps, 8);
    ReadsCons(s, t, ps, 7);
  }

  /** The tokens from the first member on. */
  lemma GroupTokensMembers(s: string)
    requires IsGroupLine(s)
    ensures TokensFrom(s, 5) == Some(GroupTokens(s)[2..])
  {
    var t, ps := GroupTokens(s), GroupStarts;
    GroupStep2(s);
    GroupStep3(s);
    GroupStep4(s);
    GroupStep5(s);
    GroupStep6(s);
    GroupTokensTail(s);
    ReadsCons(s, t, ps, 6);
    ReadsCons(s, t, ps, 5);
    ReadsCons(s, t, ps, 4);
    ReadsCons(s, t, ps, 3);
    ReadsCons(s, t, ps, 2);
  }

  /** The line's tokens: the phrase, `:`, then the member list. */
  lemma GroupTokensOf(s: string)
    requires IsGroupLine(s)
    ensures Tokens(s) == Some(GroupTokens(s))
  {
    var t, ps := GroupTokens(s), GroupStarts;
    GroupStep0(s);
    GroupStep1(s);
    GroupTokensMembers(s);
    ReadsCons(s, t, ps, 1);
    ReadsCons(s, t, ps, 0);
    assert t[0..] == t;
  }

  /** The token kinds of `list: a@b.c, d@e.f;`. */
  predicate GroupShape(toks: seq<Token>) {
    && Stream(toks) && |toks| == 15
    && toks[0].kind == Atom && toks[1].kind == Colon
    && Simple(toks, 2) && toks[7].kind == Comma && Simple(toks, 8)
    && toks[13].kind == Semicolon
  }

  lemma GroupStream(s: string)
    requires IsGroupLine(s)
    ensures Stream(GroupTokens(s))
  {
    GroupTokensOf(s);
    TokenizerProps.TokensStream(s);
  }

  lemma GroupShaped(s: string)
    requires IsGroupLine(s)
    ensures GroupShape(GroupTokens(s))
  {
    GroupStream(s);
  }

  /** The texts of its atoms. */
  lemma GroupTexts(s: string)
    requires IsGroupLine(s)
    ensures GroupTokens(s)[0].text == "list"
    ensures GroupTokens(s)[2].text == "a" && GroupTokens(s)[4].text + "." + GroupTokens(s)[6].text == "b.c"
    ensures GroupTokens(s)[8].text == "d" && GroupTokens(s)[10].text + "." + GroupTokens(s)[12].text == "e.f"
  {
  }

  /** The `;` starts no mailbox. */
  lemma SemicolonNoMailbox(toks: seq<Token>, canon: Canon)
    requires GroupShape(toks)
    ensures Mailbox(toks, 13, canon).None?
  {
    assert SkipComments(toks, 13) == 13;
    assert Word(toks, 13).None?;
    assert RouteAddr(toks, 13, canon).None?;
  }

  /** The separators: one comma after the first member, none before the
      `;` or the end. */
  lemma GroupSeparators(toks: seq<Token>)
    requires GroupShape(toks)
    ensures SkipSeparators(toks, 7) == Skip(8, [])
    ensures SkipSeparators(toks, 13) == Skip(13, [])
    ensures SkipSeparators(toks, 14) == Skip(14, [])
  {
    assert SkipComments(toks, 7) == 7 && SkipComments(toks, 8) == 8;
    assert SkipComments(toks, 13) == 13 && SkipComments(toks, 14) == 14;
    assert CommentText(toks, 7, 7) == [] && CommentText(toks, 8, 8) == [];
    assert CommentText(toks, 13, 13) == [] && CommentText(toks, 14, 14) == [];
    assert SkipSeparators(toks, 8) == Skip(8, []);
  }

  /** The list loop stops on the `;`, whatever it has gathered. */
  lemma GroupListEnd(toks: seq<Token>, canon: Canon, str: string, addr: string)
    requires GroupShape(toks)
    ensures MailboxesLoop(toks, Match(13, str, [], addr), canon) == Match(13, str, [], addr)
  {
    GroupSeparators(toks);
    SemicolonNoMailbox(toks, canon);
    assert SkipComments(toks, 13) == 13 && CommentText(toks, 13, 13) == [];
    assert str + [] == str;
  }

  /** The list loop after the first member takes the second after `", "`. */
  lemma GroupListStep(toks: seq<Token>, canon: Canon, str: string, addr: string, b: Match)
    requires GroupShape(toks) && Mailbox(toks, 8, canon) == Some(b) && b.next == 13 && b.comment == []
    ensures MailboxesLoop(toks, Match(7, str, [], addr), canon)
            == MailboxesLoop(toks, Match(13, str + ", " + b.str, [], addr + b.addr), canon)
  {
    GroupSeparators(toks);
    var r1' := Match(13, str + [] + ", " + b.str + b.comment, [], addr + b.addr);
    GrammarProps.MailboxesLoopStep(toks, Match(7, str, [], addr), canon, 8, b, r1');
    assert str + [] + ", " + b.str + b.comment == str + ", " + b.str;
  }

  /** The member list of such a group: the two mailboxes joined by `", "`,
      and their addresses in order; it stops on the `;`. */
  lemma GroupListOf(toks: seq<Token>, canon: Canon, a: Match, b: Match)
    requires GroupShape(toks)
    requires Mailbox(toks, 2, canon) == Some(a) && a.next == 7 && a.comment == []
    requires Mailbox(toks, 8, canon) == Some(b) && b.next == 13 && b.comment == []
    ensures Mailboxes(toks, 2, canon) == Some(Match(13, a.str + ", " + b.str, [], a.addr + b.addr))
  {
    assert a.str + a.comment == a.str;
    assert Mailboxes(toks, 2, canon) == Some(MailboxesLoop(toks, Match(7, a.str, [], a.addr), canon));
    GroupListStep(toks, canon, a.str, a.addr, b);
    GroupListEnd(toks, canon, a.str + ", " + b.str, a.addr + b.addr);
    assert a.str + a.comment == a.str;
  }

  /** The group's name is a one-word phrase, ended by the `:`. */
  lemma GroupPhrase(toks: seq<Token>)
    requires GroupShape(toks)
    ensures Phrase(toks, 0) == Some(Match(1, toks[0].text, [], toks[0].text))
  {
    var w := Match(1, toks[0].text, [], toks[0].text);
    assert SkipComments(toks, 0) == 0 && SkipComments(toks, 1) == 1;
    assert Word(toks, 0) == Some(w);
    assert Word(toks, 1).None?;
    assert PhraseLoop(toks, w) == w;
  }

  /** The `;` right after the member list closes the group. */
  lemma GroupSemicolon(toks: seq<Token>, phrase: string, ms: Match)
    requires GroupShape(toks) && ms.comment == []
    ensures GroupClose(toks, phrase, ms, 13) == Some(Match(14, phrase + ": " + ms.str + ";", [], ms.addr))
  {
    assert SkipComments(toks, 13) == 13 && CommentText(toks, 13, 13) == [];
    assert phrase + ": " + ms.str + ms.comment + [] + ";" == phrase + ": " + ms.str + ";";
  }

  /** Such a group: the phrase, `": "`, the member list and `;`; its
      address text is the list's. */
  lemma GroupOf(toks: seq<Token>, canon: Canon, ms: Match)
    requires GroupShape(toks)
    requires Mailboxes(toks, 2, canon) == Some(ms) && ms.next == 13 && ms.comment == []
    ensures Group(toks, 0, canon) == Some(Match(14, toks[0].text + ": " + ms.str + ";", [], ms.addr))
  {
    var w := Match(1, toks[0].text, [], toks[0].text);
    GroupPhrase(toks);
    GrammarProps.GroupUnfold(toks, 0, canon, w);
    assert GrammarProps.MembersEnd(toks, 2, canon) == 13;
    GroupSemicolon(toks, w.str, ms);
  }

  /** The display and address texts of the group, written out. */
  lemma GroupGlue(x: string, y: string)
    ensures "list" + ": " + (("a" + "@" + x) + ", " + ("d" + "@" + y)) + ";" == "list: a@" + x + ", d@" + y + ";"
    ensures ("a" + "@" + x + "\n") + ("d" + "@" + y + "\n") == "a@" + x + "\n" + "d@" + y + "\n"
  {
    assert "a" + "@" == "a@" && "d" + "@" == "d@" && "list" + ": " == "list: ";
  }

  /** Tokens of that shape and text match as one group of two
      mailboxes. */
  lemma GroupMatch(t: seq<Token>, canon: Canon)
    requires GroupShape(t) && t[0].text == "list"
    requires t[2].text == "a" && t[4].text + "." + t[6].text == "b.c"
    requires t[8].text == "d" && t[10].text + "." + t[12].text == "e.f"
    ensures Addresses(t, 0, canon)
            == Some(Match(14, "list: a@" + canon("b.c") + ", d@" + canon("e.f") + ";", [],
                          "a@" + canon("b.c") + "\n" + "d@" + canon("e.f") + "\n"))
  {
    var x, y := canon("b.c"), canon("e.f");
    var sa, sd := "a" + "@" + x, "d" + "@" + y;
    var a, b := Match(7, sa, [], sa + "\n"), Match(13, sd, [], sd + "\n");
    SimpleMailbox(t, 2, canon, "a", "b.c");
    SimpleMailbox(t, 8, canon, "d", "e.f");
    var ms := Match(13, sa + ", " + sd, [], a.addr + b.addr);
    GroupListOf(t, canon, a, b);
    GroupOf(t, canon, ms);
    var g := Match(14, "list" + ": " + ms.str + ";", [], ms.addr);
    assert Address(t, 0, canon) == Some(g);
    WholeLine(t, canon, g);
    GroupGlue(x, y);
  }

  /** `list: a@b.c, d@e.f;` is accepted: the line written back is the
      phrase, `": "`, the members with their canonical domains joined by
      `", "`, and `;`; the list holds both addresses in order. */
  lemma GroupOfTwo(s: string, canon: Canon)
    requires IsGroupLine(s)
    ensures Parser.Parse(s, canon)
            == Some(Match(14, "list: a@" + canon("b.c") + ", d@" + canon("e.f") + ";", [],
                          "a@" + canon("b.c") + "\n" + "d@" + canon("e.f") + "\n"))
  {
    GroupTokensOf(s);
    GroupShaped(s);
    GroupTexts(s);
    GroupMatch(GroupTokens(s), canon);
  }
}
