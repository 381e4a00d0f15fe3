/** What the grammar rules of lib/address.cc promise about their display
    and address texts. */
module GrammarProps {
  import opened Wrappers
  import opened Chars
  import opened Tokenizer
  import opened Quoting
  import QuotingProps
  import opened Grammar

  // ---------------------------------------------------------------------
  // Comments

  /** What a token adds to the comments of a stretch of tokens: its text
      after a space when it is a comment, nothing otherwise. */
  function Own(t: Token): string {
    if t.kind == Comment then " " + t.text else []
  }

  /** The comments among the tokens in `[p, q)`, in order. */
  function Comments(toks: seq<Token>, p: nat, q: nat): string
    requires p <= q <= |toks|
    decreases q - p
  {
    if p == q then [] else Own(toks[p]) + Comments(toks, p + 1, q)
  }

  /** Concatenation is associative; a proof calls this on the terms it
      needs rather than leave the solver to find them. */
  lemma AppendAssoc(a: string, b: string, c: string)
    ensures (a + b) + c == a + (b + c)
  {
  }

  lemma {:induction false} CommentsSplit(toks: seq<Token>, p: nat, q: nat, r: nat)
    requires p <= q <= r <= |toks|
    ensures Comments(toks, p, r) == Comments(toks, p, q) + Comments(toks, q, r)
    decreases q - p
  {
    if p < q {
      CommentsSplit(toks, p + 1, q, r);
      AppendAssoc(Own(toks[p]), Comments(toks, p + 1, q), Comments(toks, q, r));
    }
  }

  /** The comments of two adjacent stretches are those of their union. */
  lemma Extend(toks: seq<Token>, a: string, b: string, p: nat, q: nat, r: nat)
    requires p <= q <= r <= |toks|
    requires a == Comments(toks, p, q) && b == Comments(toks, q, r)
    ensures a + b == Comments(toks, p, r)
  {
    CommentsSplit(toks, p, q, r);
  }

  /** A run of comment tokens holds its own text as its comments. */
  lemma {:induction false} SkippedComments(toks: seq<Token>, p: nat)
    requires ValidPos(toks, p)
    ensures CommentText(toks, p, SkipComments(toks, p)) == Comments(toks, p, SkipComments(toks, p))
    decreases |toks| - p
  {
    if toks[p].kind == Comment {
      SkippedComments(toks, p + 1);
    }
  }

  /** `skipcomment` from `q` adds the comments up to where it stops. */
  lemma SkipExtend(toks: seq<Token>, a: string, p: nat, q: nat)
    requires ValidPos(toks, q) && p <= q && a == Comments(toks, p, q)
    ensures a + CommentText(toks, q, SkipComments(toks, q)) == Comments(toks, p, SkipComments(toks, q))
  {
    SkippedComments(toks, q);
    Extend(toks, a, CommentText(toks, q, SkipComments(toks, q)), p, q, SkipComments(toks, q));
  }

  /** A token that is not a comment adds no comment. */
  lemma PassOver(toks: seq<Token>, p: nat, q: nat)
    requires p <= q < |toks| && toks[q].kind != Comment
    ensures Comments(toks, p, q + 1) == Comments(toks, p, q)
  {
    CommentsSplit(toks, p, q, q + 1);
    assert Comments(toks, q, q + 1) == [];
  }

  // ---------------------------------------------------------------------
  // Joined texts

  /** Each text of `ws` after `sep`: `sep w1 sep w2 ... sep wn`. */
  function Prefixed(sep: string, ws: seq<string>): string
    decreases |ws|
  {
    if ws == [] then [] else sep + ws[0] + Prefixed(sep, ws[1..])
  }

  /** The texts of `ws` with `sep` between each two: `w1 sep w2 ... sep wn`. */
  function Join(sep: string, ws: seq<string>): string
    decreases |ws|
  {
    if ws == [] then [] else if |ws| == 1 then ws[0] else ws[0] + sep + Join(sep, ws[1..])
  }

  /** Appending `sep w` and then the rest, each after `sep`, is appending
      all of them. */
  lemma PrefixedStep(a: string, sep: string, w: string, ws: seq<string>)
    ensures (a + sep + w) + Prefixed(sep, ws) == a + Prefixed(sep, [w] + ws)
  {
    assert ([w] + ws)[1..] == ws;
    assert Prefixed(sep, [w] + ws) == sep + w + Prefixed(sep, ws);
  }

  /** A text followed by the others, each after `sep`, is their join. */
  lemma {:induction false} JoinCons(sep: string, w: string, ws: seq<string>)
    ensures Join(sep, [w] + ws) == w + Prefixed(sep, ws)
    decreases |ws|
  {
    if ws == [] {
      assert [w] + ws == [w];
      assert w + [] == w;
    } else {
      JoinCons(sep, ws[0], ws[1..]);
      assert [ws[0]] + ws[1..] == ws;
      assert ([w] + ws)[1..] == ws;
      PrefixedStep(w, sep, ws[0], ws[1..]);
    }
  }

  /** A match from `p` holds back exactly the comments it consumed. */
  predicate HoldsComments(toks: seq<Token>, p: nat, m: Match) {
    p <= m.next <= |toks| && m.comment == Comments(toks, p, m.next)
  }

  lemma SubDomainComments(toks: seq<Token>, pos: nat)
    requires ValidPos(toks, pos)
    ensures SubDomain(toks, pos).Some? ==> HoldsComments(toks, pos, SubDomain(toks, pos).value)
  {
    var node := SkipComments(toks, pos);
    SkipExtend(toks, [], pos, pos);
    PassOver(toks, pos, node);
  }

  lemma WordComments(toks: seq<Token>, pos: nat)
    requires ValidPos(toks, pos)
    ensures Word(toks, pos).Some? ==> HoldsComments(toks, pos, Word(toks, pos).value)
  {
    var node := SkipComments(toks, pos);
    SkipExtend(toks, [], pos, pos);
    PassOver(toks, pos, node);
  }

  // ---------------------------------------------------------------------
  // Domains

  lemma {:induction false} DomainLoopKeeps(toks: seq<Token>, r: Match, comment: string)
    requires ValidPos(toks, r.next)
    requires r.str == r.addr && |r.addr| > 0
    ensures var m := DomainLoop(toks, r, comment);
      m.str == m.addr && |m.addr| > 0
    ensures var m := DomainLoop(toks, r, comment);
      toks[m.next].kind != Comment &&
      (toks[m.next].kind == Period ==> SubDomain(toks, m.next + 1).None?)
    decreases |toks| - r.next
  {
    var node := SkipComments(toks, r.next);
    var acc := comment + CommentText(toks, r.next, node);
    if toks[node].kind == Period && SubDomain(toks, node + 1).Some? {
      var r1 := SubDomain(toks, node + 1).value;
      assert TokenOk(toks, SkipComments(toks, node + 1));
      var r' := Match(r1.next, r.str + "." + r1.str, r.comment, r.addr + "." + r1.addr);
      assert DomainLoop(toks, r, comment) == DomainLoop(toks, r', acc + r1.comment);
      DomainLoopKeeps(toks, r', acc + r1.comment);
    }
  }

  /** A domain shows exactly its address text, which is never empty, and
      it stops before a `.` that no sub-domain follows (comments before
      that `.` are taken). */
  lemma DomainShape(toks: seq<Token>, pos: nat)
    requires ValidPos(toks, pos)
    ensures Domain(toks, pos).Some? ==>
      var r := Domain(toks, pos).value;
      && r.str == r.addr && |r.addr| > 0
      && toks[r.next].kind != Comment
      && (toks[r.next].kind == Period ==> SubDomain(toks, r.next + 1).None?)
  {
    match SubDomain(toks, pos)
    case None =>
    case Some(r) =>
      var node := SkipComments(toks, pos);
      assert TokenOk(toks, node);
      DomainLoopKeeps(toks, r, []);
  }

  lemma DomainNonEmpty(toks: seq<Token>, pos: nat)
    requires ValidPos(toks, pos)
    ensures Domain(toks, pos).Some? ==> |Domain(toks, pos).value.addr| > 0
  {
    DomainShape(toks, pos);
  }

  // ---------------------------------------------------------------------
  // Words, local parts, phrases

  /** The display text of a word unquotes to its address text. */
  lemma WordRoundTrip(toks: seq<Token>, pos: nat)
    requires ValidPos(toks, pos)
    ensures Word(toks, pos).Some? ==>
      var r := Word(toks, pos).value;
      UnquoteDefined(r.str) && Unquoted(r.str) == r.addr
  {
    var node := SkipComments(toks, pos);
    var t := toks[node];
    assert TokenOk(toks, node);
    if t.kind == Atom {
      assert !HasSymbol(t.text);
      QuotingProps.UnquotePlain(t.text);
    } else if t.kind == QuotedString {
      QuotingProps.QuotedTokenUnquotes(t);
      QuotingProps.UnquoteQuote(Unquoted(t.text));
    }
  }

  /** One turn of the local-part loop that takes a `.` and a word. */
  lemma LocalPartLoopStep(toks: seq<Token>, r: Match, node: nat)
    requires ValidPos(toks, r.next) && node == SkipComments(toks, r.next)
    requires toks[node].kind == Period && Word(toks, node + 1).Some?
    ensures
      var cur := r.(next := node, comment := r.comment + CommentText(toks, r.next, node));
      var r1 := Word(toks, node + 1).value;
      LocalPartLoop(toks, r) ==
        LocalPartLoop(toks, Match(r1.next, cur.str + "." + r1.str, cur.comment + r1.comment, cur.addr + "." + r1.addr))
  {
  }

  /** The turn of the local-part loop that stops. */
  lemma LocalPartLoopEnd(toks: seq<Token>, r: Match, node: nat)
    requires ValidPos(toks, r.next) && node == SkipComments(toks, r.next)
    requires toks[node].kind != Period || Word(toks, node + 1).None?
    ensures LocalPartLoop(toks, r) == r.(next := node, comment := r.comment + CommentText(toks, r.next, node))
  {
    if toks[node].kind == Period {
      assert Word(toks, node + 1).None?;
    }
  }

  /** Where a local part may end: not on a comment, and on a `.` only if
      no word follows it. */
  predicate LocalPartEnds(toks: seq<Token>, q: nat)
    requires ValidPos(toks, q)
  {
    toks[q].kind != Comment && (toks[q].kind == Period ==> Word(toks, q + 1).None?)
  }

  lemma {:induction false} LocalPartLoopStops(toks: seq<Token>, r: Match)
    requires ValidPos(toks, r.next)
    ensures LocalPartEnds(toks, LocalPartLoop(toks, r).next)
    decreases |toks| - r.next
  {
    var node := SkipComments(toks, r.next);
    if toks[node].kind == Period && Word(toks, node + 1).Some? {
      var r1 := Word(toks, node + 1).value;
      var cur := r.(next := node, comment := r.comment + CommentText(toks, r.next, node));
      var r' := Match(r1.next, cur.str + "." + r1.str, cur.comment + r1.comment, cur.addr + "." + r1.addr);
      LocalPartLoopStep(toks, r, node);
      LocalPartLoopStops(toks, r');
    } else {
      LocalPartLoopEnd(toks, r, node);
      assert LocalPartEnds(toks, node);
    }
  }

  /** A local part takes every `.`-separated word there is, and leaves a
      `.` that no word follows. */
  lemma LocalPartStops(toks: seq<Token>, pos: nat)
    requires ValidPos(toks, pos)
    ensures LocalPart(toks, pos).Some? ==>
      var r := LocalPart(toks, pos).value;
      toks[r.next].kind != Comment &&
      (toks[r.next].kind == Period ==> Word(toks, r.next + 1).None?)
  {
    if Word(toks, pos).Some? {
      LocalPartLoopStops(toks, Word(toks, pos).value);
    }
  }

  lemma {:induction false} PhraseLoopStops(toks: seq<Token>, r1: Match)
    requires ValidPos(toks, r1.next)
    ensures Word(toks, PhraseLoop(toks, r1).next).None?
    decreases |toks| - r1.next
  {
    match Word(toks, r1.next)
    case None =>
    case Some(r2) =>
      PhraseLoopStops(toks, Match(r2.next, r1.str + " " + r2.str, r1.comment + r2.comment, r1.addr));
  }

  /** A phrase takes every word there is: no word starts where it stops. */
  lemma PhraseStops(toks: seq<Token>, pos: nat)
    requires ValidPos(toks, pos)
    ensures Phrase(toks, pos).Some? ==> Word(toks, Phrase(toks, pos).value.next).None?
  {
    if Word(toks, pos).Some? {
      PhraseLoopStops(toks, Word(toks, pos).value);
    }
  }

  /** The words a loop reads, as shown and as address text, and the token
      where it stops. */
  datatype Words = Words(shown: seq<string>, addrs: seq<string>, end: nat)

  /** The words that follow one another from `p` on. */
  function PhraseWords(toks: seq<Token>, p: nat): (w: Words)
    requires ValidPos(toks, p)
    ensures p <= w.end < |toks| && |w.shown| == |w.addrs|
    decreases |toks| - p
  {
    match Word(toks, p)
    case None => Words([], [], p)
    case Some(r) =>
      var l := PhraseWords(toks, r.next);
      Words([r.str] + l.shown, [r.addr] + l.addrs, l.end)
  }

  /** The `. word` segments that follow one another from `p` on; they stop
      after the comments, on a `.` only when no word follows it. */
  function DotWords(toks: seq<Token>, p: nat): (w: Words)
    requires ValidPos(toks, p)
    ensures p <= w.end < |toks| && |w.shown| == |w.addrs|
    decreases |toks| - p
  {
    var node := SkipComments(toks, p);
    if toks[node].kind != Period then Words([], [], node)
    else match Word(toks, node + 1)
      case None => Words([], [], node)
      case Some(r) =>
        var l := DotWords(toks, r.next);
        Words([r.str] + l.shown, [r.addr] + l.addrs, l.end)
  }

  /** What the loop of `match_phrase` does from `r1` on: it stops where
      the words end, adds each word's display after a space, and keeps the
      first word's address text. */
  predicate PhraseAt(toks: seq<Token>, r1: Match)
    requires ValidPos(toks, r1.next)
  {
    var w := PhraseWords(toks, r1.next);
    var m := PhraseLoop(toks, r1);
    m.next == w.end && m.addr == r1.addr && m.str == r1.str + Prefixed(" ", w.shown)
  }

  lemma {:induction false} PhraseLoopWords(toks: seq<Token>, r1: Match)
    requires ValidPos(toks, r1.next)
    ensures PhraseAt(toks, r1)
    decreases |toks| - r1.next
  {
    match Word(toks, r1.next)
    case None =>
      assert PhraseWords(toks, r1.next) == Words([], [], r1.next);
      assert PhraseLoop(toks, r1) == r1;
      assert r1.str + [] == r1.str;
    case Some(r2) =>
      var r1' := Match(r2.next, r1.str + " " + r2.str, r1.comment + r2.comment, r1.addr);
      var l := PhraseWords(toks, r2.next);
      PhraseLoopWords(toks, r1');
      assert PhraseLoop(toks, r1) == PhraseLoop(toks, r1');
      assert PhraseWords(toks, r1.next) == Words([r2.str] + l.shown, [r2.addr] + l.addrs, l.end);
      PrefixedStep(r1.str, " ", r2.str, l.shown);
  }

  /** The loop of `match_phrase` keeps every comment it consumes. */
  lemma {:induction false} PhraseLoopComments(toks: seq<Token>, start: nat, r1: Match)
    requires ValidPos(toks, r1.next) && HoldsComments(toks, start, r1)
    ensures HoldsComments(toks, start, PhraseLoop(toks, r1))
    decreases |toks| - r1.next
  {
    match Word(toks, r1.next)
    case None =>
    case Some(r2) =>
      WordComments(toks, r1.next);
      Extend(toks, r1.comment, r2.comment, start, r1.next, r2.next);
      PhraseLoopComments(toks, start, Match(r2.next, r1.str + " " + r2.str, r1.comment + r2.comment, r1.addr));
  }

  /** phrase = word *word: a phrase matches exactly when a word does, and
      takes every word that follows. It shows its words one space apart,
      holds back every comment among them, and its address text is its
      first word's. */
  lemma PhraseText(toks: seq<Token>, pos: nat)
    requires ValidPos(toks, pos)
    ensures Phrase(toks, pos).Some? <==> Word(toks, pos).Some?
    ensures Phrase(toks, pos).Some? ==>
      var w := PhraseWords(toks, pos);
      var r := Phrase(toks, pos).value;
      && |w.shown| > 0
      && r.next == w.end
      && r.str == Join(" ", w.shown)
      && r.addr == w.addrs[0]
      && HoldsComments(toks, pos, r)
  {
    match Word(toks, pos)
    case None =>
    case Some(r1) =>
      var l := PhraseWords(toks, r1.next);
      assert PhraseWords(toks, pos) == Words([r1.str] + l.shown, [r1.addr] + l.addrs, l.end);
      PhraseLoopWords(toks, r1);
      WordComments(toks, pos);
      PhraseLoopComments(toks, pos, r1);
      JoinCons(" ", r1.str, l.shown);
  }

  /** One `. word` segment read from `p`, then the rest. */
  lemma DotWordsStep(toks: seq<Token>, p: nat, node: nat)
    requires ValidPos(toks, p) && node == SkipComments(toks, p)
    requires toks[node].kind == Period && Word(toks, node + 1).Some?
    ensures var r1 := Word(toks, node + 1).value;
      var l := DotWords(toks, r1.next);
      DotWords(toks, p) == Words([r1.str] + l.shown, [r1.addr] + l.addrs, l.end)
  {
  }

  /** What the loop of `match_local_part` does from `r` on: it stops where
      the `. word` segments end and adds each one's display and address
      text after a `.`. */
  predicate LocalPartAt(toks: seq<Token>, r: Match)
    requires ValidPos(toks, r.next)
  {
    var w := DotWords(toks, r.next);
    var m := LocalPartLoop(toks, r);
    m.next == w.end && m.str == r.str + Prefixed(".", w.shown) && m.addr == r.addr + Prefixed(".", w.addrs)
  }

  lemma {:induction false} LocalPartLoopWords(toks: seq<Token>, r: Match)
    requires ValidPos(toks, r.next)
    ensures LocalPartAt(toks, r)
    decreases |toks| - r.next
  {
    var node := SkipComments(toks, r.next);
    if toks[node].kind == Period && Word(toks, node + 1).Some? {
      var r1 := Word(toks, node + 1).value;
      var cur := r.(next := node, comment := r.comment + CommentText(toks, r.next, node));
      var n := Match(r1.next, cur.str + "." + r1.str, cur.comment + r1.comment, cur.addr + "." + r1.addr);
      var l := DotWords(toks, r1.next);
      assert LocalPartLoop(toks, r) == LocalPartLoop(toks, n) by {
        LocalPartLoopStep(toks, r, node);
      }
      assert DotWords(toks, r.next) == Words([r1.str] + l.shown, [r1.addr] + l.addrs, l.end) by {
        DotWordsStep(toks, r.next, node);
      }
      LocalPartLoopWords(toks, n);
      PrefixedStep(r.str, ".", r1.str, l.shown);
      PrefixedStep(r.addr, ".", r1.addr, l.addrs);
    } else {
      assert DotWords(toks, r.next) == Words([], [], node);
      LocalPartLoopEnd(toks, r, node);
      assert r.str + [] == r.str && r.addr + [] == r.addr;
    }
  }

  /** local-part = word *(PERIOD word): a local part matches exactly when
      a word does, and takes every `.` word that follows. Its display and
      its address text are its words' displays and address texts joined
      by `.`. */
  lemma LocalPartText(toks: seq<Token>, pos: nat)
    requires ValidPos(toks, pos)
    ensures LocalPart(toks, pos).Some? <==> Word(toks, pos).Some?
    ensures LocalPart(toks, pos).Some? ==>
      var w := Word(toks, pos).value;
      var d := DotWords(toks, w.next);
      var r := LocalPart(toks, pos).value;
      && r.next == d.end
      && r.str == Join(".", [w.str] + d.shown)
      && r.addr == Join(".", [w.addr] + d.addrs)
  {
    match Word(toks, pos)
    case None =>
    case Some(w) =>
      LocalPartLoopWords(toks, w);
      JoinCons(".", w.str, DotWords(toks, w.next).shown);
      JoinCons(".", w.addr, DotWords(toks, w.next).addrs);
  }

  // ---------------------------------------------------------------------
  // Addr-specs: source routes

  /** The domains of the `@ domain` segments the addr-spec loop takes from
      `p`, and where it stops. */
  datatype Chain = Chain(domains: seq<string>, end: nat)

  function AtDomains(toks: seq<Token>, p: nat): (c: Chain)
    requires ValidPos(toks, p)
    ensures p <= c.end < |toks|
    decreases |toks| - p
  {
    var node := SkipComments(toks, p);
    if toks[node].kind != AtSign then Chain([], node)
    else match Domain(toks, node + 1)
      case None => Chain([], node)
      case Some(r2) =>
        var c := AtDomains(toks, r2.next);
        Chain([r2.addr] + c.domains, c.end)
  }

  /** `@d1@d2...@d(n-1)`: every domain but the last, each after an `@`. */
  function RouteText(ds: seq<string>): string
    decreases |ds|
  {
    if |ds| <= 1 then [] else "@" + ds[0] + RouteText(ds[1..])
  }

  /** The last domain, or the empty text when there is none. */
  function Last(ds: seq<string>): string {
    if ds == [] then [] else ds[|ds| - 1]
  }

  /** The domains the addr-spec loop has seen: the pending one, when there
      is one, then those still to come. */
  function Seen(domain: string, ds: seq<string>): seq<string> {
    if |domain| > 0 then [domain] + ds else ds
  }

  /** One turn of the addr-spec loop that takes an `@ domain`. */
  lemma AddrSpecLoopStep(toks: seq<Token>, m: Match, domain: string, node: nat, r2: Match)
    requires ValidPos(toks, m.next)
    requires node == SkipComments(toks, m.next) && toks[node].kind == AtSign
    requires Domain(toks, node + 1) == Some(r2)
    ensures
      var cur := m.(next := node, comment := m.comment + CommentText(toks, m.next, node));
      var folded :=
        if |domain| > 0 then cur.(str := cur.str + "@" + domain, addr := cur.addr + "@" + domain)
        else cur;
      var p := AddrSpecLoop(toks, m, domain);
      var p' := AddrSpecLoop(toks, folded.(next := r2.next, comment := folded.comment + r2.comment), r2.addr);
      && p.m.next == p'.m.next && p.domain == p'.domain && p.m.addr == p'.m.addr && p.m.str == p'.m.str
      && p.m.comment == p'.m.comment
  {
  }

  /** The turn of the addr-spec loop that finds no `@ domain` and stops. */
  lemma AddrSpecLoopStop(toks: seq<Token>, m: Match, domain: string, node: nat)
    requires ValidPos(toks, m.next)
    requires node == SkipComments(toks, m.next)
    requires toks[node].kind != AtSign || Domain(toks, node + 1).None?
    ensures AddrSpecLoop(toks, m, domain)
      == Pending(m.(next := node, comment := m.comment + CommentText(toks, m.next, node)), domain)
  {
  }

  lemma AtDomainsStep(toks: seq<Token>, p: nat, node: nat, r2: Match)
    requires ValidPos(toks, p)
    requires node == SkipComments(toks, p) && toks[node].kind == AtSign
    requires Domain(toks, node + 1) == Some(r2)
    ensures var c := AtDomains(toks, r2.next);
      AtDomains(toks, p).domains == [r2.addr] + c.domains && AtDomains(toks, p).end == c.end
  {
  }

  /** The loop reaches the same end as `AtDomains`, keeps the last domain
      it has seen pending, and has folded the others into the text. */
  predicate Folds(p: Pending, m: Match, domain: string, c: Chain) {
    var all := Seen(domain, c.domains);
    && p.m.next == c.end
    && p.domain == Last(all)
    && p.m.addr == m.addr + RouteText(all)
    && p.m.str == m.str + RouteText(all)
  }

  /** Taking one more domain `d` keeps `Folds`: the pending domain goes
      into the text before the rest. */
  lemma FoldsCons(p: Pending, m: Match, domain: string, m': Match, d: string, c': Chain)
    requires |d| > 0
    requires Folds(p, m', d, c')
    requires if |domain| > 0 then m'.addr == m.addr + "@" + domain && m'.str == m.str + "@" + domain
             else m'.addr == m.addr && m'.str == m.str
    ensures Folds(p, m, domain, Chain([d] + c'.domains, c'.end))
  {
    var ds := [d] + c'.domains;
    assert Seen(d, c'.domains) == ds;
    var pre: string := if |domain| > 0 then "@" + domain else [];
    assert RouteText(Seen(domain, ds)) == pre + RouteText(ds) && Last(Seen(domain, ds)) == Last(ds) by {
      if |domain| > 0 {
        assert ([domain] + ds)[1..] == ds;
      }
    }
    if |domain| > 0 {
      AppendAssoc(m.addr, "@", domain);
      AppendAssoc(m.str, "@", domain);
    }
    AppendAssoc(m.addr, pre, RouteText(ds));
    AppendAssoc(m.str, pre, RouteText(ds));
  }

  /** The match the addr-spec loop carries on with after taking the
      `@ domain` `r2` found at `node`. */
  function Turn(toks: seq<Token>, m: Match, domain: string, node: nat, r2: Match): (t: Match)
    requires m.next <= node <= |toks|
    ensures t.next == r2.next
  {
    var cur := m.(next := node, comment := m.comment + CommentText(toks, m.next, node));
    var folded :=
      if |domain| > 0 then cur.(str := cur.str + "@" + domain, addr := cur.addr + "@" + domain)
      else cur;
    folded.(next := r2.next, comment := folded.comment + r2.comment)
  }

  /** One turn of the loop that takes an `@ domain` keeps `Folds`. */
  lemma FoldsStep(toks: seq<Token>, m: Match, domain: string, node: nat, r2: Match)
    requires ValidPos(toks, m.next)
    requires node == SkipComments(toks, m.next) && toks[node].kind == AtSign
    requires Domain(toks, node + 1) == Some(r2)
    requires Folds(AddrSpecLoop(toks, Turn(toks, m, domain, node, r2), r2.addr), Turn(toks, m, domain, node, r2),
                   r2.addr, AtDomains(toks, r2.next))
    requires |r2.addr| > 0
    ensures Folds(AddrSpecLoop(toks, m, domain), m, domain, AtDomains(toks, m.next))
  {
    var m' := Turn(toks, m, domain, node, r2);
    AddrSpecLoopStep(toks, m, domain, node, r2);
    AtDomainsStep(toks, m.next, node, r2);
    FoldsCons(AddrSpecLoop(toks, m', r2.addr), m, domain, m', r2.addr, AtDomains(toks, r2.next));
  }

  /** The loop stops at `node`: no `@ domain` follows. */
  lemma FoldsEnd(toks: seq<Token>, m: Match, domain: string, node: nat)
    requires ValidPos(toks, m.next) && node == SkipComments(toks, m.next)
    requires toks[node].kind != AtSign || Domain(toks, node + 1).None?
    ensures Folds(AddrSpecLoop(toks, m, domain), m, domain, AtDomains(toks, m.next))
  {
    var p := AddrSpecLoop(toks, m, domain);
    var c := AtDomains(toks, m.next);
    assert p.m.next == node && p.domain == domain && p.m.addr == m.addr && p.m.str == m.str;
    assert c.end == node && c.domains == [];
    assert RouteText(Seen(domain, [])) == [] && Last(Seen(domain, [])) == domain;
    assert m.addr + [] == m.addr && m.str + [] == m.str;
  }

  lemma {:induction false} AddrSpecLoopFolds(toks: seq<Token>, m: Match, domain: string)
    requires ValidPos(toks, m.next)
    ensures Folds(AddrSpecLoop(toks, m, domain), m, domain, AtDomains(toks, m.next))
    decreases |toks| - m.next
  {
    var node := SkipComments(toks, m.next);
    if toks[node].kind != AtSign {
      FoldsEnd(toks, m, domain, node);
    } else {
      match Domain(toks, node + 1)
      case None =>
        FoldsEnd(toks, m, domain, node);
      case Some(r2) =>
        var t := Turn(toks, m, domain, node, r2);
        AddrSpecLoopFolds(toks, t, r2.addr);
        DomainNonEmpty(toks, node + 1);
        FoldsStep(toks, m, domain, node, r2);
    }
  }

  /** Source-route accumulation: for `l@d1@...@dn`, the address is the
      local part's address text, then `@d1...@d(n-1)@canon(dn)` and a line
      feed. The display text is the local part's display text, then the
      same `@d1...@d(n-1)@canon(dn)`, without the line feed. The two local
      part texts differ when it is a quoted string with a special
      character: the display shows it re-quoted. Only the last domain
      goes through `canonicalize`; with no `@` at all it is given the
      empty text. */
  lemma AddrSpecRouting(toks: seq<Token>, pos: nat, canon: Canon)
    requires ValidPos(toks, pos)
    ensures AddrSpec(toks, pos, canon).Some? <==> LocalPart(toks, pos).Some?
    ensures AddrSpec(toks, pos, canon).Some? ==>
      var l := LocalPart(toks, pos).value;
      var c := AtDomains(toks, l.next);
      var r := AddrSpec(toks, pos, canon).value;
      && r.next == c.end
      && r.addr == l.addr + RouteText(c.domains) + "@" + canon(Last(c.domains)) + "\n"
      && r.str == l.str + RouteText(c.domains) + "@" + canon(Last(c.domains))
  {
    match LocalPart(toks, pos)
    case None =>
    case Some(l) =>
      AddrSpecLoopFolds(toks, l, []);
      assert Seen([], AtDomains(toks, l.next).domains) == AtDomains(toks, l.next).domains;
  }

  /** Every address an addr-spec yields is non-empty and ends in the line
      feed `match_addr_spec` appends. */
  lemma AddrSpecLine(toks: seq<Token>, pos: nat, canon: Canon)
    requires ValidPos(toks, pos)
    ensures AddrSpec(toks, pos, canon).Some? ==>
      var a := AddrSpec(toks, pos, canon).value.addr;
      |a| > 0 && a[|a| - 1] == '\n'
  {
  }

  // ---------------------------------------------------------------------
  // Routes

  /** The `@ domain` segments a route reads from `p`, with no comment
      allowed before an `@`, and where they end; `None` when a domain
      fails after an `@`. */
  function RouteDomains(toks: seq<Token>, p: nat): (c: Option<Chain>)
    requires ValidPos(toks, p)
    ensures c.Some? ==> p <= c.value.end < |toks|
    decreases |toks| - p
  {
    if toks[p].kind != AtSign then Some(Chain([], p))
    else match Domain(toks, p + 1)
      case None => None
      case Some(d) =>
        match RouteDomains(toks, d.next)
        case None => None
        case Some(c) => Some(Chain([d.str] + c.domains, c.end))
  }

  /** What the loop of `match_route` does from `node` on, having shown
      `str` and taken `count` domains. */
  predicate RoutesAt(toks: seq<Token>, node: nat, str: string, comment: string, count: nat)
    requires ValidPos(toks, node)
  {
    var c := RouteDomains(toks, node);
    var r := RouteLoop(toks, node, str, comment, count);
    && (r.Some? <==>
          c.Some? && (count > 0 || |c.value.domains| > 0) &&
          toks[SkipComments(toks, c.value.end)].kind == Colon)
    && (r.Some? ==>
          && r.value.next == SkipComments(toks, c.value.end) + 1
          && r.value.addr == []
          && r.value.str == str + Prefixed("@", c.value.domains))
  }

  /** The turn of the route loop that finds no `@`. */
  lemma RoutesEnd(toks: seq<Token>, node: nat, str: string, comment: string, count: nat)
    requires ValidPos(toks, node) && toks[node].kind != AtSign
    ensures RoutesAt(toks, node, str, comment, count)
  {
    assert RouteDomains(toks, node) == Some(Chain([], node));
    assert str + Prefixed("@", []) == str;
  }

  /** One turn of the route loop that takes an `@ domain` keeps `RoutesAt`. */
  lemma RoutesStep(toks: seq<Token>, node: nat, str: string, comment: string, count: nat, d: Match)
    requires ValidPos(toks, node) && toks[node].kind == AtSign
    requires Domain(toks, node + 1) == Some(d)
    requires RoutesAt(toks, d.next, str + "@" + d.str, comment + d.comment, count + 1)
    ensures RoutesAt(toks, node, str, comment, count)
  {
    assert RouteLoop(toks, node, str, comment, count)
      == RouteLoop(toks, d.next, str + "@" + d.str, comment + d.comment, count + 1);
    match RouteDomains(toks, d.next)
    case None =>
    case Some(c) =>
      assert RouteDomains(toks, node) == Some(Chain([d.str] + c.domains, c.end));
      assert ([d.str] + c.domains)[1..] == c.domains;
      assert Prefixed("@", [d.str] + c.domains) == "@" + d.str + Prefixed("@", c.domains);
      AppendAssoc(str + "@", d.str, Prefixed("@", c.domains));
      AppendAssoc(str, "@", d.str + Prefixed("@", c.domains));
      AppendAssoc(str, "@" + d.str, Prefixed("@", c.domains));
  }

  lemma {:induction false} RouteLoopDomains(toks: seq<Token>, node: nat, str: string, comment: string, count: nat)
    requires ValidPos(toks, node)
    ensures RoutesAt(toks, node, str, comment, count)
    decreases |toks| - node
  {
    if toks[node].kind != AtSign {
      RoutesEnd(toks, node, str, comment, count);
    } else if Domain(toks, node + 1).Some? {
      var d := Domain(toks, node + 1).value;
      RouteLoopDomains(toks, d.next, str + "@" + d.str, comment + d.comment, count + 1);
      RoutesStep(toks, node, str, comment, count, d);
    }
  }

  /** route = 1#(AT domain) COLON: a route matches exactly when it starts
      with `@`, every `@` is followed by a domain, and after the last
      domain and any comments comes a `:`. It shows its domains, each
      after an `@`, and contributes no address text. */
  lemma RouteShape(toks: seq<Token>, pos: nat)
    requires ValidPos(toks, pos)
    ensures Route(toks, pos).Some? <==>
      && toks[pos].kind == AtSign
      && RouteDomains(toks, pos).Some?
      && toks[SkipComments(toks, RouteDomains(toks, pos).value.end)].kind == Colon
    ensures Route(toks, pos).Some? ==>
      var c := RouteDomains(toks, pos).value;
      var r := Route(toks, pos).value;
      && |c.domains| > 0
      && r.next == SkipComments(toks, c.end) + 1
      && r.addr == []
      && r.str == Prefixed("@", c.domains)
  {
    RouteLoopDomains(toks, pos, [], [], 0);
    match RouteDomains(toks, pos)
    case None =>
    case Some(c) =>
      assert [] + Prefixed("@", c.domains) == Prefixed("@", c.domains);
      if toks[pos].kind != AtSign {
        assert c.domains == [];
      }
  }

  // ---------------------------------------------------------------------
  // Route-addrs and mailboxes

  /** The loop of `match_domain` keeps, in its match and its accumulator
      together, the comments it has consumed. */
  lemma {:induction false} DomainLoopComments(toks: seq<Token>, start: nat, r: Match, comment: string)
    requires ValidPos(toks, r.next) && start <= r.next
    requires r.comment + comment == Comments(toks, start, r.next)
    ensures HoldsComments(toks, start, DomainLoop(toks, r, comment))
    decreases |toks| - r.next
  {
    var node := SkipComments(toks, r.next);
    var ct := CommentText(toks, r.next, node);
    var acc := comment + ct;
    SkipExtend(toks, r.comment + comment, start, r.next);
    AppendAssoc(r.comment, comment, ct);
    if toks[node].kind == Period && SubDomain(toks, node + 1).Some? {
      var r1 := SubDomain(toks, node + 1).value;
      SubDomainComments(toks, node + 1);
      PassOver(toks, start, node);
      var r' := Match(r1.next, r.str + "." + r1.str, r.comment, r.addr + "." + r1.addr);
      AppendAssoc(r.comment, acc, r1.comment);
      Extend(toks, r.comment + acc, r1.comment, start, node + 1, r1.next);
      assert DomainLoop(toks, r, comment) == DomainLoop(toks, r', acc + r1.comment);
      DomainLoopComments(toks, start, r', acc + r1.comment);
    }
  }

  lemma DomainComments(toks: seq<Token>, pos: nat)
    requires ValidPos(toks, pos)
    ensures Domain(toks, pos).Some? ==> HoldsComments(toks, pos, Domain(toks, pos).value)
  {
    match SubDomain(toks, pos)
    case None =>
    case Some(r) =>
      SubDomainComments(toks, pos);
      assert r.comment + [] == r.comment;
      DomainLoopComments(toks, pos, r, []);
  }

  lemma {:induction false} LocalPartLoopComments(toks: seq<Token>, start: nat, r: Match)
    requires ValidPos(toks, r.next) && HoldsComments(toks, start, r)
    ensures HoldsComments(toks, start, LocalPartLoop(toks, r))
    decreases |toks| - r.next
  {
    var node := SkipComments(toks, r.next);
    if toks[node].kind == Period && Word(toks, node + 1).Some? {
      var r1 := Word(toks, node + 1).value;
      var c := r.comment + CommentText(toks, r.next, node);
      var cur := r.(next := node, comment := c);
      var n := Match(r1.next, cur.str + "." + r1.str, c + r1.comment, cur.addr + "." + r1.addr);
      assert HoldsComments(toks, start, n) by {
        SkipExtend(toks, r.comment, start, r.next);
        WordComments(toks, node + 1);
        PassOver(toks, start, node);
        Extend(toks, c, r1.comment, start, node + 1, r1.next);
      }
      assert LocalPartLoop(toks, r) == LocalPartLoop(toks, n) by {
        LocalPartLoopStep(toks, r, node);
      }
      LocalPartLoopComments(toks, start, n);
    } else {
      SkipExtend(toks, r.comment, start, r.next);
      LocalPartLoopEnd(toks, r, node);
    }
  }

  lemma LocalPartComments(toks: seq<Token>, pos: nat)
    requires ValidPos(toks, pos)
    ensures LocalPart(toks, pos).Some? ==> HoldsComments(toks, pos, LocalPart(toks, pos).value)
  {
    if Word(toks, pos).Some? {
      WordComments(toks, pos);
      LocalPartLoopComments(toks, pos, Word(toks, pos).value);
    }
  }

  lemma {:induction false} AddrSpecLoopComments(toks: seq<Token>, start: nat, m: Match, domain: string)
    requires ValidPos(toks, m.next) && HoldsComments(toks, start, m)
    ensures HoldsComments(toks, start, AddrSpecLoop(toks, m, domain).m)
    decreases |toks| - m.next
  {
    var node := SkipComments(toks, m.next);
    SkipExtend(toks, m.comment, start, m.next);
    if toks[node].kind != AtSign || Domain(toks, node + 1).None? {
      AddrSpecLoopStop(toks, m, domain, node);
    } else {
      var r2 := Domain(toks, node + 1).value;
      var t := Turn(toks, m, domain, node, r2);
      DomainComments(toks, node + 1);
      PassOver(toks, start, node);
      Extend(toks, m.comment + CommentText(toks, m.next, node), r2.comment, start, node + 1, r2.next);
      assert t.comment == m.comment + CommentText(toks, m.next, node) + r2.comment;
      AddrSpecLoopStep(toks, m, domain, node, r2);
      AddrSpecLoopComments(toks, start, t, r2.addr);
    }
  }

  /** An addr-spec holds back exactly the comments it consumed. */
  lemma AddrSpecComments(toks: seq<Token>, pos: nat, canon: Canon)
    requires ValidPos(toks, pos)
    ensures AddrSpec(toks, pos, canon).Some? ==> HoldsComments(toks, pos, AddrSpec(toks, pos, canon).value)
  {
    if LocalPart(toks, pos).Some? {
      LocalPartComments(toks, pos);
      AddrSpecLoopComments(toks, pos, LocalPart(toks, pos).value, []);
    }
  }

  /** The route loop from `node`, having consumed the comments from
      `start`, holds back exactly those comments when it matches. */
  predicate RouteHolds(toks: seq<Token>, start: nat, node: nat, str: string, comment: string, count: nat)
    requires ValidPos(toks, node)
  {
    RouteLoop(toks, node, str, comment, count).Some? ==>
      HoldsComments(toks, start, RouteLoop(toks, node, str, comment, count).value)
  }

  /** The turn of the route loop that finds no `@`. */
  lemma RouteHoldsEnd(toks: seq<Token>, start: nat, node: nat, str: string, comment: string, count: nat)
    requires ValidPos(toks, node) && start <= node && comment == Comments(toks, start, node)
    requires toks[node].kind != AtSign
    ensures RouteHolds(toks, start, node, str, comment, count)
  {
    var q := SkipComments(toks, node);
    if count > 0 && toks[q].kind == Colon {
      assert RouteLoop(toks, node, str, comment, count)
        == Some(Match(q + 1, str, comment + CommentText(toks, node, q), []));
      SkipExtend(toks, comment, start, node);
      PassOver(toks, start, q);
    } else {
      assert RouteLoop(toks, node, str, comment, count).None?;
    }
  }

  /** A turn of the route loop that takes an `@ domain` hands on what it
      holds. */
  lemma RouteHoldsStep(toks: seq<Token>, start: nat, node: nat, str: string, comment: string, count: nat, d: Match)
    requires ValidPos(toks, node) && toks[node].kind == AtSign && Domain(toks, node + 1) == Some(d)
    requires RouteHolds(toks, start, d.next, str + "@" + d.str, comment + d.comment, count + 1)
    ensures RouteHolds(toks, start, node, str, comment, count)
  {
    assert RouteLoop(toks, node, str, comment, count)
      == RouteLoop(toks, d.next, str + "@" + d.str, comment + d.comment, count + 1);
  }

  lemma {:induction false} RouteLoopComments(toks: seq<Token>, start: nat, node: nat, str: string, comment: string, count: nat)
    requires ValidPos(toks, node) && start <= node && comment == Comments(toks, start, node)
    ensures RouteLoop(toks, node, str, comment, count).Some? ==>
      HoldsComments(toks, start, RouteLoop(toks, node, str, comment, count).value)
    decreases |toks| - node
  {
    if toks[node].kind != AtSign {
      RouteHoldsEnd(toks, start, node, str, comment, count);
    } else if Domain(toks, node + 1).Some? {
      var d := Domain(toks, node + 1).value;
      DomainComments(toks, node + 1);
      PassOver(toks, start, node);
      Extend(toks, comment, d.comment, start, node + 1, d.next);
      RouteLoopComments(toks, start, d.next, str + "@" + d.str, comment + d.comment, count + 1);
      RouteHoldsStep(toks, start, node, str, comment, count, d);
    }
  }

  /** A route holds back exactly the comments it consumed. */
  lemma RouteComments(toks: seq<Token>, pos: nat)
    requires ValidPos(toks, pos)
    ensures Route(toks, pos).Some? ==> HoldsComments(toks, pos, Route(toks, pos).value)
  {
    RouteLoopComments(toks, pos, pos, [], [], 0);
  }

  /** The comments before the `<` of a route-addr and after it, up to `q`. */
  lemma AroundOpen(toks: seq<Token>, pos: nat, open: nat, rc: string, q: nat)
    requires ValidPos(toks, pos) && open == SkipComments(toks, pos) && open < q <= |toks|
    requires rc == Comments(toks, open + 1, q)
    ensures CommentText(toks, pos, open) + rc == Comments(toks, pos, q)
  {
    SkippedComments(toks, pos);
    PassOver(toks, pos, open);
    Extend(toks, CommentText(toks, pos, open), rc, pos, open + 1, q);
  }

  /** The comments a route-addr gathers before its addr-spec are those of
      the tokens before it. */
  lemma LeadingComments(toks: seq<Token>, pos: nat, open: nat)
    requires ValidPos(toks, pos) && open == SkipComments(toks, pos) && toks[open].kind == LABracket
    ensures LeadingComment(toks, pos, open) == Comments(toks, pos, SpecStart(toks, open))
  {
    match Route(toks, open + 1)
    case Some(r1) =>
      RouteComments(toks, open + 1);
      assert SpecStart(toks, open) == r1.next;
      assert LeadingComment(toks, pos, open) == CommentText(toks, pos, open) + r1.comment;
      AroundOpen(toks, pos, open, r1.comment, r1.next);
    case None =>
      assert SpecStart(toks, open) == open + 1;
      assert LeadingComment(toks, pos, open) == CommentText(toks, pos, open) + [];
      AroundOpen(toks, pos, open, [], open + 1);
  }

  /** route-addr = LABRACKET [route] addr-spec RABRACKET: after comments
      a `<`, an addr-spec after the route when one matches there, then
      after comments a `>`. The address is exactly the addr-spec's; the
      display is the addr-spec's in angle brackets followed by every
      comment of the route-addr, in order. The route's domains show in
      neither. */
  lemma RouteAddrShape(toks: seq<Token>, pos: nat, canon: Canon)
    requires ValidPos(toks, pos)
    ensures var open := SkipComments(toks, pos);
      RouteAddr(toks, pos, canon).Some? <==>
        && toks[open].kind == LABracket
        && AddrSpec(toks, SpecStart(toks, open), canon).Some?
        && toks[SkipComments(toks, AddrSpec(toks, SpecStart(toks, open), canon).value.next)].kind == RABracket
    ensures RouteAddr(toks, pos, canon).Some? ==>
      var a := AddrSpec(toks, SpecStart(toks, SkipComments(toks, pos)), canon).value;
      var r := RouteAddr(toks, pos, canon).value;
      && r.next == SkipComments(toks, a.next) + 1
      && r.addr == a.addr && r.comment == []
      && r.str == "<" + a.str + ">" + Comments(toks, pos, r.next)
  {
    var open := SkipComments(toks, pos);
    if toks[open].kind != LABracket {
      assert RouteAddr(toks, pos, canon).None?;
    } else {
      var q := SpecStart(toks, open);
      var lead := LeadingComment(toks, pos, open);
      assert RouteAddr(toks, pos, canon) == RouteAddrClose(toks, AddrSpec(toks, q, canon), lead);
      match AddrSpec(toks, q, canon)
      case None =>
      case Some(a) =>
        var close := SkipComments(toks, a.next);
        if toks[close].kind == RABracket {
          var trailing := lead + a.comment + CommentText(toks, a.next, close);
          assert RouteAddr(toks, pos, canon) == Some(Match(close + 1, "<" + a.str + ">" + trailing, [], a.addr));
          RouteAddrTrailing(toks, pos, open, canon, a, close);
        }
    }
  }

  /** Every comment of a closed route-addr, in order: before the `<`, in
      the route, in the addr-spec and before the `>`. */
  lemma RouteAddrTrailing(toks: seq<Token>, pos: nat, open: nat, canon: Canon, a: Match, close: nat)
    requires ValidPos(toks, pos) && open == SkipComments(toks, pos) && toks[open].kind == LABracket
    requires AddrSpec(toks, SpecStart(toks, open), canon) == Some(a)
    requires close == SkipComments(toks, a.next) && toks[close].kind == RABracket
    ensures LeadingComment(toks, pos, open) + a.comment + CommentText(toks, a.next, close) == Comments(toks, pos, close + 1)
  {
    var q := SpecStart(toks, open);
    var lead := LeadingComment(toks, pos, open);
    LeadingComments(toks, pos, open);
    AddrSpecComments(toks, q, canon);
    Extend(toks, lead, a.comment, pos, q, a.next);
    SkipExtend(toks, lead + a.comment, pos, a.next);
    PassOver(toks, pos, close);
  }

  /** Where the route-addr of a route-spec starts: after its phrase, when
      one matches, at `pos` otherwise. */
  function PhraseEnd(toks: seq<Token>, pos: nat): (q: nat)
    requires ValidPos(toks, pos)
    ensures pos <= q < |toks|
  {
    var p := Phrase(toks, pos);
    if p.Some? then p.value.next else pos
  }

  /** route-spec = [phrase] route-addr: a route-spec matches exactly when
      a route-addr does after the phrase, or at `pos` without one. Its
      end and address text are that route-addr's, and it holds back no
      comment. It shows the phrase, the phrase's comments, a space and
      the route-addr's display; without a phrase, the route-addr's
      display alone. */
  lemma RouteSpecShape(toks: seq<Token>, pos: nat, canon: Canon)
    requires ValidPos(toks, pos)
    ensures RouteSpec(toks, pos, canon).Some? <==> RouteAddr(toks, PhraseEnd(toks, pos), canon).Some?
    ensures RouteSpec(toks, pos, canon).Some? ==>
      var ra := RouteAddr(toks, PhraseEnd(toks, pos), canon).value;
      var r := RouteSpec(toks, pos, canon).value;
      && r.next == ra.next && r.addr == ra.addr && r.comment == []
      && r.str == if Phrase(toks, pos).None? then ra.str
                  else Phrase(toks, pos).value.str + Comments(toks, pos, PhraseEnd(toks, pos)) + " " + ra.str
  {
    var node := PhraseEnd(toks, pos);
    RouteAddrShape(toks, node, canon);
    match RouteAddr(toks, node, canon)
    case None =>
    case Some(ra) =>
      match Phrase(toks, pos)
      case None =>
      case Some(p) =>
        PhraseText(toks, pos);
        assert RouteSpec(toks, pos, canon) == Some(ra.(str := p.str + p.comment + " " + ra.str + ra.comment));
        assert p.str + p.comment + " " + ra.str + [] == p.str + p.comment + " " + ra.str;
  }

  /** A mailbox's address is the address of one addr-spec, so it ends in a
      line feed. */
  lemma MailboxAddress(toks: seq<Token>, pos: nat, canon: Canon)
    requires ValidPos(toks, pos)
    ensures Mailbox(toks, pos, canon).Some? ==>
      var r := Mailbox(toks, pos, canon).value;
      && (exists q | pos <= q < |toks| :: AddrSpec(toks, q, canon).Some? && AddrSpec(toks, q, canon).value.addr == r.addr)
      && |r.addr| > 0 && r.addr[|r.addr| - 1] == '\n'
  {
    if RouteSpec(toks, pos, canon).Some? {
      var node := PhraseEnd(toks, pos);
      RouteSpecShape(toks, pos, canon);
      RouteAddrShape(toks, node, canon);
      var q := SpecStart(toks, SkipComments(toks, node));
      AddrSpecLine(toks, q, canon);
    } else if AddrSpec(toks, pos, canon).Some? {
      AddrSpecLine(toks, pos, canon);
    }
  }

  // ---------------------------------------------------------------------
  // Lists of addresses

  /** A canonical address list: empty, or ending in a line feed. Each
      address ends in one, though a quoted local part may hold more. */
  predicate IsLines(a: string) {
    a == [] || a[|a| - 1] == '\n'
  }

  lemma LinesAppend(a: string, b: string)
    requires IsLines(a) && IsLines(b)
    ensures IsLines(a + b)
  {
    if b == [] {
      assert a + b == a;
    }
  }

  lemma {:induction false} MailboxesLoopLines(toks: seq<Token>, r1: Match, canon: Canon)
    requires ValidPos(toks, r1.next) && |r1.addr| > 0 && IsLines(r1.addr)
    ensures var m := MailboxesLoop(toks, r1, canon); |m.addr| > 0 && IsLines(m.addr)
    decreases |toks| - r1.next
  {
    var sep := SkipSeparators(toks, r1.next);
    var str := r1.str + sep.text;
    var node := sep.next;
    if toks[node].kind != Eot {
      match Mailbox(toks, node, canon)
      case None =>
      case Some(r2) =>
        MailboxAddress(toks, node, canon);
        LinesAppend(r1.addr, r2.addr);
        MailboxesLoopLines(toks, Match(r2.next, str + ", " + r2.str + r2.comment, r1.comment, r1.addr + r2.addr), canon);
    }
  }

  /** A mailbox list's address text is non-empty and ends in a line feed. */
  lemma MailboxesLines(toks: seq<Token>, pos: nat, canon: Canon)
    requires ValidPos(toks, pos)
    ensures Mailboxes(toks, pos, canon).Some? ==>
      var a := Mailboxes(toks, pos, canon).value.addr;
      |a| > 0 && IsLines(a)
  {
    match Mailbox(toks, pos, canon)
    case None =>
    case Some(r1) =>
      MailboxAddress(toks, pos, canon);
      MailboxesLoopLines(toks, Match(r1.next, r1.str + r1.comment, [], r1.addr), canon);
  }

  /** The members a list loop reads: for each, the comments among the
      commas before it, its display followed by the comments it holds, and
      its address text; then the comments among the commas after the last
      member, and the token where the loop stops. */
  datatype Listed = Listed(gaps: seq<string>, shown: seq<string>, addrs: seq<string>, tail: string, end: nat)

  /** Each member's display after the comments before it and `", "`. */
  function Listing(gaps: seq<string>, shown: seq<string>): string
    requires |gaps| == |shown|
    decreases |shown|
  {
    if shown == [] then [] else gaps[0] + ", " + shown[0] + Listing(gaps[1..], shown[1..])
  }

  /** Showing `gap, s` and then the rest is showing all of them. */
  lemma ListingStep(a: string, gap: string, s: string, gaps: seq<string>, shown: seq<string>, tail: string)
    requires |gaps| == |shown|
    ensures (a + gap + ", " + s) + Listing(gaps, shown) + tail == a + Listing([gap] + gaps, [s] + shown) + tail
  {
    assert ([gap] + gaps)[1..] == gaps && ([s] + shown)[1..] == shown;
    assert Listing([gap] + gaps, [s] + shown) == gap + ", " + s + Listing(gaps, shown);
  }

  /** A list loop's result after it takes the member `a` behind the
      comments `gap`, in terms of the members after `a`, is its result in
      terms of the members from `a` on. */
  lemma ListedCons(r1: Match, a: Match, gap: string, l: Listed, l': Listed, m: Match)
    requires |l'.gaps| == |l'.shown|
    requires l == Listed([gap] + l'.gaps, [a.str + a.comment] + l'.shown, [a.addr] + l'.addrs, l'.tail, l'.end)
    requires m.addr == (r1.addr + a.addr) + Concat(l'.addrs)
    requires m.str == (r1.str + gap + ", " + a.str + a.comment) + Listing(l'.gaps, l'.shown) + l'.tail
    ensures m.addr == r1.addr + Concat(l.addrs)
    ensures m.str == r1.str + Listing(l.gaps, l.shown) + l.tail
  {
    ConcatCons(r1.addr, a.addr, l'.addrs);
    assert r1.str + gap + ", " + a.str + a.comment == r1.str + gap + ", " + (a.str + a.comment);
    ListingStep(r1.str, gap, a.str + a.comment, l'.gaps, l'.shown, l'.tail);
  }

  /** The text the separator loop appends is the comments among the commas
      and comments it skips. */
  lemma {:induction false} SeparatorsComments(toks: seq<Token>, p: nat)
    requires ValidPos(toks, p)
    ensures SkipSeparators(toks, p).text == Comments(toks, p, SkipSeparators(toks, p).next)
    decreases |toks| - p
  {
    var q := SkipComments(toks, p);
    SkippedComments(toks, p);
    if toks[q].kind == Comma {
      var k := SkipSeparators(toks, q + 1);
      assert SkipSeparators(toks, p) == Skip(k.next, CommentText(toks, p, q) + k.text);
      SeparatorsComments(toks, q + 1);
      PassOver(toks, p, q);
      Extend(toks, CommentText(toks, p, q), k.text, p, q + 1, k.next);
    } else {
      assert SkipSeparators(toks, p) == Skip(q, CommentText(toks, p, q));
    }
  }

  /** The mailboxes the loop of `match_mailboxes` reads from `p` on, and
      the token where it stops: past every comma and comment, on the end
      of the text or on a token that starts no mailbox. */
  function MoreMailboxes(toks: seq<Token>, p: nat, canon: Canon): (l: Listed)
    requires ValidPos(toks, p)
    ensures p <= l.end < |toks| && |l.gaps| == |l.shown| == |l.addrs|
    ensures toks[l.end].kind != Comment && toks[l.end].kind != Comma
    ensures toks[l.end].kind == Eot || Mailbox(toks, l.end, canon).None?
    decreases |toks| - p
  {
    var node := SkipSeparators(toks, p).next;
    var gap := Comments(toks, p, node);
    if toks[node].kind == Eot then Listed([], [], [], gap, node)
    else match Mailbox(toks, node, canon)
      case None => Listed([], [], [], gap, node)
      case Some(a) =>
        var l := MoreMailboxes(toks, a.next, canon);
        Listed([gap] + l.gaps, [a.str + a.comment] + l.shown, [a.addr] + l.addrs, l.tail, l.end)
  }

  /** What the loop of `match_mailboxes` does from `r1` on: it stops where
      the list ends, adds the addresses of the list in order, and shows
      the members after the comments before each comma, then the comments
      after the last. */
  predicate MailboxesAt(toks: seq<Token>, r1: Match, canon: Canon)
    requires ValidPos(toks, r1.next)
  {
    var l := MoreMailboxes(toks, r1.next, canon);
    var m := MailboxesLoop(toks, r1, canon);
    && m.next == l.end && m.comment == r1.comment && m.addr == r1.addr + Concat(l.addrs)
    && m.str == r1.str + Listing(l.gaps, l.shown) + l.tail
  }

  lemma MailboxesEnd(toks: seq<Token>, r1: Match, canon: Canon, node: nat)
    requires ValidPos(toks, r1.next) && node == SkipSeparators(toks, r1.next).next
    requires toks[node].kind == Eot || Mailbox(toks, node, canon).None?
    ensures MailboxesAt(toks, r1, canon)
  {
    var l := MoreMailboxes(toks, r1.next, canon);
    var sep := SkipSeparators(toks, r1.next);
    SeparatorsComments(toks, r1.next);
    assert l == Listed([], [], [], sep.text, node);
    assert SkipComments(toks, node) == node;
    assert MailboxesLoop(toks, r1, canon) == r1.(str := r1.str + sep.text, next := node);
    assert r1.addr + Concat([]) == r1.addr;
    assert r1.str + Listing([], []) + sep.text == r1.str + sep.text;
  }

  lemma MoreMailboxesStep(toks: seq<Token>, p: nat, canon: Canon, node: nat, a: Match)
    requires ValidPos(toks, p) && node == SkipSeparators(toks, p).next && toks[node].kind != Eot
    requires Mailbox(toks, node, canon) == Some(a)
    ensures var l := MoreMailboxes(toks, a.next, canon);
      MoreMailboxes(toks, p, canon)
        == Listed([Comments(toks, p, node)] + l.gaps, [a.str + a.comment] + l.shown, [a.addr] + l.addrs, l.tail, l.end)
  {
  }

  lemma MailboxesLoopStep(toks: seq<Token>, r1: Match, canon: Canon, node: nat, a: Match, r1': Match)
    requires ValidPos(toks, r1.next) && node == SkipSeparators(toks, r1.next).next && toks[node].kind != Eot
    requires Mailbox(toks, node, canon) == Some(a)
    requires r1' == Match(a.next, r1.str + SkipSeparators(toks, r1.next).text + ", " + a.str + a.comment,
                          r1.comment, r1.addr + a.addr)
    ensures MailboxesLoop(toks, r1, canon) == MailboxesLoop(toks, r1', canon)
  {
  }

  /** One turn of the loop that takes a mailbox keeps `MailboxesAt`. */
  lemma MailboxesStep(toks: seq<Token>, r1: Match, canon: Canon, node: nat, a: Match, r1': Match)
    requires ValidPos(toks, r1.next) && node == SkipSeparators(toks, r1.next).next && toks[node].kind != Eot
    requires Mailbox(toks, node, canon) == Some(a)
    requires r1' == Match(a.next, r1.str + SkipSeparators(toks, r1.next).text + ", " + a.str + a.comment,
                          r1.comment, r1.addr + a.addr)
    requires MailboxesAt(toks, r1', canon)
    ensures MailboxesAt(toks, r1, canon)
  {
    var l := MoreMailboxes(toks, r1.next, canon);
    var l' := MoreMailboxes(toks, a.next, canon);
    var gap := SkipSeparators(toks, r1.next).text;
    assert l == Listed([gap] + l'.gaps, [a.str + a.comment] + l'.shown, [a.addr] + l'.addrs, l'.tail, l'.end) by {
      MoreMailboxesStep(toks, r1.next, canon, node, a);
      SeparatorsComments(toks, r1.next);
    }
    assert MailboxesLoop(toks, r1, canon) == MailboxesLoop(toks, r1', canon) by {
      MailboxesLoopStep(toks, r1, canon, node, a, r1');
    }
    ListedCons(r1, a, gap, l, l', MailboxesLoop(toks, r1, canon));
  }

  lemma {:induction false} MailboxesLoopList(toks: seq<Token>, r1: Match, canon: Canon)
    requires ValidPos(toks, r1.next)
    ensures MailboxesAt(toks, r1, canon)
    decreases |toks| - r1.next
  {
    var sep := SkipSeparators(toks, r1.next);
    var node := sep.next;
    if toks[node].kind == Eot || Mailbox(toks, node, canon).None? {
      MailboxesEnd(toks, r1, canon, node);
    } else {
      var a := Mailbox(toks, node, canon).value;
      var r1' := Match(a.next, r1.str + sep.text + ", " + a.str + a.comment, r1.comment, r1.addr + a.addr);
      MailboxesLoopList(toks, r1', canon);
      MailboxesStep(toks, r1, canon, node, a, r1');
    }
  }

  /** mailboxes = mailbox *(*(COMMA) mailbox): it matches exactly when a
      first mailbox does. Its address text is the members' addresses
      concatenated in input order, it holds back no comment, and it
      consumes every comma and comment after the last member, stopping on
      the end of the text or on a token that starts no mailbox. */
  lemma MailboxesOrder(toks: seq<Token>, pos: nat, canon: Canon)
    requires ValidPos(toks, pos)
    ensures Mailboxes(toks, pos, canon).Some? <==> Mailbox(toks, pos, canon).Some?
    ensures Mailboxes(toks, pos, canon).Some? ==>
      var a := Mailbox(toks, pos, canon).value;
      var l := MoreMailboxes(toks, a.next, canon);
      var r := Mailboxes(toks, pos, canon).value;
      && r.addr == Concat([a.addr] + l.addrs)
      && r.str == a.str + a.comment + Listing(l.gaps, l.shown) + l.tail
      && r.comment == []
      && r.next == l.end
      && toks[r.next].kind != Comma && toks[r.next].kind != Comment
      && (toks[r.next].kind == Eot || Mailbox(toks, r.next, canon).None?)
  {
    match Mailbox(toks, pos, canon)
    case None =>
    case Some(a) =>
      MailboxesLoopList(toks, Match(a.next, a.str + a.comment, [], a.addr), canon);
      var more := MoreMailboxes(toks, a.next, canon).addrs;
      assert ([a.addr] + more)[1..] == more;
  }

  /** Where the member list of a group that starts at `q` ends: after the
      list when one matches there, at `q` otherwise. */
  function MembersEnd(toks: seq<Token>, q: nat, canon: Canon): (e: nat)
    requires ValidPos(toks, q)
    ensures q <= e < |toks|
  {
    var ms := Mailboxes(toks, q, canon);
    if ms.Some? then ms.value.next else q
  }

  /** group = phrase COLON [#mailboxes] SEMICOLON: it matches exactly when
      a phrase and a `:` come, then, after the member list when one
      matches and after comments, a `;`. Its address text is the member
      list's, empty when no list matches. It shows the phrase, `": "`,
      the list, the comments before the `;`, and the `;`: the phrase's
      own comments are dropped. */
  lemma GroupMembers(toks: seq<Token>, pos: nat, canon: Canon)
    requires ValidPos(toks, pos)
    ensures Group(toks, pos, canon).Some? <==>
      && Phrase(toks, pos).Some?
      && toks[Phrase(toks, pos).value.next].kind == Colon
      && toks[SkipComments(toks, MembersEnd(toks, Phrase(toks, pos).value.next + 1, canon))].kind == Semicolon
    ensures Group(toks, pos, canon).Some? ==>
      var p := Phrase(toks, pos).value;
      var ms := Mailboxes(toks, p.next + 1, canon);
      var node := MembersEnd(toks, p.next + 1, canon);
      var close := SkipComments(toks, node);
      var r := Group(toks, pos, canon).value;
      && r.next == close + 1
      && r.comment == []
      && r.addr == (if ms.Some? then ms.value.addr else [])
      && r.str == p.str + ": " + (if ms.Some? then ms.value.str else []) + Comments(toks, node, close) + ";"
  {
    match Phrase(toks, pos)
    case None =>
    case Some(p) =>
      if toks[p.next].kind == Colon {
        var q := p.next + 1;
        var ms := Mailboxes(toks, q, canon);
        var node := MembersEnd(toks, q, canon);
        var members := if ms.Some? then ms.value else Match(0, [], [], []);
        if ms.Some? {
          MailboxesOrder(toks, q, canon);
        }
        assert members.comment == [];
        assert members.str == (if ms.Some? then ms.value.str else []);
        GroupUnfold(toks, pos, canon, p);
        var close := SkipComments(toks, node);
        SkippedComments(toks, node);
        if toks[close].kind == Semicolon {
          GroupText(p.str, members.str, members.comment, CommentText(toks, node, close));
        }
      }
  }

  /** A group with its phrase and `:` ends as `GroupClose` after the
      member list. */
  lemma GroupUnfold(toks: seq<Token>, pos: nat, canon: Canon, p: Match)
    requires ValidPos(toks, pos) && Phrase(toks, pos) == Some(p) && toks[p.next].kind == Colon
    ensures var ms := Mailboxes(toks, p.next + 1, canon);
      Group(toks, pos, canon)
        == GroupClose(toks, p.str, if ms.Some? then ms.value else Match(0, [], [], []), MembersEnd(toks, p.next + 1, canon))
  {
  }

  /** The member list holds back no comment, so the group shows nothing
      for it; a separate lemma keeps this step out of `GroupMembers`'s
      own proof. */
  lemma GroupText(phrase: string, members: string, comment: string, between: string)
    requires comment == []
    ensures phrase + ": " + members + comment + between + ";" == phrase + ": " + members + between + ";"
  {
    assert phrase + ": " + members + comment == phrase + ": " + members;
  }

  /** A group's address text is its members' addresses, empty when it has
      none: either way empty or ending in a line feed. */
  lemma GroupLines(toks: seq<Token>, pos: nat, canon: Canon)
    requires ValidPos(toks, pos)
    ensures Group(toks, pos, canon).Some? ==> IsLines(Group(toks, pos, canon).value.addr)
  {
    match Phrase(toks, pos)
    case None =>
    case Some(r1) =>
      if toks[r1.next].kind == Colon {
        MailboxesLines(toks, r1.next + 1, canon);
      }
  }

  /** Every address's text is empty or ends in a line feed. */
  lemma AddressLines(toks: seq<Token>, pos: nat, canon: Canon)
    requires ValidPos(toks, pos)
    ensures Address(toks, pos, canon).Some? ==> IsLines(Address(toks, pos, canon).value.addr)
  {
    GroupLines(toks, pos, canon);
    if Group(toks, pos, canon).None? {
      MailboxAddress(toks, pos, canon);
    }
  }

  /** The addresses the loop of `match_addresses` reads from `p` on, and
      the token where it stops. */

  function MoreAddresses(toks: seq<Token>, p: nat, canon: Canon): (l: Listed)
    requires ValidPos(toks, p)
    ensures p <= l.end < |toks| && |l.gaps| == |l.shown| == |l.addrs|
    decreases |toks| - p
  {
    var node := SkipSeparators(toks, p).next;
    var gap := Comments(toks, p, node);
    if toks[node].kind == Eot then Listed([], [], [], gap, node)
    else match Address(toks, node, canon)
      case None => Listed([], [], [], gap, node)
      case Some(a) =>
        var l := MoreAddresses(toks, a.next, canon);
        Listed([gap] + l.gaps, [a.str + a.comment] + l.shown, [a.addr] + l.addrs, l.tail, l.end)
  }

  function Concat(ss: seq<string>): string
    decreases |ss|
  {
    if ss == [] then [] else ss[0] + Concat(ss[1..])
  }

  /** What the loop of `match_addresses` does from `r1` on: it succeeds
      exactly when the list ends on the end of the text, and then adds the
      addresses of the list, in order. */
  predicate ListsAt(toks: seq<Token>, r1: Match, canon: Canon)
    requires ValidPos(toks, r1.next)
  {
    var l := MoreAddresses(toks, r1.next, canon);
    var r := AddressesLoop(toks, r1, canon);
    && (r.Some? <==> toks[l.end].kind == Eot)
    && (r.Some? ==> r.value.addr == r1.addr + Concat(l.addrs))
    && (r.Some? ==> r.value.str == r1.str + Listing(l.gaps, l.shown) + l.tail)
  }

  /** The loop stops at `node`: no address follows the separators. */
  lemma ListsEnd(toks: seq<Token>, r1: Match, canon: Canon, node: nat)
    requires ValidPos(toks, r1.next) && node == SkipSeparators(toks, r1.next).next
    requires toks[node].kind == Eot || Address(toks, node, canon).None?
    ensures ListsAt(toks, r1, canon)
  {
    var l := MoreAddresses(toks, r1.next, canon);
    var sep := SkipSeparators(toks, r1.next);
    SeparatorsComments(toks, r1.next);
    assert l == Listed([], [], [], sep.text, node);
    assert SkipComments(toks, node) == node;
    assert AddressesLoop(toks, r1, canon) == CloseAddresses(toks, r1.(str := r1.str + sep.text), node);
    assert r1.addr + Concat([]) == r1.addr;
    assert r1.str + Listing([], []) + sep.text == r1.str + sep.text;
  }

  lemma MoreAddressesStep(toks: seq<Token>, p: nat, canon: Canon, node: nat, a: Match)
    requires ValidPos(toks, p) && node == SkipSeparators(toks, p).next && toks[node].kind != Eot
    requires Address(toks, node, canon) == Some(a)
    ensures var l := MoreAddresses(toks, a.next, canon);
      MoreAddresses(toks, p, canon)
        == Listed([Comments(toks, p, node)] + l.gaps, [a.str + a.comment] + l.shown, [a.addr] + l.addrs, l.tail, l.end)
  {
  }

  lemma AddressesLoopStep(toks: seq<Token>, r1: Match, canon: Canon, node: nat, a: Match, r1': Match)
    requires ValidPos(toks, r1.next) && node == SkipSeparators(toks, r1.next).next && toks[node].kind != Eot
    requires Address(toks, node, canon) == Some(a)
    requires r1' == Match(a.next, r1.str + SkipSeparators(toks, r1.next).text + ", " + a.str + a.comment,
                          r1.comment, r1.addr + a.addr)
    ensures AddressesLoop(toks, r1, canon) == AddressesLoop(toks, r1', canon)
  {
  }

  lemma ConcatCons(a: string, b: string, ss: seq<string>)
    ensures (a + b) + Concat(ss) == a + Concat([b] + ss)
  {
    assert ([b] + ss)[1..] == ss;
    assert (a + b) + Concat(ss) == a + (b + Concat(ss));
  }

  /** One turn of the loop that takes an address keeps `ListsAt`. */
  lemma ListsStep(toks: seq<Token>, r1: Match, canon: Canon, node: nat, a: Match, r1': Match)
    requires ValidPos(toks, r1.next) && node == SkipSeparators(toks, r1.next).next && toks[node].kind != Eot
    requires Address(toks, node, canon) == Some(a)
    requires r1' == Match(a.next, r1.str + SkipSeparators(toks, r1.next).text + ", " + a.str + a.comment,
                          r1.comment, r1.addr + a.addr)
    requires ListsAt(toks, r1', canon)
    ensures ListsAt(toks, r1, canon)
  {
    var l := MoreAddresses(toks, r1.next, canon);
    var l' := MoreAddresses(toks, a.next, canon);
    var gap := SkipSeparators(toks, r1.next).text;
    assert l == Listed([gap] + l'.gaps, [a.str + a.comment] + l'.shown, [a.addr] + l'.addrs, l'.tail, l'.end) by {
      MoreAddressesStep(toks, r1.next, canon, node, a);
      SeparatorsComments(toks, r1.next);
    }
    assert AddressesLoop(toks, r1, canon) == AddressesLoop(toks, r1', canon) by {
      AddressesLoopStep(toks, r1, canon, node, a, r1');
    }
    if AddressesLoop(toks, r1, canon).Some? {
      ListedCons(r1, a, gap, l, l', AddressesLoop(toks, r1, canon).value);
    }
  }

  lemma {:induction false} AddressesLoopList(toks: seq<Token>, r1: Match, canon: Canon)
    requires ValidPos(toks, r1.next)
    ensures ListsAt(toks, r1, canon)
    decreases |toks| - r1.next
  {
    var sep := SkipSeparators(toks, r1.next);
    var node := sep.next;
    if toks[node].kind == Eot || Address(toks, node, canon).None? {
      ListsEnd(toks, r1, canon, node);
    } else {
      var a := Address(toks, node, canon).value;
      var r1' := Match(a.next, r1.str + sep.text + ", " + a.str + a.comment, r1.comment, r1.addr + a.addr);
      AddressesLoopList(toks, r1', canon);
      ListsStep(toks, r1, canon, node, a, r1');
    }
  }

  /** `addresses` yields the members' addresses concatenated in input
      order, and succeeds exactly when its loop ends on the end of the
      list: anything else left over, after any trailing commas and
      comments, is a failure. */
  lemma AddressesOrder(toks: seq<Token>, pos: nat, canon: Canon)
    requires ValidPos(toks, pos)
    ensures Addresses(toks, pos, canon).Some? <==>
      Address(toks, pos, canon).Some? &&
      toks[MoreAddresses(toks, Address(toks, pos, canon).value.next, canon).end].kind == Eot
    ensures Addresses(toks, pos, canon).Some? ==>
      var a := Address(toks, pos, canon).value;
      var l := MoreAddresses(toks, a.next, canon);
      var r := Addresses(toks, pos, canon).value;
      && r.addr == Concat([a.addr] + l.addrs)
      && r.str == a.str + a.comment + Listing(l.gaps, l.shown) + l.tail
  {
    match Address(toks, pos, canon)
    case None =>
    case Some(a) =>
      var r1 := Match(a.next, a.str + a.comment, [], a.addr);
      AddressesLoopList(toks, r1, canon);
      var more := MoreAddresses(toks, a.next, canon).addrs;
      assert ([a.addr] + more)[1..] == more;
  }
}
