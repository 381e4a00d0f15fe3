/** What the lexer of lib/address.cc promises about the tokens it makes. */
module TokenizerProps {
  import opened Wrappers
  import opened Chars
  import opened Tokenizer

  // ---------------------------------------------------------------------
  // Comments

  /** Scanning a comment that was entered at depth `d` and closes at `j`,
      with `e` more parentheses open around it, carries on from `j` at
      depth `e`: the depth counter sees an inner comment as one unit. */
  lemma {:induction false} CommentSplice(s: string, i: nat, d: nat, e: nat, j: nat)
    requires d >= 1 && e >= 1
    requires CommentEnd(s, i, d) == Some(j)
    ensures CommentEnd(s, i, d + e) == CommentEnd(s, j, e)
    decreases |s| - i
  {
    var ch := CharAt(s, i);
    if IsQPair(s, i) {
      CommentSplice(s, i + 2, d, e, j);
    } else if ch == LPAREN {
      CommentSplice(s, i + 1, d + 1, e, j);
    } else if ch == RPAREN {
      if d > 1 {
        CommentSplice(s, i + 1, d - 1, e, j);
      }
    } else {
      CommentSplice(s, i + 1, d, e, j);
    }
  }

  /** A comment nested in an open comment is skipped whole: from its `(`
      the outer scan resumes just past its matching `)` at the same depth. */
  lemma NestedComment(s: string, k: nat, d: nat, j: nat)
    requires d >= 1 && CharAt(s, k) == LPAREN
    requires CommentEnd(s, k + 1, 1) == Some(j)
    ensures CommentEnd(s, k, d) == CommentEnd(s, j, d)
  {
    CommentSplice(s, k + 1, 1, d, j);
    assert CommentEnd(s, k, d) == CommentEnd(s, k + 1, 1 + d);
  }

  /** A line feed reached while a comment is open, with no `)` and no
      escape before it, makes the comment scan fail. */
  lemma {:induction false} CommentBrokenByNewline(s: string, i: nat, d: nat, m: nat)
    requires d >= 1 && i <= m < |s| && s[m] == CR
    requires forall k | i <= k < m :: s[k] != RPAREN && s[k] != ESCAPE
    ensures CommentEnd(s, i, d) == None
    decreases m - i
  {
    if i < m {
      if CharAt(s, i) == NUL {
      } else if CharAt(s, i) == LPAREN {
        CommentBrokenByNewline(s, i + 1, d + 1, m);
      } else {
        CommentBrokenByNewline(s, i + 1, d, m);
      }
    }
  }

  /** A comment token runs from its `(` to the `)` that closes it, both
      included, and its text is a comment by the grammar of RFC 822; a
      text with no `)` after the `(` has no comment. */
  lemma CommentToken(s: string, p: nat)
    ensures ScanComment(s, p).Some? ==>
      var sc := ScanComment(s, p).value;
      && sc.tok == Token(Comment, s[p..sc.next])
      && p + 2 <= sc.next <= |s|
      && s[p] == LPAREN && s[sc.next - 1] == RPAREN
      && IsComment(sc.tok.text)
    ensures (forall k | p < k < |s| :: s[k] != RPAREN) ==> ScanComment(s, p) == None
  {
    if ScanComment(s, p).Some? {
      ScanIsComment(s, p, ScanComment(s, p).value.next);
    }
  }

  // ---------------------------------------------------------------------
  // Comments against the grammar of RFC 822

  /** An element of a comment's body by section 3.3 of RFC 822: a ctext
      character, a quoted pair, or a comment nested in it. */
  datatype CItem = CText(c: char) | CPair(c: char) | Nested(body: seq<CItem>)

  /** ctext: any character but the parentheses, the escape, the line feed
      and the terminator. */
  predicate IsCText(c: char) {
    c != NUL && c != LPAREN && c != RPAREN && c != ESCAPE && c != CR
  }

  predicate ItemOk(it: CItem)
    decreases it
  {
    match it
    case CText(c) => IsCText(c)
    case CPair(c) => c != NUL
    case Nested(b) => BodyOk(b)
  }

  predicate BodyOk(items: seq<CItem>)
    decreases items
  {
    items == [] || (ItemOk(items[0]) && BodyOk(items[1..]))
  }

  function ItemText(it: CItem): string
    decreases it
  {
    match it
    case CText(c) => [c]
    case CPair(c) => [ESCAPE, c]
    case Nested(b) => [LPAREN] + BodyText(b) + [RPAREN]
  }

  function BodyText(items: seq<CItem>): string
    decreases items
  {
    if items == [] then [] else ItemText(items[0]) + BodyText(items[1..])
  }

  /** comment = "(" *(ctext / quoted-pair / comment) ")" */
  ghost predicate IsComment(t: string) {
    exists items | BodyOk(items) :: t == [LPAREN] + BodyText(items) + [RPAREN]
  }

  /** `t` stands in `s` from `i` on. */
  predicate At(s: string, i: nat, t: string) {
    i + |t| <= |s| && forall k | 0 <= k < |t| :: s[i + k] == t[k]
  }

  lemma AtSplit(s: string, i: nat, a: string, b: string)
    requires At(s, i, a + b)
    ensures At(s, i, a) && At(s, i + |a|, b)
  {
    assert forall k | 0 <= k < |a| :: (a + b)[k] == a[k];
    assert forall k | 0 <= k < |b| :: (a + b)[|a| + k] == b[k];
  }

  lemma AtJoin(s: string, i: nat, a: string, b: string)
    requires At(s, i, a) && At(s, i + |a|, b)
    ensures At(s, i, a + b)
  {
    forall k | 0 <= k < |a + b|
      ensures s[i + k] == (a + b)[k]
    {
      if k >= |a| {
        assert s[i + k] == s[(i + |a|) + (k - |a|)];
      }
    }
  }

  lemma AtHead(s: string, i: nat, t: string)
    requires At(s, i, t) && |t| > 0
    ensures s[i] == t[0]
  {
    assert s[i + 0] == t[0];
  }

  lemma AtSlice(s: string, i: nat, j: nat)
    requires i <= j <= |s|
    ensures At(s, i, s[i..j])
  {
  }

  lemma AtIsSlice(s: string, i: nat, t: string)
    requires At(s, i, t)
    ensures s[i..i + |t|] == t
  {
  }

  /** The depth counter passes over a well-formed element at any depth. */
  lemma {:induction false} ItemScans(s: string, i: nat, d: nat, it: CItem)
    requires d >= 1 && ItemOk(it) && At(s, i, ItemText(it))
    ensures CommentEnd(s, i, d) == CommentEnd(s, i + |ItemText(it)|, d)
    decreases it
  {
    AtHead(s, i, ItemText(it));
    match it
    case CText(c) =>
    case CPair(c) =>
      assert [ESCAPE] + [c] == [ESCAPE, c];
      AtSplit(s, i, [ESCAPE], [c]);
      AtHead(s, i + 1, [c]);
    case Nested(b) =>
      var bt := BodyText(b);
      AtSplit(s, i, [LPAREN] + bt, [RPAREN]);
      AtSplit(s, i, [LPAREN], bt);
      BodyScans(s, i + 1, d + 1, b);
      AtHead(s, i + 1 + |bt|, [RPAREN]);
  }

  /** The depth counter passes over a well-formed body at any depth. */
  lemma {:induction false} BodyScans(s: string, i: nat, d: nat, items: seq<CItem>)
    requires d >= 1 && BodyOk(items) && At(s, i, BodyText(items))
    ensures CommentEnd(s, i, d) == CommentEnd(s, i + |BodyText(items)|, d)
    decreases items
  {
    if items != [] {
      var a := ItemText(items[0]);
      AtSplit(s, i, a, BodyText(items[1..]));
      ItemScans(s, i, d, items[0]);
      BodyScans(s, i + |a|, d, items[1..]);
    }
  }

  /** A scan at depth `d + e` that closes passes, on its way, the point
      where depth `d` closes. */
  lemma {:induction false} CommentUnsplice(s: string, i: nat, d: nat, e: nat, j: nat)
    requires d >= 1 && e >= 1
    requires CommentEnd(s, i, d + e) == Some(j)
    ensures CommentEnd(s, i, d).Some?
    decreases |s| - i
  {
    var ch := CharAt(s, i);
    if IsQPair(s, i) {
      CommentUnsplice(s, i + 2, d, e, j);
    } else if ch == LPAREN {
      CommentUnsplice(s, i + 1, d + 1, e, j);
    } else if ch == RPAREN {
      if d > 1 {
        CommentUnsplice(s, i + 1, d - 1, e, j);
      }
    } else if ch != NUL && ch != CR {
      CommentUnsplice(s, i + 1, d, e, j);
    }
  }

  /** An element followed by a body stands in the text as their join. */
  lemma ConsAt(s: string, i: nat, it: CItem, rest: seq<CItem>)
    requires ItemOk(it) && BodyOk(rest)
    requires At(s, i, ItemText(it)) && At(s, i + |ItemText(it)|, BodyText(rest))
    ensures BodyOk([it] + rest) && At(s, i, BodyText([it] + rest))
    ensures |BodyText([it] + rest)| == |ItemText(it)| + |BodyText(rest)|
  {
    assert ([it] + rest)[1..] == rest;
    AtJoin(s, i, ItemText(it), BodyText(rest));
  }

  /** A body between a `(` at `i` and a `)` at `k - 1` stands there as a
      nested comment. */
  lemma NestedAt(s: string, i: nat, k: nat, inner: seq<CItem>)
    requires i < k <= |s| && s[i] == LPAREN && s[k - 1] == RPAREN
    requires At(s, i + 1, BodyText(inner)) && i + 1 + |BodyText(inner)| == k - 1
    ensures At(s, i, ItemText(Nested(inner))) && |ItemText(Nested(inner))| == k - i
  {
    assert At(s, i, [LPAREN]) && At(s, k - 1, [RPAREN]);
    AtJoin(s, i, [LPAREN], BodyText(inner));
    AtJoin(s, i, [LPAREN] + BodyText(inner), [RPAREN]);
  }

  /** What the depth counter passes over before the `)` that closes depth
      1 is a well-formed comment body. */
  lemma {:induction false} ScannedBody(s: string, i: nat, j: nat) returns (items: seq<CItem>)
    requires CommentEnd(s, i, 1) == Some(j)
    ensures BodyOk(items) && At(s, i, BodyText(items)) && i + |BodyText(items)| == j - 1
    decreases |s| - i
  {
    var ch := CharAt(s, i);
    if IsQPair(s, i) {
      var rest := ScannedBody(s, i + 2, j);
      var it := CPair(s[i + 1]);
      assert At(s, i, ItemText(it));
      ConsAt(s, i, it, rest);
      items := [it] + rest;
    } else if ch == LPAREN {
      assert CommentEnd(s, i + 1, 1 + 1) == Some(j);
      CommentUnsplice(s, i + 1, 1, 1, j);
      var k := CommentEnd(s, i + 1, 1).value;
      CommentSplice(s, i + 1, 1, 1, k);
      var inner := ScannedBody(s, i + 1, k);
      var rest := ScannedBody(s, k, j);
      NestedAt(s, i, k, inner);
      ConsAt(s, i, Nested(inner), rest);
      items := [Nested(inner)] + rest;
    } else if ch == RPAREN {
      items := [];
    } else {
      var rest := ScannedBody(s, i + 1, j);
      var it := CText(ch);
      assert At(s, i, ItemText(it));
      ConsAt(s, i, it, rest);
      items := [it] + rest;
    }
  }

  /** The comment scan against the grammar: it stops at `e` exactly when
      the text from `p` to `e` is a comment. So it takes the `)` where the
      depth first returns to zero, and fails on an unclosed comment or on
      a line feed that is not part of a quoted pair. */
  lemma CommentGrammar(s: string, p: nat, e: nat)
    requires p <= e <= |s|
    ensures (ScanComment(s, p).Some? && ScanComment(s, p).value.next == e) <==> IsComment(s[p..e])
  {
    if ScanComment(s, p).Some? && ScanComment(s, p).value.next == e {
      ScanIsComment(s, p, e);
    }
    if IsComment(s[p..e]) {
      CommentIsScanned(s, p, e);
    }
  }

  lemma ScanIsComment(s: string, p: nat, e: nat)
    requires ScanComment(s, p).Some? && ScanComment(s, p).value.next == e
    ensures e <= |s| && IsComment(s[p..e])
  {
    var items := ScannedBody(s, p + 1, e);
    var t := [LPAREN] + BodyText(items) + [RPAREN];
    NestedAt(s, p, e, items);
    assert ItemText(Nested(items)) == t;
    AtIsSlice(s, p, t);
  }

  lemma CommentIsScanned(s: string, p: nat, e: nat)
    requires p <= e <= |s| && IsComment(s[p..e])
    ensures ScanComment(s, p).Some? && ScanComment(s, p).value.next == e
  {
    var items :| BodyOk(items) && s[p..e] == [LPAREN] + BodyText(items) + [RPAREN];
    var t := BodyText(items);
    AtSlice(s, p, e);
    assert At(s, p, [LPAREN] + t + [RPAREN]);
    assert e == p + 1 + |t| + 1;
    AtSplit(s, p, [LPAREN] + t, [RPAREN]);
    AtSplit(s, p, [LPAREN], t);
    AtHead(s, p, [LPAREN]);
    AtHead(s, p + 1 + |t|, [RPAREN]);
    assert CharAt(s, p) == LPAREN;
    assert CommentEnd(s, p + 1 + |t|, 1) == Some(e);
    BodyScans(s, p + 1, 1, items);
  }

  /** The comment scan fails exactly when no comment starts at `p`. */
  lemma CommentFails(s: string, p: nat)
    requires p <= |s|
    ensures ScanComment(s, p).None? <==> forall e | p <= e <= |s| :: !IsComment(s[p..e])
  {
    if ScanComment(s, p).Some? {
      CommentToken(s, p);
      CommentGrammar(s, p, ScanComment(s, p).value.next);
    } else {
      forall e | p <= e <= |s|
        ensures !IsComment(s[p..e])
      {
        CommentGrammar(s, p, e);
      }
    }
  }

  /** A nested comment must close too, and a bare line feed breaks a
      comment even after a nested one has closed; an escaped one does not. */
  lemma CommentExamples()
    ensures ScanComment("(a(b)", 0).None?
    ensures ScanComment("(a(b)\nc)", 0).None?
    ensures ScanComment("(a(b)\\\nc)x", 0).Some? && ScanComment("(a(b)\\\nc)x", 0).value.next == 9
  {
  }

  // ---------------------------------------------------------------------
  // Quoted strings and domain literals

  lemma {:induction false} QTextEndContent(s: string, i: nat)
    requires i <= |s|
    ensures QContent(s[i..QTextEnd(s, i)])
    decreases |s| - i
  {
    var e := QTextEnd(s, i);
    var t := s[i..e];
    if IsQText(CharAt(s, i)) {
      QTextEndContent(s, i + 1);
      assert t[1..] == s[i + 1..e];
    } else if IsQPair(s, i) {
      QTextEndContent(s, i + 2);
      assert t[2..] == s[i + 2..e];
    } else {
      assert t == [];
    }
  }

  /** A quoted-string token runs from the opening `"` through the closing
      `"`, and between them holds only qtext and quoted pairs. */
  lemma QuotedStringToken(s: string, p: nat)
    ensures ScanQuotedString(s, p).Some? ==>
      var sc := ScanQuotedString(s, p).value;
      && sc.tok.kind == QuotedString && sc.tok.text == s[p..sc.next]
      && p + 2 <= sc.next <= |s|
      && s[p] == QUOTE && s[sc.next - 1] == QUOTE
      && QContent(s[p + 1..sc.next - 1])
    ensures (forall k | p < k < |s| :: s[k] != QUOTE) ==> ScanQuotedString(s, p) == None
  {
    if CharAt(s, p) == QUOTE {
      QTextEndContent(s, p + 1);
    }
  }

  /** A body of qtext and quoted pairs that a character of neither kind
      follows is exactly what the body scan passes over. */
  lemma {:induction false} QTextEndOf(s: string, i: nat, e: nat)
    requires i <= e <= |s| && QContent(s[i..e])
    requires !IsQText(CharAt(s, e)) && !IsQPair(s, e)
    ensures QTextEnd(s, i) == e
    decreases e - i
  {
    if i < e {
      var t := s[i..e];
      if IsQText(t[0]) {
        assert t[1..] == s[i + 1..e];
        QTextEndOf(s, i + 1, e);
      } else {
        assert t[2..] == s[i + 2..e];
        assert IsQPair(s, i);
        QTextEndOf(s, i + 2, e);
      }
    }
  }

  /** The quoted-string scan against the grammar: it ends just past `e`
      exactly when `e` holds a `"` and only qtext and quoted pairs lie
      between it and the opening `"`. */
  lemma QuotedStringGrammar(s: string, p: nat, e: nat)
    requires p < e <= |s|
    ensures (ScanQuotedString(s, p).Some? && ScanQuotedString(s, p).value.next == e + 1)
      <==> (CharAt(s, p) == QUOTE && QContent(s[p + 1..e]) && CharAt(s, e) == QUOTE)
  {
    if CharAt(s, p) == QUOTE {
      QTextEndContent(s, p + 1);
      if QContent(s[p + 1..e]) && CharAt(s, e) == QUOTE {
        QTextEndOf(s, p + 1, e);
      }
    }
  }

  /** The quoted-string scan fails exactly when no closing `"` is reached
      through qtext and quoted pairs alone: a line feed, an escape before
      the terminator, or the end of the text comes first. */
  lemma QuotedStringFails(s: string, p: nat)
    ensures ScanQuotedString(s, p).None? <==>
      forall e | p < e <= |s| :: !(CharAt(s, p) == QUOTE && QContent(s[p + 1..e]) && CharAt(s, e) == QUOTE)
  {
    if ScanQuotedString(s, p).Some? {
      QuotedStringToken(s, p);
      QuotedStringGrammar(s, p, ScanQuotedString(s, p).value.next - 1);
    } else {
      forall e | p < e <= |s|
        ensures !(CharAt(s, p) == QUOTE && QContent(s[p + 1..e]) && CharAt(s, e) == QUOTE)
      {
        QuotedStringGrammar(s, p, e);
      }
    }
  }

  /** An escaped closing quote does not close, and a bare line feed breaks
      a quoted string. */
  lemma QuotedStringExamples()
    ensures ScanQuotedString("\"ab\\\"", 0).None?
    ensures ScanQuotedString("\"a\nb\"", 0).None?
    ensures ScanQuotedString("\"a\\\nb\"", 0).Some?
  {
  }

  /** A domain-literal token is `[` up to but not including the `]`, and
      the scan leaves the cursor on that `]`. */
  lemma DomainLiteralToken(s: string, p: nat)
    ensures ScanDomainLiteral(s, p).Some? ==>
      var sc := ScanDomainLiteral(s, p).value;
      && sc.tok == Token(DomainLiteral, s[p..sc.next])
      && p < sc.next < |s|
      && s[p] == LSQBRACKET && s[sc.next] == RSQBRACKET
  {
  }

  // ---------------------------------------------------------------------
  // The whole list

  lemma ScanQuotedStringValid(s: string, i: nat)
    ensures ScanQuotedString(s, i).Some? ==> ValidToken(ScanQuotedString(s, i).value.tok)
  {
    QuotedStringToken(s, i);
    if ScanQuotedString(s, i).Some? {
      var sc := ScanQuotedString(s, i).value;
      var t := sc.tok.text;
      assert t == s[i..sc.next] && |t| == sc.next - i;
      var body := t[1..|t| - 1];
      assert body == s[i + 1..sc.next - 1] by {
        forall k | 0 <= k < |body|
          ensures body[k] == s[i + 1..sc.next - 1][k]
        {
          assert body[k] == t[k + 1] == s[i + 1 + k];
        }
      }
    }
  }

  lemma ScanAtomValid(s: string, i: nat)
    ensures ScanAtom(s, i).Some? ==> ValidToken(ScanAtom(s, i).value.tok)
  {
    if IsAtom(CharAt(s, i)) {
      var e := AtomEnd(s, i);
      assert AtomEnd(s, i) == AtomEnd(s, i + 1);
      assert forall k | 0 <= k < e - i :: s[i..e][k] == s[i + k];
    }
  }

  lemma NextTokenValid(s: string, p: nat)
    ensures NextToken(s, p).Some? ==> ValidToken(NextToken(s, p).value.tok)
  {
    var i := SkipSpaces(s, p);
    ScanQuotedStringValid(s, i);
    ScanAtomValid(s, i);
    CommentToken(s, i);
    DomainLiteralToken(s, i);
  }

  /** `tokenize` returns a list only if every step succeeds, and that list
      ends in exactly one `Eot` and holds only well-formed tokens. */
  lemma {:induction false} TokensFromStream(s: string, p: nat)
    ensures TokensFrom(s, p).Some? ==> Stream(TokensFrom(s, p).value)
    decreases |s| - p
  {
    NextTokenValid(s, p);
    match NextToken(s, p)
    case None =>
    case Some(sc) =>
      if sc.tok.kind != Eot {
        TokensFromStream(s, sc.next);
        match TokensFrom(s, sc.next)
        case None =>
        case Some(rest) =>
          var ts := [sc.tok] + rest;
          forall i | 0 <= i < |ts|
            ensures TokenOk(ts, i)
          {
            if i > 0 {
              assert ts[i] == rest[i - 1] && TokenOk(rest, i - 1);
            }
          }
          assert forall i | 1 <= i < |ts| :: ts[i] == rest[i - 1];
      }
  }

  lemma TokensStream(s: string)
    ensures Tokens(s).Some? ==> Stream(Tokens(s).value)
  {
    TokensFromStream(s, 0);
  }

  /** The step after a domain literal starts on its `]` and fails. */
  lemma DomainLiteralStops(s: string, p: nat)
    requires NextToken(s, p).Some? && NextToken(s, p).value.tok.kind == DomainLiteral
    ensures NextToken(s, NextToken(s, p).value.next).None?
  {
    var sc := NextToken(s, p).value;
    var i := SkipSpaces(s, p);
    assert ScanDomainLiteral(s, i) == Some(sc);
    DomainLiteralToken(s, i);
    assert SkipSpaces(s, sc.next) == sc.next;
  }

  lemma NoDomainLiteralCons(t: Token, rest: seq<Token>)
    requires t.kind != DomainLiteral
    requires forall i | 0 <= i < |rest| :: rest[i].kind != DomainLiteral
    ensures forall i | 0 <= i < |[t] + rest| :: ([t] + rest)[i].kind != DomainLiteral
  {
    var ts := [t] + rest;
    assert forall i | 1 <= i < |ts| :: ts[i] == rest[i - 1];
  }

  /** Whatever comes after a domain literal, the next step sees the `]`,
      which starts no token: the tokenizer as written never yields a
      domain-literal token, so any text that holds one outside a comment
      or a quoted string is rejected. */
  lemma {:induction false} NoDomainLiteral(s: string, p: nat)
    ensures TokensFrom(s, p).Some? ==>
      forall i | 0 <= i < |TokensFrom(s, p).value| :: TokensFrom(s, p).value[i].kind != DomainLiteral
    decreases |s| - p
  {
    match NextToken(s, p)
    case None =>
    case Some(sc) =>
      if sc.tok.kind == DomainLiteral {
        DomainLiteralStops(s, p);
      } else if sc.tok.kind != Eot {
        NoDomainLiteral(s, sc.next);
        if TokensFrom(s, sc.next).Some? {
          NoDomainLiteralCons(sc.tok, TokensFrom(s, sc.next).value);
        }
      }
  }

  /** Whitespace between tokens is dropped. */
  lemma SpacesIgnored(s: string, p: nat)
    requires IsSpace(CharAt(s, p))
    ensures TokensFrom(s, p) == TokensFrom(s, p + 1)
  {
    assert SkipSpaces(s, p) == SkipSpaces(s, p + 1);
    assert NextToken(s, p) == NextToken(s, p + 1);
  }

  /** A token may not start with `]` or with a control character that is
      not a space: the step fails and so does the whole call. */
  lemma BadCharFails(s: string, p: nat)
    requires var c := CharAt(s, SkipSpaces(s, p));
      c == RSQBRACKET || (IsCtl(c) && c != NUL && !IsSpace(c))
    ensures NextToken(s, p) == None && TokensFrom(s, p) == None
  {
  }
}
