/** What `quote` and `unquote` promise, and how they meet the lexer. */
module QuotingProps {
  import opened Wrappers
  import opened Chars
  import opened Tokenizer
  import opened Quoting

  lemma {:induction false} EscapedLength(s: string)
    ensures |s| <= |Escaped(s)| <= 2 * |s|
    ensures HasSymbol(s) ==> |s| < |Escaped(s)|
    decreases |s|
  {
    if s != [] {
      EscapedLength(s[1..]);
      if HasSymbol(s) && !IsSymbol(s[0]) {
        var k :| 0 <= k < |s| && IsSymbol(s[k]);
        assert s[1..][k - 1] == s[k];
      }
    }
  }

  /** The output of `quote` is at most twice the input plus the two quotes,
      the bound its stack buffer is sized by. */
  lemma QuotedLength(s: string)
    ensures |Quoted(s)| <= 2 * |s| + 2
  {
    EscapedLength(s);
  }

  /** `quote` leaves a text alone exactly when it has no symbol character. */
  lemma QuotedUnchanged(s: string)
    ensures Quoted(s) == s <==> !HasSymbol(s)
  {
    EscapedLength(s);
  }

  lemma {:induction false} EscapedPlain(s: string)
    requires !HasSymbol(s)
    ensures Escaped(s) == s
    decreases |s|
  {
    if s != [] {
      assert !IsSymbol(s[0]);
      assert forall k | 0 <= k < |s[1..]| :: s[1..][k] == s[k + 1];
      EscapedPlain(s[1..]);
    }
  }

  /** Unescaping the escaped text gives the text back, wherever it sits in
      memory. */
  lemma {:induction false} UnescapeEscaped(s: string, pre: string, post: string)
    ensures var u := pre + Escaped(s) + post;
      && !Dangles(u, |pre|, |Escaped(s)|)
      && UnescapeFrom(u, |pre|, |Escaped(s)|) == s
    decreases |s|
  {
    var u := pre + Escaped(s) + post;
    if s != [] {
      var c := s[0];
      var pre' := pre + Piece(c);
      var n := |Escaped(s[1..])|;
      assert Escaped(s) == Piece(c) + Escaped(s[1..]);
      assert u == pre' + Escaped(s[1..]) + post;
      UnescapeEscaped(s[1..], pre', post);
      assert u[|pre|] == Piece(c)[0];
      assert s == [c] + s[1..];
      if IsSymbol(c) {
        assert u[|pre| + 1] == c;
        assert IsQPair(u, |pre|);
        assert UnescapeFrom(u, |pre|, n + 2) == [c] + UnescapeFrom(u, |pre'|, n);
      } else {
        assert !IsQPair(u, |pre|);
        assert UnescapeFrom(u, |pre|, n + 1) == [c] + UnescapeFrom(u, |pre'|, n);
      }
    }
  }

  /** `unquote` undoes `quote`, on every text: this is what lets the word
      rule show a quoted string re-quoted while keeping its raw content. */
  lemma UnquoteQuote(s: string)
    ensures UnquoteDefined(Quoted(s)) && Unquoted(Quoted(s)) == s
  {
    if HasSymbol(s) {
      UnescapeEscaped(s, [QUOTE], [QUOTE]);
      EscapedLength(s);
    } else {
      EscapedPlain(s);
      UnescapeEscaped(s, [], []);
      assert s == [] + Escaped(s) + [];
      if |s| > 0 {
        assert !IsSymbol(s[0]);
      }
    }
  }

  lemma {:induction false} QContentNoDangle(s: string, i: nat, n: nat)
    requires i + n <= |s| && QContent(s[i..i + n])
    ensures !Dangles(s, i, n)
    decreases n
  {
    var t := s[i..i + n];
    if n > 0 {
      if IsQText(t[0]) {
        assert t[1..] == s[i + 1..i + n];
        QContentNoDangle(s, i + 1, n - 1);
      } else {
        assert t[2..] == s[i + 2..i + n];
        QContentNoDangle(s, i + 2, n - 2);
      }
    }
  }

  /** The text of every quoted-string token is a valid input of `unquote`. */
  lemma QuotedTokenUnquotes(t: Token)
    requires ValidToken(t) && t.kind == QuotedString
    ensures UnquoteDefined(t.text)
  {
    QContentNoDangle(t.text, 1, |t.text| - 2);
  }

  /** A text without symbol characters (an atom's, say) passes through
      `unquote` unchanged. */
  lemma UnquotePlain(s: string)
    requires !HasSymbol(s)
    ensures UnquoteDefined(s) && Unquoted(s) == s
  {
    UnquoteQuote(s);
    QuotedUnchanged(s);
  }

  lemma {:induction false} QTextEndEscaped(s: string, pre: string, post: string)
    requires forall k | 0 <= k < |s| :: s[k] != NUL && s[k] != CR
    requires |post| > 0 && post[0] == QUOTE
    ensures QTextEnd(pre + Escaped(s) + post, |pre|) == |pre| + |Escaped(s)|
    decreases |s|
  {
    var u := pre + Escaped(s) + post;
    if s == [] {
      assert u[|pre|] == QUOTE;
    } else {
      var c := s[0];
      var pre' := pre + Piece(c);
      assert u == pre' + Escaped(s[1..]) + post;
      QTextEndEscaped(s[1..], pre', post);
      assert u[|pre|] == Piece(c)[0];
      if IsSymbol(c) {
        assert u[|pre| + 1] == c;
        assert QTextEnd(u, |pre|) == QTextEnd(u, |pre| + 2);
      } else {
        assert QTextEnd(u, |pre|) == QTextEnd(u, |pre| + 1);
      }
    }
  }

  /** A text with a symbol character and no line feed, once quoted, scans
      back as one quoted-string token whatever follows it; `UnquoteQuote`
      then gives the text back from that token. */
  lemma QuotedRescans(s: string, rest: string)
    requires HasSymbol(s)
    requires forall k | 0 <= k < |s| :: s[k] != NUL && s[k] != CR
    ensures var q := Quoted(s);
      ScanQuotedString(q + rest, 0) == Some(Scanned(Token(QuotedString, q), |q|))
  {
    var q := Quoted(s);
    var u := q + rest;
    var e := 1 + |Escaped(s)|;
    QTextEndEscaped(s, [QUOTE], [QUOTE] + rest);
    assert u == [QUOTE] + Escaped(s) + ([QUOTE] + rest);
    assert QTextEnd(u, 1) == e;
    assert CharAt(u, 0) == QUOTE && CharAt(u, e) == QUOTE;
    assert u[0..e + 1] == q;
  }

  lemma {:induction false} AtomRun(s: string, rest: string, i: nat)
    requires i <= |s| && forall k | i <= k < |s| :: IsAtom(s[k])
    requires !IsAtom(CharAt(rest, 0))
    ensures AtomEnd(s + rest, i) == |s|
    decreases |s| - i
  {
    var u := s + rest;
    if i < |s| {
      assert u[i] == s[i];
      AtomRun(s, rest, i + 1);
    } else {
      assert CharAt(u, i) == CharAt(rest, 0);
    }
  }

  /** A non-empty run of atom characters is left alone by `quote` and
      scans back as one atom token, whatever follows that cannot continue
      an atom. */
  lemma AtomRescans(s: string, rest: string)
    requires |s| > 0 && forall k | 0 <= k < |s| :: IsAtom(s[k])
    requires !IsAtom(CharAt(rest, 0))
    ensures Quoted(s) == s
    ensures NextToken(s + rest, 0) == Some(Scanned(Token(Atom, s), |s|))
  {
    assert !HasSymbol(s);
    QuotedUnchanged(s);
    var u := s + rest;
    assert u[0] == s[0] && !IsSpace(u[0]);
    assert SkipSpaces(u, 0) == 0;
    AtomRun(s, rest, 0);
    assert u[0..|s|] == s;
  }

  /** The steps of the tokenizer over `John Doe`. */
  lemma SpaceScan()
    ensures NextToken("John Doe", 0) == Some(Scanned(Token(Atom, "John"), 4))
    ensures NextToken("John Doe", 4) == Some(Scanned(Token(Atom, "Doe"), 8))
    ensures NextToken("John Doe", 8) == Some(Scanned(Token(Eot, []), 8))
  {
    var s := "John Doe";
    assert AtomEnd(s, 0) == 4;
    assert s[0..4] == "John";
    assert SkipSpaces(s, 4) == 5;
    assert AtomEnd(s, 5) == 8;
    assert s[5..8] == "Doe";
  }

  /** A text with a space and no special is not quoted, so it does not
      scan back as one token: the display of the local part
      `"John Doe"` is `John Doe`, which reads as two atoms. */
  lemma SpaceNotRequoted()
    ensures Quoted("John Doe") == "John Doe"
    ensures Tokens("John Doe") == Some([Token(Atom, "John"), Token(Atom, "Doe"), Token(Eot, [])])
  {
    var s := "John Doe";
    assert forall k | 0 <= k < |s| :: !IsSymbol(s[k]);
    QuotedUnchanged(s);
    SpaceScan();
    var eot := Token(Eot, []);
    assert TokensFrom(s, 8) == Some([eot]);
    assert TokensFrom(s, 4) == Some([Token(Atom, "Doe")] + [eot]);
    assert [Token(Atom, "John")] + ([Token(Atom, "Doe")] + [eot]) == [Token(Atom, "John"), Token(Atom, "Doe"), eot];
  }
}
