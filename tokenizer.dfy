/** The lexer of lib/address.cc: it turns the header text into a list of
    typed tokens that ends in a single end-of-text token.

    Each scanner is given twice: a function that says where the scan ends
    (the specification, used by the grammar and the lemmas) and a method
    that walks the cursor with a loop as the source does and is proved to
    compute that function. A failed scan is `None`; where the cursor stood
    after a failed scan is not modelled, because the only caller drops it. */
module Tokenizer {
  import opened Wrappers
  import opened Chars

  /** `node_type`, without the `EMPTY` kind of the list head the source
      allocates and frees inside `tokenize`. */
  datatype Kind =
    | Eot | Atom | QuotedString | DomainLiteral | Comment
    | LABracket | RABracket | AtSign | Comma | Semicolon | Colon | Escape | Period

  /** A token and its text; the one-character kinds and `Eot` carry none. */
  datatype Token = Token(kind: Kind, text: string)

  /** A token the scanner produced and the cursor just past it. */
  datatype Scanned = Scanned(tok: Token, next: nat)

  /** The body of a quoted string: qtext characters and quoted pairs. */
  predicate QContent(t: string)
    decreases |t|
  {
    if t == [] then true
    else if IsQText(t[0]) then QContent(t[1..])
    else |t| >= 2 && t[0] == ESCAPE && t[1] != NUL && QContent(t[2..])
  }

  /** What the text of a token of each kind looks like. */
  predicate ValidToken(t: Token) {
    match t.kind
    case Atom => |t.text| > 0 && forall k | 0 <= k < |t.text| :: IsAtom(t.text[k])
    case Comment =>
      |t.text| >= 2 && t.text[0] == LPAREN && t.text[|t.text| - 1] == RPAREN
    case QuotedString =>
      |t.text| >= 2 && t.text[0] == QUOTE && t.text[|t.text| - 1] == QUOTE &&
      QContent(t.text[1..|t.text| - 1])
    case DomainLiteral => |t.text| >= 1 && t.text[0] == LSQBRACKET
    case _ => t.text == []
  }

  /** A token list as `tokenize` hands it to the grammar: exactly one `Eot`,
      at the end, and well-formed tokens. */
  predicate Stream(toks: seq<Token>) {
    && |toks| > 0
    && toks[|toks| - 1].kind == Eot
    && (forall i | 0 <= i < |toks| - 1 :: toks[i].kind != Eot)
    && (forall i | 0 <= i < |toks| :: TokenOk(toks, i))
  }

  /** The token at `i` is well-formed. */
  predicate TokenOk(toks: seq<Token>, i: nat)
    requires i < |toks|
  {
    ValidToken(toks[i])
  }

  /** The kinds `tokenize` emits for a single character. */
  function SpecialKind(c: char): Option<Kind> {
    match c
    case '<' => Some(LABracket)
    case '>' => Some(RABracket)
    case '@' => Some(AtSign)
    case ',' => Some(Comma)
    case ';' => Some(Semicolon)
    case ':' => Some(Colon)
    case '\\' => Some(Escape)
    case '.' => Some(Period)
    case _ => None
  }

  // ---------------------------------------------------------------------
  // Where each scan stops

  /** The first position at or after `i` that is not a space. */
  function SkipSpaces(s: string, i: nat): (j: nat)
    ensures i <= j && !IsSpace(CharAt(s, j))
    ensures i <= |s| ==> j <= |s|
    ensures forall k | i <= k < j :: k < |s| && IsSpace(s[k])
    decreases |s| - i
  {
    if IsSpace(CharAt(s, i)) then SkipSpaces(s, i + 1) else i
  }

  /** The end of the run of atom characters that starts at `i`. */
  function AtomEnd(s: string, i: nat): (j: nat)
    ensures i <= j && !IsAtom(CharAt(s, j))
    ensures i <= |s| ==> j <= |s|
    ensures forall k | i <= k < j :: k < |s| && IsAtom(s[k])
    decreases |s| - i
  {
    if IsAtom(CharAt(s, i)) then AtomEnd(s, i + 1) else i
  }

  /** The comment scan from `i` with `depth` parentheses open: the position
      just past the `)` that closes the outermost one, or `None` when a line
      feed or the end of the text comes first. A quoted pair is skipped
      whole and never counts. */
  function CommentEnd(s: string, i: nat, depth: nat): (r: Option<nat>)
    requires depth >= 1
    ensures r.Some? ==> i < r.value <= |s| && s[r.value - 1] == RPAREN
    decreases |s| - i
  {
    var ch := CharAt(s, i);
    if ch == NUL then None
    else if IsQPair(s, i) then CommentEnd(s, i + 2, depth)
    else if ch == LPAREN then CommentEnd(s, i + 1, depth + 1)
    else if ch == RPAREN then
      (if depth == 1 then Some(i + 1) else CommentEnd(s, i + 1, depth - 1))
    else if ch == CR then None
    else CommentEnd(s, i + 1, depth)
  }

  /** Where a run of quoted-string text (qtext or quoted pairs) that starts
      at `i` ends. */
  function QTextEnd(s: string, i: nat): (j: nat)
    ensures i <= j
    ensures i <= |s| ==> j <= |s|
    decreases |s| - i
  {
    if IsQText(CharAt(s, i)) then QTextEnd(s, i + 1)
    else if IsQPair(s, i) then QTextEnd(s, i + 2)
    else i
  }

  /** Where a run of domain-literal text (dtext or quoted pairs) that starts
      at `i` ends. */
  function DTextEnd(s: string, i: nat): (j: nat)
    ensures i <= j
    ensures i <= |s| ==> j <= |s|
    decreases |s| - i
  {
    if IsDText(CharAt(s, i)) then DTextEnd(s, i + 1)
    else if IsQPair(s, i) then DTextEnd(s, i + 2)
    else i
  }

  // ---------------------------------------------------------------------
  // The scanners, as functions

  function ScanAtom(s: string, p: nat): Option<Scanned> {
    if !IsAtom(CharAt(s, p)) then None
    else
      var e := AtomEnd(s, p);
      Some(Scanned(Token(Atom, s[p..e]), e))
  }

  function ScanComment(s: string, p: nat): Option<Scanned> {
    if CharAt(s, p) != LPAREN then None
    else match CommentEnd(s, p + 1, 1)
      case None => None
      case Some(e) => Some(Scanned(Token(Comment, s[p..e]), e))
  }

  /** A domain literal runs from `[` up to, but not including, the `]`,
      and the cursor is left on the `]`. */
  function ScanDomainLiteral(s: string, p: nat): Option<Scanned> {
    if CharAt(s, p) != LSQBRACKET then None
    else
      var e := SkipSpaces(s, DTextEnd(s, SkipSpaces(s, p + 1)));
      if CharAt(s, e) != RSQBRACKET then None
      else Some(Scanned(Token(DomainLiteral, s[p..e]), e))
  }

  function ScanQuotedString(s: string, p: nat): Option<Scanned> {
    if CharAt(s, p) != QUOTE then None
    else
      var e := QTextEnd(s, p + 1);
      if CharAt(s, e) != QUOTE then None
      else Some(Scanned(Token(QuotedString, s[p..e + 1]), e + 1))
  }

  /** One step of `tokenize`: skip spaces, then scan one token. Every token
      but `Eot` moves the cursor forward. */
  function NextToken(s: string, p: nat): (r: Option<Scanned>)
    ensures r.Some? && r.value.tok.kind != Eot ==> p < r.value.next <= |s|
  {
    var i := SkipSpaces(s, p);
    var c := CharAt(s, i);
    if c == NUL then Some(Scanned(Token(Eot, []), i))
    else if SpecialKind(c).Some? then Some(Scanned(Token(SpecialKind(c).value, []), i + 1))
    else if c == LPAREN then ScanComment(s, i)
    else if c == LSQBRACKET then ScanDomainLiteral(s, i)
    else if c == QUOTE then ScanQuotedString(s, i)
    else ScanAtom(s, i)
  }

  /** The tokens from cursor `p` on, up to and including `Eot`; `None` as
      soon as one step fails. */
  function TokensFrom(s: string, p: nat): Option<seq<Token>>
    decreases |s| - p
  {
    match NextToken(s, p)
    case None => None
    case Some(sc) =>
      if sc.tok.kind == Eot then Some([sc.tok])
      else match TokensFrom(s, sc.next)
        case None => None
        case Some(rest) => Some([sc.tok] + rest)
  }

  /** The token list of a whole header field. */
  function Tokens(s: string): Option<seq<Token>> {
    TokensFrom(s, 0)
  }

  // ---------------------------------------------------------------------
  // The scanners, as the source runs them

  method TokenizeAtom(s: string, p: nat) returns (r: Option<Scanned>)
    ensures r == ScanAtom(s, p)
  {
    if !IsAtom(CharAt(s, p)) {
      return None;
    }
    var ptr := p;
    ptr := ptr + 1;
    while IsAtom(CharAt(s, ptr))
      invariant p < ptr <= |s|
      invariant AtomEnd(s, ptr) == AtomEnd(s, p)
      decreases |s| - ptr
    {
      ptr := ptr + 1;
    }
    return Some(Scanned(Token(Atom, s[p..ptr]), ptr));
  }

  method TokenizeComment(s: string, p: nat) returns (r: Option<Scanned>)
    ensures r == ScanComment(s, p)
  {
    if CharAt(s, p) != LPAREN {
      return None;
    }
    var count: nat := 0;
    var ptr := p;
    var ch := CharAt(s, ptr);
    while ch != NUL
      invariant p <= ptr <= |s| && ch == CharAt(s, ptr)
      invariant ptr == p ==> count == 0 && ch == LPAREN
      invariant ptr > p ==> count >= 1 && CommentEnd(s, ptr, count) == CommentEnd(s, p + 1, 1)
      decreases |s| - ptr
    {
      if IsQPair(s, ptr) {
        ptr := ptr + 1;
      } else if ch == LPAREN {
        count := count + 1;
      } else if ch == RPAREN {
        count := count - 1;
        if count == 0 {
          ptr := ptr + 1;
          return Some(Scanned(Token(Comment, s[p..ptr]), ptr));
        }
      } else if ch == CR {
        return None;
      }
      ptr := ptr + 1;
      ch := CharAt(s, ptr);
    }
    return None;
  }

  method TokenizeDomainLiteral(s: string, p: nat) returns (r: Option<Scanned>)
    ensures r == ScanDomainLiteral(s, p)
  {
    if CharAt(s, p) != LSQBRACKET {
      return None;
    }
    var ptr := p + 1;
    while IsSpace(CharAt(s, ptr))
      invariant p < ptr <= |s|
      invariant SkipSpaces(s, ptr) == SkipSpaces(s, p + 1)
      decreases |s| - ptr
    {
      ptr := ptr + 1;
    }
    ghost var a := ptr;
    while CharAt(s, ptr) != NUL
      invariant a <= ptr <= |s|
      invariant DTextEnd(s, ptr) == DTextEnd(s, a)
      decreases |s| - ptr
    {
      if IsDText(CharAt(s, ptr)) {
        ptr := ptr + 1;
      } else if IsQPair(s, ptr) {
        ptr := ptr + 2;
      } else {
        break;
      }
    }
    ghost var b := ptr;
    while IsSpace(CharAt(s, ptr))
      invariant b <= ptr <= |s|
      invariant SkipSpaces(s, ptr) == SkipSpaces(s, b)
      decreases |s| - ptr
    {
      ptr := ptr + 1;
    }
    if CharAt(s, ptr) != RSQBRACKET {
      return None;
    }
    return Some(Scanned(Token(DomainLiteral, s[p..ptr]), ptr));
  }

  method TokenizeQuotedString(s: string, p: nat) returns (r: Option<Scanned>)
    ensures r == ScanQuotedString(s, p)
  {
    if CharAt(s, p) != QUOTE {
      return None;
    }
    var ptr := p + 1;
    while CharAt(s, ptr) != NUL
      invariant p < ptr <= |s|
      invariant QTextEnd(s, ptr) == QTextEnd(s, p + 1)
      decreases |s| - ptr
    {
      if IsQText(CharAt(s, ptr)) {
        ptr := ptr + 1;
      } else if IsQPair(s, ptr) {
        ptr := ptr + 2;
      } else {
        break;
      }
    }
    if CharAt(s, ptr) != QUOTE {
      return None;
    }
    ptr := ptr + 1;
    return Some(Scanned(Token(QuotedString, s[p..ptr]), ptr));
  }

  /** The character-cursor overload of `tokenize`: one token. */
  method TokenizeStep(s: string, p: nat) returns (r: Option<Scanned>)
    ensures r == NextToken(s, p)
  {
    var ptr := p;
    while IsSpace(CharAt(s, ptr))
      invariant p <= ptr && (p <= |s| ==> ptr <= |s|)
      invariant SkipSpaces(s, ptr) == SkipSpaces(s, p)
      decreases |s| - ptr
    {
      ptr := ptr + 1;
    }
    var ch := CharAt(s, ptr);
    if ch == NUL {
      r := Some(Scanned(Token(Eot, []), ptr));
    } else if SpecialKind(ch).Some? {
      r := Some(Scanned(Token(SpecialKind(ch).value, []), ptr + 1));
    } else if ch == LPAREN {
      r := TokenizeComment(s, ptr);
    } else if ch == LSQBRACKET {
      r := TokenizeDomainLiteral(s, ptr);
    } else if ch == QUOTE {
      r := TokenizeQuotedString(s, ptr);
    } else {
      r := TokenizeAtom(s, ptr);
    }
  }

  /** `acc` followed by the tokens of `rest`, if there are any. */
  function Prepend(acc: seq<Token>, rest: Option<seq<Token>>): Option<seq<Token>> {
    match rest
    case None => None
    case Some(t) => Some(acc + t)
  }

  /** Moving a token that is not the end from the rest of the line to the
      list built so far leaves the whole unchanged. */
  lemma PrependStep(s: string, ptr: nat, toks: seq<Token>, sc: Scanned)
    requires NextToken(s, ptr) == Some(sc) && sc.tok.kind != Eot
    ensures Prepend(toks, TokensFrom(s, ptr)) == Prepend(toks + [sc.tok], TokensFrom(s, sc.next))
  {
    match TokensFrom(s, sc.next) {
      case None =>
      case Some(rest) => assert toks + [sc.tok] + rest == toks + ([sc.tok] + rest);
    }
  }

  /** The string overload of `tokenize`: it appends each token to the list
      until `Eot`, and gives up as soon as one step fails. */
  method Tokenize(s: string) returns (r: Option<seq<Token>>)
    ensures r == Tokens(s)
  {
    var toks: seq<Token> := [];
    var ptr: nat := 0;
    match Tokens(s) {
      case None =>
      case Some(all) => assert toks + all == all;
    }
    while true
      invariant ptr <= |s|
      invariant Tokens(s) == Prepend(toks, TokensFrom(s, ptr))
      decreases |s| - ptr
    {
      var tmp := TokenizeStep(s, ptr);
      if tmp.None? {
        return None;
      }
      var sc := tmp.value;
      if sc.tok.kind == Eot {
        toks := toks + [sc.tok];
        return Some(toks);
      }
      PrependStep(s, ptr, toks, sc);
      toks := toks + [sc.tok];
      ptr := sc.next;
    }
  }
}
