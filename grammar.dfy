/** The recursive-descent matcher of lib/address.cc for the address
    grammar of section 6.1 of RFC 822.

    A rule takes the token list and a position in it and gives `None` (the
    source's `result` whose `next` is null) or a `Match`: the position after
    what it consumed, the display text, the comment text it holds back for
    its caller, and the canonical address text. The rules never reach
    themselves; each loop of the source is a tail-recursive function whose
    parameters are the variables the loop updates, and every loop moves
    forward in the list. `canon` is the `canonicalize` the source calls,
    whose body is not part of this model. */
module Grammar {
  import opened Wrappers
  import opened Chars
  import opened Tokenizer
  import opened Quoting
  import QuotingProps

  datatype Match = Match(next: nat, str: string, comment: string, addr: string)

  /** `canonicalize`: it rewrites the final domain of an addr-spec. */
  type Canon = string -> string

  /** A position in a token list as `tokenize` makes it. */
  predicate ValidPos(toks: seq<Token>, p: nat) {
    Stream(toks) && p < |toks|
  }

  // ---------------------------------------------------------------------
  // Comments

  /** The first token at or after `p` that is not a comment. */
  function SkipComments(toks: seq<Token>, p: nat): (q: nat)
    requires ValidPos(toks, p)
    ensures p <= q < |toks| && toks[q].kind != Comment
    decreases |toks| - p
  {
    if toks[p].kind == Comment then SkipComments(toks, p + 1) else p
  }

  /** Every token `SkipComments` passes over is a comment. */
  lemma {:induction false} SkippedAreComments(toks: seq<Token>, p: nat, k: nat)
    requires ValidPos(toks, p) && p <= k < SkipComments(toks, p)
    ensures toks[k].kind == Comment
    decreases |toks| - p
  {
    if k > p {
      SkippedAreComments(toks, p + 1, k);
    }
  }

  /** The text `skipcomment` appends for the tokens in `[p, q)`: each one's
      text after a space. */
  function CommentText(toks: seq<Token>, p: nat, q: nat): string
    requires p <= q <= |toks|
    decreases q - p
  {
    if p == q then [] else " " + toks[p].text + CommentText(toks, p + 1, q)
  }

  lemma {:induction false} CommentTextSnoc(toks: seq<Token>, p: nat, q: nat)
    requires p <= q < |toks|
    ensures CommentText(toks, p, q + 1) == CommentText(toks, p, q) + " " + toks[q].text
    decreases q - p
  {
    if p < q {
      CommentTextSnoc(toks, p + 1, q);
    }
  }

  /** `skipcomment`, as the source runs it. */
  method SkipComment(toks: seq<Token>, node: nat, comment: string) returns (next: nat, text: string)
    requires ValidPos(toks, node)
    ensures next == SkipComments(toks, node)
    ensures text == comment + CommentText(toks, node, next)
  {
    next, text := node, comment;
    while toks[next].kind == Comment
      invariant node <= next < |toks|
      invariant SkipComments(toks, next) == SkipComments(toks, node)
      invariant text == comment + CommentText(toks, node, next)
      decreases |toks| - next
    {
      CommentTextSnoc(toks, node, next);
      text := text + " " + toks[next].text;
      next := next + 1;
    }
  }

  // ---------------------------------------------------------------------
  // Domains and routes

  /** sub-domain = atom / domain-literal */
  function SubDomain(toks: seq<Token>, pos: nat): (r: Option<Match>)
    requires ValidPos(toks, pos)
    ensures r.Some? ==> pos < r.value.next < |toks|
  {
    var node := SkipComments(toks, pos);
    var t := toks[node];
    if t.kind == Atom || t.kind == DomainLiteral then
      Some(Match(node + 1, t.text, CommentText(toks, pos, node), t.text))
    else None
  }

  /** domain = sub-domain *(PERIOD sub-domain) */
  function Domain(toks: seq<Token>, pos: nat): (r: Option<Match>)
    requires ValidPos(toks, pos)
    ensures r.Some? ==> pos < r.value.next < |toks|
  {
    match SubDomain(toks, pos)
    case None => None
    case Some(r) => Some(DomainLoop(toks, r, []))
  }

  /** The loop of `match_domain`; `comment` is its local accumulator, added
      to the match's own comment when the loop ends. */
  function DomainLoop(toks: seq<Token>, r: Match, comment: string): (m: Match)
    requires ValidPos(toks, r.next)
    ensures r.next <= m.next < |toks|
    decreases |toks| - r.next
  {
    var node := SkipComments(toks, r.next);
    var acc := comment + CommentText(toks, r.next, node);
    if toks[node].kind != Period then r.(next := node, comment := r.comment + acc)
    else match SubDomain(toks, node + 1)
      case None => r.(next := node, comment := r.comment + acc)
      case Some(r1) =>
        DomainLoop(toks, Match(r1.next, r.str + "." + r1.str, r.comment, r.addr + "." + r1.addr),
                   acc + r1.comment)
  }

  /** route = 1#(AT domain) COLON; it contributes no address text. */
  function Route(toks: seq<Token>, pos: nat): (r: Option<Match>)
    requires ValidPos(toks, pos)
    ensures r.Some? ==> pos < r.value.next < |toks|
  {
    RouteLoop(toks, pos, [], [], 0)
  }

  function RouteLoop(toks: seq<Token>, node: nat, str: string, comment: string, count: nat): (r: Option<Match>)
    requires ValidPos(toks, node)
    ensures r.Some? ==> node < r.value.next < |toks|
    decreases |toks| - node
  {
    if toks[node].kind != AtSign then
      if count == 0 then None
      else
        var q := SkipComments(toks, node);
        if toks[q].kind != Colon then None
        else Some(Match(q + 1, str, comment + CommentText(toks, node, q), []))
    else match Domain(toks, node + 1)
      case None => None
      case Some(r) => RouteLoop(toks, r.next, str + "@" + r.str, comment + r.comment, count + 1)
  }

  // ---------------------------------------------------------------------
  // Words and addr-specs

  /** word = atom / quoted-string; a quoted string's address text is its
      unquoted content and its display text that content re-quoted. */
  function Word(toks: seq<Token>, pos: nat): (r: Option<Match>)
    requires ValidPos(toks, pos)
    ensures r.Some? ==> pos < r.value.next < |toks|
  {
    var node := SkipComments(toks, pos);
    var t := toks[node];
    var comment := CommentText(toks, pos, node);
    if t.kind == Atom then Some(Match(node + 1, t.text, comment, t.text))
    else if t.kind == QuotedString then
      assert TokenOk(toks, node);
      QuotingProps.QuotedTokenUnquotes(t);
      var addr := Unquoted(t.text);
      Some(Match(node + 1, Quoted(addr), comment, addr))
    else None
  }

  /** local-part = word *(PERIOD word) */
  function LocalPart(toks: seq<Token>, pos: nat): (r: Option<Match>)
    requires ValidPos(toks, pos)
    ensures r.Some? ==> pos < r.value.next < |toks|
  {
    match Word(toks, pos)
    case None => None
    case Some(r) => Some(LocalPartLoop(toks, r))
  }

  function LocalPartLoop(toks: seq<Token>, r: Match): (m: Match)
    requires ValidPos(toks, r.next)
    ensures r.next <= m.next < |toks|
    decreases |toks| - r.next
  {
    var node := SkipComments(toks, r.next);
    var cur := r.(next := node, comment := r.comment + CommentText(toks, r.next, node));
    if toks[node].kind != Period then cur
    else match Word(toks, node + 1)
      case None => cur
      case Some(r1) =>
        LocalPartLoop(toks, Match(r1.next, cur.str + "." + r1.str, cur.comment + r1.comment,
                                  cur.addr + "." + r1.addr))
  }

  /** The state of the loop of `match_addr_spec`: the match so far and the
      domain still pending. */
  datatype Pending = Pending(m: Match, domain: string)

  /** addr-spec = local-part *(AT domain). Each domain but the last is folded
      into the text; the last is canonicalized and closes the address line.
      With no domain at all, `canon` is given the empty text. */
  function AddrSpec(toks: seq<Token>, pos: nat, canon: Canon): (r: Option<Match>)
    requires ValidPos(toks, pos)
    ensures r.Some? ==> pos < r.value.next < |toks|
  {
    match LocalPart(toks, pos)
    case None => None
    case Some(r) =>
      var p := AddrSpecLoop(toks, r, []);
      var domain := canon(p.domain);
      Some(Match(p.m.next, p.m.str + "@" + domain, p.m.comment, p.m.addr + "@" + domain + "\n"))
  }

  function AddrSpecLoop(toks: seq<Token>, r: Match, domain: string): (p: Pending)
    requires ValidPos(toks, r.next)
    ensures r.next <= p.m.next < |toks|
    decreases |toks| - r.next
  {
    var node := SkipComments(toks, r.next);
    var cur := r.(next := node, comment := r.comment + CommentText(toks, r.next, node));
    if toks[node].kind != AtSign then Pending(cur, domain)
    else match Domain(toks, node + 1)
      case None => Pending(cur, domain)
      case Some(r2) =>
        var folded :=
          if |domain| > 0 then cur.(str := cur.str + "@" + domain, addr := cur.addr + "@" + domain)
          else cur;
        AddrSpecLoop(toks, folded.(next := r2.next, comment := folded.comment + r2.comment), r2.addr)
  }

  /** route-addr = LABRACKET [route] addr-spec RABRACKET; the route is
      matched but its text is dropped. */
  function RouteAddr(toks: seq<Token>, pos: nat, canon: Canon): (r: Option<Match>)
    requires ValidPos(toks, pos)
    ensures r.Some? ==> pos < r.value.next < |toks|
  {
    var open := SkipComments(toks, pos);
    if toks[open].kind != LABracket then None
    else RouteAddrClose(toks, AddrSpec(toks, SpecStart(toks, open), canon), LeadingComment(toks, pos, open))
  }

  /** Where the addr-spec of a route-addr starts: after its `<` and its
      route, when it has one. */
  function SpecStart(toks: seq<Token>, open: nat): (q: nat)
    requires ValidPos(toks, open) && toks[open].kind == LABracket
    ensures open < q < |toks|
  {
    var r1 := Route(toks, open + 1);
    if r1.Some? then r1.value.next else open + 1
  }

  /** The comments of a route-addr before its addr-spec: those before the
      `<` and those the route holds. */
  function LeadingComment(toks: seq<Token>, pos: nat, open: nat): string
    requires ValidPos(toks, open) && pos <= open && toks[open].kind == LABracket
  {
    var r1 := Route(toks, open + 1);
    CommentText(toks, pos, open) + (if r1.Some? then r1.value.comment else [])
  }

  /** The end of `match_route_addr`: the addr-spec `r2` then `>`. */
  function RouteAddrClose(toks: seq<Token>, r2: Option<Match>, comment: string): (r: Option<Match>)
    requires r2.Some? ==> ValidPos(toks, r2.value.next)
    ensures r.Some? ==> r2.Some? && r2.value.next < r.value.next < |toks|
  {
    match r2
    case None => None
    case Some(r2) =>
      var close := SkipComments(toks, r2.next);
      var trailing := comment + r2.comment + CommentText(toks, r2.next, close);
      if toks[close].kind != RABracket then None
      else Some(Match(close + 1, "<" + r2.str + ">" + trailing, [], r2.addr))
  }

  // ---------------------------------------------------------------------
  // Phrases, mailboxes, groups, addresses

  /** phrase = word *word; the words are shown one space apart. */
  function Phrase(toks: seq<Token>, pos: nat): (r: Option<Match>)
    requires ValidPos(toks, pos)
    ensures r.Some? ==> pos < r.value.next < |toks|
  {
    match Word(toks, pos)
    case None => None
    case Some(r1) => Some(PhraseLoop(toks, r1))
  }

  function PhraseLoop(toks: seq<Token>, r1: Match): (m: Match)
    requires ValidPos(toks, r1.next)
    ensures r1.next <= m.next < |toks|
    decreases |toks| - r1.next
  {
    match Word(toks, r1.next)
    case None => r1
    case Some(r2) =>
      PhraseLoop(toks, Match(r2.next, r1.str + " " + r2.str, r1.comment + r2.comment, r1.addr))
  }

  /** route-spec = [phrase] route-addr */
  function RouteSpec(toks: seq<Token>, pos: nat, canon: Canon): (r: Option<Match>)
    requires ValidPos(toks, pos)
    ensures r.Some? ==> pos < r.value.next < |toks|
  {
    var r1 := Phrase(toks, pos);
    var node := if r1.Some? then r1.value.next else pos;
    match RouteAddr(toks, node, canon)
    case None => None
    case Some(r2) =>
      if r1.None? then Some(r2)
      else Some(r2.(str := r1.value.str + r1.value.comment + " " + r2.str + r2.comment))
  }

  /** mailbox = route-spec / addr-spec: the first alternative that matches
      wins. */
  function Mailbox(toks: seq<Token>, pos: nat, canon: Canon): (r: Option<Match>)
    requires ValidPos(toks, pos)
    ensures r.Some? ==> pos < r.value.next < |toks|
  {
    match RouteSpec(toks, pos, canon)
    case Some(r) => Some(r)
    case None => AddrSpec(toks, pos, canon)
  }

  /** What the inner loop of `match_mailboxes` and `match_addresses` skips:
      any run of commas and comments, and the comment text it appends. */
  datatype Skip = Skip(next: nat, text: string)

  function SkipSeparators(toks: seq<Token>, p: nat): (k: Skip)
    requires ValidPos(toks, p)
    ensures p <= k.next < |toks|
    ensures toks[k.next].kind != Comment && toks[k.next].kind != Comma
    decreases |toks| - p
  {
    var q := SkipComments(toks, p);
    var text := CommentText(toks, p, q);
    if toks[q].kind == Comma then
      var k := SkipSeparators(toks, q + 1);
      Skip(k.next, text + k.text)
    else Skip(q, text)
  }

  /** mailboxes = mailbox *(*(COMMA) mailbox); trailing commas and comments
      are consumed even when no mailbox follows. */
  function Mailboxes(toks: seq<Token>, pos: nat, canon: Canon): (r: Option<Match>)
    requires ValidPos(toks, pos)
    ensures r.Some? ==> pos < r.value.next < |toks|
  {
    match Mailbox(toks, pos, canon)
    case None => None
    case Some(r1) => Some(MailboxesLoop(toks, Match(r1.next, r1.str + r1.comment, [], r1.addr), canon))
  }

  function MailboxesLoop(toks: seq<Token>, r1: Match, canon: Canon): (m: Match)
    requires ValidPos(toks, r1.next)
    ensures r1.next <= m.next < |toks|
    decreases |toks| - r1.next
  {
    var sep := SkipSeparators(toks, r1.next);
    var str := r1.str + sep.text;
    var node := sep.next;
    if toks[node].kind == Eot then CloseMailboxes(toks, r1.(str := str), node)
    else match Mailbox(toks, node, canon)
      case None => CloseMailboxes(toks, r1.(str := str), node)
      case Some(r2) =>
        MailboxesLoop(toks, Match(r2.next, str + ", " + r2.str + r2.comment, r1.comment, r1.addr + r2.addr), canon)
  }

  /** The end of `match_mailboxes`: skip comments once more and stop there. */
  function CloseMailboxes(toks: seq<Token>, r1: Match, node: nat): (m: Match)
    requires ValidPos(toks, node)
    ensures node <= m.next < |toks|
  {
    var q := SkipComments(toks, node);
    r1.(str := r1.str + CommentText(toks, node, q), next := q)
  }

  /** group = phrase COLON [#mailboxes] SEMICOLON; the phrase's comments are
      dropped and a failed member list counts as empty. */
  function Group(toks: seq<Token>, pos: nat, canon: Canon): (r: Option<Match>)
    requires ValidPos(toks, pos)
    ensures r.Some? ==> pos < r.value.next < |toks|
  {
    match Phrase(toks, pos)
    case None => None
    case Some(r1) =>
      if toks[r1.next].kind != Colon then None
      else
        var r2 := Mailboxes(toks, r1.next + 1, canon);
        var node := if r2.Some? then r2.value.next else r1.next + 1;
        GroupClose(toks, r1.str, if r2.Some? then r2.value else Match(0, [], [], []), node)
  }

  /** The end of `match_group`: comments, then `;`. */
  function GroupClose(toks: seq<Token>, phrase: string, members: Match, node: nat): (r: Option<Match>)
    requires ValidPos(toks, node)
    ensures r.Some? ==> node < r.value.next < |toks|
  {
    var close := SkipComments(toks, node);
    if toks[close].kind != Semicolon then None
    else
      Some(Match(close + 1, phrase + ": " + members.str + members.comment + CommentText(toks, node, close) + ";",
                 [], members.addr))
  }

  /** address = group / mailbox */
  function Address(toks: seq<Token>, pos: nat, canon: Canon): (r: Option<Match>)
    requires ValidPos(toks, pos)
    ensures r.Some? ==> pos < r.value.next < |toks|
  {
    match Group(toks, pos, canon)
    case Some(r) => Some(r)
    case None => Mailbox(toks, pos, canon)
  }

  /** addresses = address *(*(COMMA) address), then nothing but the end. */
  function Addresses(toks: seq<Token>, pos: nat, canon: Canon): (r: Option<Match>)
    requires ValidPos(toks, pos)
    ensures r.Some? ==> pos < r.value.next < |toks|
  {
    match Address(toks, pos, canon)
    case None => None
    case Some(r1) => AddressesLoop(toks, Match(r1.next, r1.str + r1.comment, [], r1.addr), canon)
  }

  function AddressesLoop(toks: seq<Token>, r1: Match, canon: Canon): (r: Option<Match>)
    requires ValidPos(toks, r1.next)
    ensures r.Some? ==> r1.next <= r.value.next < |toks|
    decreases |toks| - r1.next
  {
    var sep := SkipSeparators(toks, r1.next);
    var str := r1.str + sep.text;
    var node := sep.next;
    if toks[node].kind == Eot then CloseAddresses(toks, r1.(str := str), node)
    else match Address(toks, node, canon)
      case None => CloseAddresses(toks, r1.(str := str), node)
      case Some(r2) =>
        AddressesLoop(toks, Match(r2.next, str + ", " + r2.str + r2.comment, r1.comment, r1.addr + r2.addr), canon)
  }

  /** The end of `match_addresses`: after the comments, the token must be
      the last one of the list, or the rule fails. */
  function CloseAddresses(toks: seq<Token>, r1: Match, node: nat): (r: Option<Match>)
    requires ValidPos(toks, node)
    ensures r.Some? ==> r.value.next == r1.next
  {
    var q := SkipComments(toks, node);
    if q + 1 < |toks| then None
    else Some(r1.(str := r1.str + CommentText(toks, node, q)))
  }
}
