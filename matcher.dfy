/** The loops of the grammar rules of lib/address.cc as the source runs
    them: each method updates a local match step by step, calls
    `skipcomment` for the comment runs, and is proved to compute the rule
    function of `Grammar`. The rules without a loop are used as those
    functions. */
module Matcher {
  import opened Wrappers
  import opened Tokenizer
  import opened Grammar
  import GrammarProps

  /** `match_domain` */
  method MatchDomain(toks: seq<Token>, pos: nat) returns (r: Option<Match>)
    requires ValidPos(toks, pos)
    ensures r == Domain(toks, pos)
  {
    var first := SubDomain(toks, pos);
    if first.None? {
      return None;
    }
    var m := first.value;
    var comment: string := [];
    while true
      invariant ValidPos(toks, m.next)
      invariant DomainLoop(toks, m, comment) == DomainLoop(toks, first.value, [])
      decreases |toks| - m.next
    {
      var node, acc := SkipComment(toks, m.next, comment);
      if toks[node].kind != Period {
        r := Some(m.(next := node, comment := m.comment + acc));
        return;
      }
      var r1 := SubDomain(toks, node + 1);
      if r1.None? {
        r := Some(m.(next := node, comment := m.comment + acc));
        return;
      }
      m, comment := Match(r1.value.next, m.str + "." + r1.value.str, m.comment, m.addr + "." + r1.value.addr),
                    acc + r1.value.comment;
    }
  }

  /** `match_route`: no comment may come before an `@`, and a domain that
      fails after an `@` fails the whole rule. */
  method MatchRoute(toks: seq<Token>, pos: nat) returns (r: Option<Match>)
    requires ValidPos(toks, pos)
    ensures r == Route(toks, pos)
  {
    var node := pos;
    var str: string := [];
    var comment: string := [];
    var count: nat := 0;
    ghost var target := RouteLoop(toks, node, str, comment, count);
    while toks[node].kind == AtSign
      invariant ValidPos(toks, node)
      invariant RouteLoop(toks, node, str, comment, count) == target
      decreases |toks| - node
    {
      var d := MatchDomain(toks, node + 1);
      if d.None? {
        assert target.None?;
        return None;
      }
      str, comment, count, node := str + "@" + d.value.str, comment + d.value.comment, count + 1, d.value.next;
    }
    if count == 0 {
      assert target.None?;
      return None;
    }
    var q, c := SkipComment(toks, node, comment);
    if toks[q].kind != Colon {
      assert target.None?;
      return None;
    }
    assert target == Some(Match(q + 1, str, c, []));
    r := Some(Match(q + 1, str, c, []));
  }

  /** `match_local_part` */
  method MatchLocalPart(toks: seq<Token>, pos: nat) returns (r: Option<Match>)
    requires ValidPos(toks, pos)
    ensures r == LocalPart(toks, pos)
  {
    var first := Word(toks, pos);
    if first.None? {
      return None;
    }
    var m := first.value;
    while true
      invariant ValidPos(toks, m.next)
      invariant LocalPartLoop(toks, m) == LocalPartLoop(toks, first.value)
      decreases |toks| - m.next
    {
      var node, c := SkipComment(toks, m.next, m.comment);
      m := m.(next := node, comment := c);
      if toks[node].kind != Period {
        return Some(m);
      }
      var r1 := Word(toks, node + 1);
      if r1.None? {
        return Some(m);
      }
      m := Match(r1.value.next, m.str + "." + r1.value.str, m.comment + r1.value.comment,
                 m.addr + "." + r1.value.addr);
    }
  }

  /** `match_addr_spec`: the pending domain is folded into the text when
      the next one arrives, and the last one is canonicalized. */
  method MatchAddrSpec(toks: seq<Token>, pos: nat, canon: Canon) returns (r: Option<Match>)
    requires ValidPos(toks, pos)
    ensures r == AddrSpec(toks, pos, canon)
  {
    var first := MatchLocalPart(toks, pos);
    if first.None? {
      return None;
    }
    var m := first.value;
    var domain: string := [];
    ghost var target := AddrSpecLoop(toks, m, domain);
    while true
      invariant ValidPos(toks, m.next)
      invariant AddrSpecLoop(toks, m, domain) == target
      decreases |toks| - m.next
    {
      var node, c := SkipComment(toks, m.next, m.comment);
      var cur := m.(next := node, comment := c);
      if toks[node].kind != AtSign {
        GrammarProps.AddrSpecLoopStop(toks, m, domain, node);
        m := cur;
        break;
      }
      var r2 := MatchDomain(toks, node + 1);
      if r2.None? {
        GrammarProps.AddrSpecLoopStop(toks, m, domain, node);
        m := cur;
        break;
      }
      GrammarProps.AddrSpecLoopStep(toks, m, domain, node, r2.value);
      if |domain| > 0 {
        cur := cur.(str := cur.str + "@" + domain, addr := cur.addr + "@" + domain);
      }
      m, domain := cur.(next := r2.value.next, comment := cur.comment + r2.value.comment), r2.value.addr;
    }
    assert target == Pending(m, domain);
    var d := canon(domain);
    r := Some(Match(m.next, m.str + "@" + d, m.comment, m.addr + "@" + d + "\n"));
  }

  /** `match_phrase` */
  method MatchPhrase(toks: seq<Token>, pos: nat) returns (r: Option<Match>)
    requires ValidPos(toks, pos)
    ensures r == Phrase(toks, pos)
  {
    var first := Word(toks, pos);
    if first.None? {
      return None;
    }
    var r1 := first.value;
    while true
      invariant ValidPos(toks, r1.next)
      invariant PhraseLoop(toks, r1) == PhraseLoop(toks, first.value)
      decreases |toks| - r1.next
    {
      var r2 := Word(toks, r1.next);
      if r2.None? {
        return Some(r1);
      }
      r1 := Match(r2.value.next, r1.str + " " + r2.value.str, r1.comment + r2.value.comment, r1.addr);
    }
  }

  /** The inner loop of `match_mailboxes` and `match_addresses`: comment
      runs, each appended to `str`, and the commas between them. */
  method SkipCommas(toks: seq<Token>, p: nat, str: string) returns (node: nat, text: string)
    requires ValidPos(toks, p)
    ensures node == SkipSeparators(toks, p).next
    ensures text == str + SkipSeparators(toks, p).text
  {
    node, text := p, str;
    while true
      invariant ValidPos(toks, node)
      invariant SkipSeparators(toks, node).next == SkipSeparators(toks, p).next
      invariant text + SkipSeparators(toks, node).text == str + SkipSeparators(toks, p).text
      decreases |toks| - node
    {
      var q, t := SkipComment(toks, node, text);
      if toks[q].kind != Comma {
        node, text := q, t;
        return;
      }
      assert (text + CommentText(toks, node, q)) + SkipSeparators(toks, q + 1).text
        == text + (CommentText(toks, node, q) + SkipSeparators(toks, q + 1).text);
      node, text := q + 1, t;
    }
  }

  /** `match_mailboxes` */
  method MatchMailboxes(toks: seq<Token>, pos: nat, canon: Canon) returns (r: Option<Match>)
    requires ValidPos(toks, pos)
    ensures r == Mailboxes(toks, pos, canon)
  {
    var first := Mailbox(toks, pos, canon);
    if first.None? {
      return None;
    }
    var r1 := Match(first.value.next, first.value.str + first.value.comment, [], first.value.addr);
    ghost var target := MailboxesLoop(toks, r1, canon);
    var node: nat, str: string;
    while true
      invariant ValidPos(toks, r1.next)
      invariant MailboxesLoop(toks, r1, canon) == target
      decreases |toks| - r1.next
    {
      node, str := SkipCommas(toks, r1.next, r1.str);
      if toks[node].kind == Eot {
        break;
      }
      var r2 := Mailbox(toks, node, canon);
      if r2.None? {
        break;
      }
      r1 := Match(r2.value.next, str + ", " + r2.value.str + r2.value.comment, r1.comment, r1.addr + r2.value.addr);
    }
    var q, s := SkipComment(toks, node, str);
    r := Some(r1.(str := s, next := q));
  }

  /** `match_addresses`: after the list, only the end of the text may
      remain. */
  method MatchAddresses(toks: seq<Token>, pos: nat, canon: Canon) returns (r: Option<Match>)
    requires ValidPos(toks, pos)
    ensures r == Addresses(toks, pos, canon)
  {
    var first := Address(toks, pos, canon);
    if first.None? {
      return None;
    }
    var r1 := Match(first.value.next, first.value.str + first.value.comment, [], first.value.addr);
    ghost var target := AddressesLoop(toks, r1, canon);
    var node: nat, str: string;
    while true
      invariant ValidPos(toks, r1.next)
      invariant AddressesLoop(toks, r1, canon) == target
      decreases |toks| - r1.next
    {
      node, str := SkipCommas(toks, r1.next, r1.str);
      if toks[node].kind == Eot {
        break;
      }
      var r2 := Address(toks, node, canon);
      if r2.None? {
        break;
      }
      r1 := Match(r2.value.next, str + ", " + r2.value.str + r2.value.comment, r1.comment, r1.addr + r2.value.addr);
    }
    var q, s := SkipComment(toks, node, str);
    if q + 1 < |toks| {
      return None;
    }
    r := Some(r1.(str := s));
  }
}
