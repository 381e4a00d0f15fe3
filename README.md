# nullmailer address parsing, in Dafny

This project models `lib/address.cc` of nullmailer. That file parses the
address header lines of a message (`To:`, `Cc:`, `From:` …) by the RFC 822
grammar. It turns each line into two things:

- a normalized display line;
- the list of the addresses in that line, each ending in a line feed.
  nullmailer hands this list to its sending queue.

The model has four layers. Each of them is proved against a pure
specification of what it computes.

- **Lexer** (`chars.dfy`, `tokenizer.dfy`, `tokenizer_props.dfy`).
  - The character classes are modelled, and so are the four scanners
    (atom, comment, domain literal, quoted string), the one-token step and
    the whole-line tokenizer.
  - Each scanner is a `while` loop over the text. It is proved equal to a
    recursive function that states where the token ends.
  - The lemmas say what a token holds:
    - the comment scan stops exactly where an RFC 822 comment (ctext,
      quoted pairs and nested comments between parentheses) ends, and
      fails exactly when no comment starts there;
    - the quoted-string scan stops exactly past a closing `"` reached
      through qtext and quoted pairs, and fails exactly when there is
      none;
    - spaces between tokens are dropped;
    - a successful tokenization ends in exactly one end-of-text token.
- **Quoting** (`quoting.dfy`, `quoting_props.dfy`).
  - `quote` and `unquote` are loops, each proved equal to a function.
  - `unquote` undoes `quote` on every text.
  - `quote` leaves a text alone exactly when the text has no special
    character. Escaping at most doubles a text's length (`EscapedLength`),
    so `quote`'s result is at most twice its input's length plus the two
    quotes (`QuotedLength`).
  - A quoted text re-scans as one quoted-string token, and a text that
    `quote` leaves alone re-scans as one atom when it is a run of atom
    characters.
- **Grammar** (`grammar.dfy`, `grammar_props.dfy`, `matcher.dfy`).
  - Every `match_*` rule is a function over the token list and a position.
    It returns the display text, the comments and the address text, or
    nothing.
  - The rules with a loop also exist as methods that run the loop as the
    source does (`matcher.dfy`). Each method is proved equal to its
    function.
  - The lemmas cover:
    - how source routes are folded into an address, and what a local
      part, a phrase, a route, a route-addr, a route-spec, a mailbox
      list, a group and an address list match and show;
    - that every match holds back exactly the comments it consumed;
    - that every address ends in a line feed (a quoted local part may
      hold another one, escaped: `EscapedNewline`);
    - that the address lists keep the input order;
    - that the whole list must end at the end of the text.
- **Entry point** (`parser.dfy`, `samples.dfy`).
  - `parse_addresses` tokenizes the line and matches the address list.
  - On failure it leaves both outputs untouched.
  - Two whole lines are taken through the model, with `canon` left open:
    `John Doe <john@example.com>` and `list: a@b.c, d@e.f;`. Each is
    given as a predicate on the text that spells it character by
    character.

Domain canonicalization (`canonicalize`, which lives elsewhere in
nullmailer) is a function parameter `canon` of the rules that need it.

The code is modelled as written, including these behaviours:

- A domain literal is always rejected. The scanner stops on the closing
  `]`, and the next step cannot start a token there (`NoDomainLiteral`).
- `quote` quotes only texts with a special character, never texts with
  only whitespace.
- A group keeps the comments of its member list, but drops those of its
  phrase.
- Commas at the end of a list are consumed.
- A quoted pair may escape a line feed inside a quoted string, and
  `unquote` keeps it, so one address of the list may span two lines
  (`EscapedNewline`).

Some members are definitions that the rows below use without a row of
their own:

- `Chars.IsSymbol`, `Chars.IsCtl`, `Chars.IsQText`, `Chars.IsDText`,
  `Chars.IsQPair` and `Chars.IsAtom` are the classifiers `issymbol`,
  `isctl`, `isqtext`, `isdtext`, `isqpair` and `isatom`
  (lib/address.cc:132-173). `Chars.IsSpace` is the C library's `isspace`
  in the C locale.
- `Tokenizer.TokensFrom` and `Tokenizer.Tokens` specify the list loop of
  `tokenize` (lib/address.cc:274-289). `Tokenizer.Tokenize` is proved
  equal to `Tokens`.
- `Quoting.Escaped` and `Quoting.Quoted` specify `quote`
  (lib/address.cc:291-311). `Quoting.Unquoted` specifies `unquote`
  (lib/address.cc:313-339). `Quoting.Quote` and `Quoting.Unquote` are
  proved equal to them.

## Model

| member | source | states |
|---|---|---|
| `Chars.CharAt` | lib/address.cc:164-168 | reading past the end of the text gives the terminating NUL; a non-NUL result is the character at that index |
| `Tokenizer.SkipSpaces` | lib/address.cc:248 | stops on the first character that is not a space; every character skipped is a space |
| `Tokenizer.AtomEnd` | lib/address.cc:175-183 | stops on the first character that is not an atom character; every character it passes is an atom character |
| `Tokenizer.CommentEnd` | lib/address.cc:185-207 | a comment that closes ends just after a `)` inside the text |
| `Tokenizer.QTextEnd` | lib/address.cc:229-244 | the end of the quoted-string body never goes back and never passes the end of the text |
| `Tokenizer.DTextEnd` | lib/address.cc:209-227 | the end of the domain-literal body never goes back and never passes the end of the text |
| `Tokenizer.NextToken` | lib/address.cc:246-272 | every step other than end-of-text advances and stays within the text |
| `Tokenizer.TokenizeAtom` | lib/address.cc:175-183 | the scanning loop computes the atom scan `ScanAtom` |
| `Tokenizer.TokenizeComment` | lib/address.cc:185-207 | the depth-counting loop computes the comment scan `ScanComment` |
| `Tokenizer.TokenizeDomainLiteral` | lib/address.cc:209-227 | the loop computes the domain-literal scan `ScanDomainLiteral` |
| `Tokenizer.TokenizeQuotedString` | lib/address.cc:229-244 | the loop computes the quoted-string scan `ScanQuotedString` |
| `Tokenizer.TokenizeStep` | lib/address.cc:246-272 | one step (skip spaces, then dispatch on the first character) computes `NextToken` |
| `Tokenizer.PrependStep` | lib/address.cc:274-289 | appending a token that is not the end to the list so far keeps the whole token list unchanged |
| `Tokenizer.Tokenize` | lib/address.cc:274-289 | the token-list loop computes `Tokens`: a list when every step succeeds up to the end of the text, nothing otherwise |
| `TokenizerProps.CommentSplice` | lib/address.cc:185-207 | a comment nested inside an open one is consumed as one unit by the depth counter |
| `TokenizerProps.NestedComment` | lib/address.cc:185-207 | from the `(` of a nested comment the scan resumes past its matching `)` at the same depth |
| `TokenizerProps.CommentBrokenByNewline` | lib/address.cc:185-207 | a line feed reached while a comment is open, with no `)` and no `\` between the scan's start and it, makes the comment scan fail (`CommentFails` states every failing case) |
| `TokenizerProps.ItemScans` | lib/address.cc:185-207 | the depth counter passes over one well-formed comment element (ctext, quoted pair or nested comment) at any depth |
| `TokenizerProps.BodyScans` | lib/address.cc:185-207 | the depth counter passes over a well-formed comment body at any depth |
| `TokenizerProps.CommentUnsplice` | lib/address.cc:185-207 | a scan that closes at a deeper depth passes, on its way, the point where the shallower depth closes |
| `TokenizerProps.ScannedBody` | lib/address.cc:185-207 | what the depth counter passes over before the `)` that closes its depth is a well-formed comment body |
| `TokenizerProps.ScanIsComment` | lib/address.cc:185-207 | a comment scan that stops at `e` passed over an RFC 822 comment |
| `TokenizerProps.CommentIsScanned` | lib/address.cc:185-207 | an RFC 822 comment from `p` to `e` is scanned as a comment stopping at `e` |
| `TokenizerProps.CommentGrammar` | lib/address.cc:185-207 | the comment scan stops at `e` if and only if the text from `p` to `e` is an RFC 822 comment |
| `TokenizerProps.CommentFails` | lib/address.cc:185-207 | the comment scan fails if and only if no RFC 822 comment starts at `p` |
| `TokenizerProps.CommentExamples` | lib/address.cc:185-207 | an unclosed nested comment and a bare line feed make the scan fail; an escaped line feed does not |
| `TokenizerProps.CommentToken` | lib/address.cc:185-207 | a comment token is the text from its `(` to the `)` that closes it, both included, and that text is an RFC 822 comment (`IsComment`); with no `)` after the `(` there is no comment |
| `TokenizerProps.QTextEndContent` | lib/address.cc:229-244 | the body of a quoted string consists only of qtext characters and quoted pairs |
| `TokenizerProps.QuotedStringToken` | lib/address.cc:229-244 | a quoted-string token runs from its opening `"` through its closing `"` with only qtext and quoted pairs between; with no closing `"` there is no token |
| `TokenizerProps.QTextEndOf` | lib/address.cc:229-244 | a body of qtext and quoted pairs followed by a character of neither kind is exactly what the body scan passes over |
| `TokenizerProps.QuotedStringGrammar` | lib/address.cc:229-244 | the quoted-string scan ends just past `e` if and only if `p` and `e` hold a `"` with only qtext and quoted pairs between them |
| `TokenizerProps.QuotedStringFails` | lib/address.cc:229-244 | the quoted-string scan fails if and only if no closing `"` is reached through qtext and quoted pairs |
| `TokenizerProps.QuotedStringExamples` | lib/address.cc:229-244 | an escaped closing quote does not close and a bare line feed breaks a quoted string; an escaped line feed does not |
| `TokenizerProps.DomainLiteralToken` | lib/address.cc:209-227 | a domain-literal token is the `[` and its body, without the `]`, and the scan stops on the `]` |
| `TokenizerProps.ScanQuotedStringValid` | lib/address.cc:229-244 | every quoted-string token is well formed |
| `TokenizerProps.ScanAtomValid` | lib/address.cc:175-183 | every atom token is a non-empty run of atom characters |
| `TokenizerProps.NextTokenValid` | lib/address.cc:246-272 | every token the step yields is well formed |
| `TokenizerProps.TokensFromStream` | lib/address.cc:274-289 | a token list yielded from any position ends in exactly one end-of-text token and holds only well-formed tokens |
| `TokenizerProps.TokensStream` | lib/address.cc:274-289 | the token list of a line ends in exactly one end-of-text token and holds only well-formed tokens |
| `TokenizerProps.NoDomainLiteral` | lib/address.cc:209-272 | no successful tokenization contains a domain-literal token |
| `TokenizerProps.SpacesIgnored` | lib/address.cc:248 | a space between tokens does not change the token list |
| `TokenizerProps.BadCharFails` | lib/address.cc:246-272 | a token starting with `]` or with a control character that is not a space fails, and so does the whole line |
| `Quoting.SuffixNeverDangles` | lib/address.cc:313-339 | copying a text up to its end never leaves an escape dangling |
| `Quoting.EscapedSnoc` | lib/address.cc:291-311 | escaping is done character by character: escaping one more character appends its escaped form |
| `Quoting.Quote` | lib/address.cc:291-311 | the copying loop computes `Quoted`: the text itself without specials, otherwise the escaped text in double quotes |
| `Quoting.Unquote` | lib/address.cc:313-339 | the copying loop computes `Unquoted`: outer quotes stripped, each quoted pair replaced by its character |
| `QuotingProps.EscapedLength` | lib/address.cc:291-311 | escaping at most doubles the length, and lengthens any text that has a special |
| `QuotingProps.QuotedLength` | lib/address.cc:291-311 | `quote` writes at most twice the input plus two quotes, the size of its buffer |
| `QuotingProps.QuotedUnchanged` | lib/address.cc:291-311 | `quote` returns its input exactly when the input has no special |
| `QuotingProps.EscapedPlain` | lib/address.cc:291-311 | a text without specials escapes to itself |
| `QuotingProps.UnescapeEscaped` | lib/address.cc:291-339 | unescaping the escaped form gives the text back, wherever it sits in a larger text |
| `QuotingProps.UnquoteQuote` | lib/address.cc:291-339 | `unquote` undoes `quote` on every text |
| `QuotingProps.QContentNoDangle` | lib/address.cc:313-339 | a body of qtext and quoted pairs never leaves an escape dangling |
| `QuotingProps.QuotedTokenUnquotes` | lib/address.cc:229-244 | the text of every quoted-string token is a valid input of `unquote` |
| `QuotingProps.UnquotePlain` | lib/address.cc:313-339 | a text without specials passes through `unquote` unchanged |
| `QuotingProps.QTextEndEscaped` | lib/address.cc:229-244 | the quoted-string scan of an escaped text stops exactly at the closing quote |
| `QuotingProps.QuotedRescans` | lib/address.cc:229-311 | a quoted text with a special and no line feed scans back as one quoted-string token, whatever follows it |
| `QuotingProps.AtomRescans` | lib/address.cc:175-183 | a non-empty run of atom characters is left alone by `quote` and scans back as one atom token, whatever follows that cannot continue an atom |
| `QuotingProps.SpaceScan` | lib/address.cc:246-272 | the tokenizer steps over `John Doe`: an atom, a skipped space, an atom, the end |
| `QuotingProps.SpaceNotRequoted` | lib/address.cc:291-311 | `John Doe` is left alone by `quote`, yet it tokenizes as two atoms: whitespace alone does not make `quote` quote |
| `Grammar.SkipComments` | lib/address.cc:341-348 | skipping comments stops on the first token that is not a comment |
| `Grammar.SkippedAreComments` | lib/address.cc:341-348 | every token skipped is a comment |
| `Grammar.SkipComment` | lib/address.cc:341-348 | the loop stops where `SkipComments` does and appends the skipped comments' text, in order |
| `Grammar.SubDomain` | lib/address.cc:350-359 | a match consumes at least one token |
| `Grammar.Domain` | lib/address.cc:361-383 | a match consumes at least one token; what it matches is stated by `DomainShape` |
| `Grammar.Route` | lib/address.cc:385-406 | a match consumes at least one token; what it matches is stated by `RouteShape` |
| `Grammar.Word` | lib/address.cc:408-420 | a match consumes at least one token |
| `Grammar.LocalPart` | lib/address.cc:422-442 | a match consumes at least one token; what it matches and shows is stated by `LocalPartText` |
| `Grammar.AddrSpec` | lib/address.cc:444-469 | a match consumes at least one token; what it matches is stated by `AddrSpecRouting` |
| `Grammar.RouteAddr` | lib/address.cc:471-486 | a match consumes at least one token; what it matches is stated by `RouteAddrShape` |
| `Grammar.SpecStart` | lib/address.cc:477-478 | the addr-spec of a route-addr starts after its `<`, past the route when there is one, inside the token list |
| `Grammar.Phrase` | lib/address.cc:488-502 | a match consumes at least one token; what it matches and shows is stated by `PhraseText` |
| `Grammar.RouteSpec` | lib/address.cc:504-515 | a match consumes at least one token; what it matches and shows is stated by `RouteSpecShape` |
| `Grammar.Mailbox` | lib/address.cc:517-521 | a match consumes at least one token |
| `Grammar.Mailboxes` | lib/address.cc:523-547 | a match consumes at least one token; what it matches and shows is stated by `MailboxesOrder` |
| `Grammar.Group` | lib/address.cc:549-562 | a match consumes at least one token; what it matches is stated by `GroupMembers` |
| `Grammar.Address` | lib/address.cc:564-568 | a match consumes at least one token |
| `Grammar.Addresses` | lib/address.cc:570-594 | a match consumes at least one token; what it matches and shows is stated by `AddressesOrder` |
| `GrammarProps.CommentsSplit` | lib/address.cc:341-348 | the comments of two adjacent stretches are those of their union, in order |
| `GrammarProps.SkippedComments` | lib/address.cc:341-348 | the text `skipcomment` appends is the comments of the tokens it skips |
| `GrammarProps.SubDomainComments` | lib/address.cc:350-359 | a sub-domain holds back exactly the comments it consumed |
| `GrammarProps.WordComments` | lib/address.cc:408-420 | a word holds back exactly the comments it consumed |
| `GrammarProps.DomainLoopComments` | lib/address.cc:361-383 | the domain loop keeps, in its match and its accumulator together, the comments it consumed |
| `GrammarProps.DomainComments` | lib/address.cc:361-383 | a domain holds back exactly the comments it consumed |
| `GrammarProps.LocalPartLoopComments` | lib/address.cc:422-442 | the local-part loop keeps the comments it consumed |
| `GrammarProps.LocalPartComments` | lib/address.cc:422-442 | a local part holds back exactly the comments it consumed |
| `GrammarProps.AddrSpecLoopComments` | lib/address.cc:444-469 | the addr-spec loop keeps the comments it consumed |
| `GrammarProps.AddrSpecComments` | lib/address.cc:444-469 | an addr-spec holds back exactly the comments it consumed |
| `GrammarProps.RouteLoopComments` | lib/address.cc:391-405 | the route loop keeps the comments it consumed |
| `GrammarProps.RouteHoldsEnd` | lib/address.cc:401-405 | the end of the route loop holds back exactly the comments consumed |
| `GrammarProps.RouteComments` | lib/address.cc:385-406 | a route holds back exactly the comments it consumed |
| `GrammarProps.LeadingComments` | lib/address.cc:474-480 | the comments a route-addr gathers before its addr-spec are those of the tokens before the addr-spec |
| `GrammarProps.DomainLoopKeeps` | lib/address.cc:361-383 | the domain loop keeps the display text equal to the address text and never empties it |
| `GrammarProps.DomainShape` | lib/address.cc:361-383 | a domain shows exactly its non-empty address text; it stops on a token that is not a comment, and where it stops on a `.`, no sub-domain follows it |
| `GrammarProps.DomainNonEmpty` | lib/address.cc:361-383 | a domain's address text is never empty |
| `GrammarProps.WordRoundTrip` | lib/address.cc:408-420 | a word's display text unquotes to its address text |
| `GrammarProps.LocalPartLoopStops` | lib/address.cc:422-442 | the local-part loop stops only where no `.` followed by a word comes next |
| `GrammarProps.LocalPartStops` | lib/address.cc:422-442 | a local part takes every `.`-separated word there is |
| `GrammarProps.PhraseLoopStops` | lib/address.cc:488-502 | the phrase loop stops only where no word comes next |
| `GrammarProps.PhraseStops` | lib/address.cc:488-502 | a phrase takes every word there is |
| `GrammarProps.PhraseWords` | lib/address.cc:488-502 | the words that follow one another from a position: as many shown texts as address texts, ending inside the token list |
| `GrammarProps.DotWords` | lib/address.cc:422-442 | the `. word` segments that follow one another from a position: as many shown texts as address texts, ending inside the token list |
| `GrammarProps.PhraseLoopWords` | lib/address.cc:492-500 | the phrase loop stops where the words end, adds each word's display after a space and keeps the first word's address text |
| `GrammarProps.PhraseText` | lib/address.cc:488-502 | a phrase matches exactly when a word does; it takes every following word, shows its words joined by single spaces, holds back every comment among them, and its address text is its first word's |
| `GrammarProps.LocalPartLoopWords` | lib/address.cc:426-440 | the local-part loop stops where the `. word` segments end and adds each segment's display and address text after a `.` |
| `GrammarProps.LocalPartText` | lib/address.cc:422-442 | a local part matches exactly when a word does; it takes every following `. word`, and its display and address texts are its words' displays and address texts joined by `.` |
| `GrammarProps.AtDomains` | lib/address.cc:444-469 | the `@ domain` segments after a local part end inside the token list |
| `GrammarProps.AddrSpecLoopFolds` | lib/address.cc:444-469 | the addr-spec loop ends where the `@ domain` chain ends, keeps the last domain pending, and folds every earlier domain into the text after an `@` |
| `GrammarProps.AddrSpecRouting` | lib/address.cc:444-469 | an addr-spec matches exactly when a local part does; for `l@d1@…@dn` the address is the local part's address text, then `@d1…@d(n-1)@canon(dn)` and a line feed; the display text is the local part's display text (a quoted string shown re-quoted), then the same `@d1…@d(n-1)@canon(dn)`, without the line feed |
| `GrammarProps.AddrSpecLine` | lib/address.cc:444-469 | every address an addr-spec yields is non-empty and ends in a line feed |
| `GrammarProps.RouteDomains` | lib/address.cc:391-400 | the `@ domain` segments of a route end inside the token list |
| `GrammarProps.RouteLoopDomains` | lib/address.cc:391-405 | the route loop succeeds exactly when the `@ domain` segments are read without a failing domain, at least one is taken, and a `:` follows after comments; it shows each domain after an `@` and adds no address |
| `GrammarProps.RouteShape` | lib/address.cc:385-406 | a route matches if and only if it starts with `@`, every `@` is followed by a domain and a `:` follows the last one after comments; it shows `@d1…@dn`, has at least one domain, ends past the `:` and adds no address text |
| `GrammarProps.RouteAddrTrailing` | lib/address.cc:471-486 | the comments a closed route-addr gathers (before the `<`, in the route, in the addr-spec, before the `>`) are every comment of its tokens, in order |
| `GrammarProps.RouteAddrShape` | lib/address.cc:471-486 | a route-addr matches if and only if a `<` comes after comments, an addr-spec after the route (if any), and a `>` after comments; its address is exactly the addr-spec's, and it shows the addr-spec in angle brackets followed by every comment it consumed, in order; the route's domains show in neither |
| `GrammarProps.PhraseEnd` | lib/address.cc:506-508 | the route-addr of a route-spec starts at or after the route-spec's start, inside the token list |
| `GrammarProps.RouteSpecShape` | lib/address.cc:504-515 | a route-spec matches exactly when a route-addr does after the phrase (or at the start without one); its end and address are that route-addr's, it holds back no comment, and it shows the phrase, the phrase's comments, a space and the route-addr's display, or the route-addr's display alone |
| `GrammarProps.MailboxAddress` | lib/address.cc:517-521 | a mailbox's address is that of an addr-spec, so it is non-empty and ends in a line feed |
| `GrammarProps.MailboxesLoopLines` | lib/address.cc:523-547 | the mailbox-list loop keeps its address text non-empty and ending in a line feed |
| `GrammarProps.MailboxesLines` | lib/address.cc:523-547 | a mailbox list's address text is non-empty and ends in a line feed |
| `GrammarProps.MoreMailboxes` | lib/address.cc:529-543 | the mailboxes after the first end where the list loop stops: past every comma and comment, on the end of the text or on a token that starts no mailbox |
| `GrammarProps.MailboxesLoopList` | lib/address.cc:529-546 | the mailbox-list loop stops where the list ends, adds the later mailboxes' addresses in input order, and shows each later mailbox and its comments after the comments among the commas before it and `", "`, then the comments after the last |
| `GrammarProps.MailboxesOrder` | lib/address.cc:523-547 | a mailbox list matches if and only if a first mailbox does; its address text is the members' addresses in input order; it shows the first member and its comments, then each later member and its comments after the comments among the commas before it and `", "`, then the comments after the last; it holds back no comment, and it consumes every comma and comment after the last member |
| `GrammarProps.GroupMembers` | lib/address.cc:549-562 | a group matches if and only if a phrase, a `:` and, after the member list when one matches and after comments, a `;` come; its address text is the member list's, empty without one; it shows the phrase, `": "`, the list, the comments before the `;` and the `;`, dropping the phrase's own comments |
| `GrammarProps.GroupLines` | lib/address.cc:549-562 | a group's address text is empty or ends in a line feed |
| `GrammarProps.AddressLines` | lib/address.cc:564-568 | every address's text is empty or ends in a line feed |
| `GrammarProps.MoreAddresses` | lib/address.cc:577-590 | the addresses after the first end where the list loop stops, inside the token list |
| `GrammarProps.AddressesLoopList` | lib/address.cc:575-593 | the list loop succeeds exactly when it ends on the end of the text, and then adds the later addresses in input order and shows each after the comments among the commas before it and `", "`, then the comments after the last |
| `GrammarProps.AddressesOrder` | lib/address.cc:570-594 | an address list matches exactly when its first address matches and the loop ends on the end of the text; its address text is the members' addresses concatenated in input order; it shows the first address and its comments, then each later one and its comments after the comments among the commas before it and `", "`, then the comments after the last |
| `Matcher.MatchDomain` | lib/address.cc:361-383 | the loop of `match_domain` computes `Domain` |
| `Matcher.MatchRoute` | lib/address.cc:385-406 | the loop of `match_route` computes `Route`, whose matches `RouteShape` states |
| `Matcher.MatchLocalPart` | lib/address.cc:422-442 | the loop of `match_local_part` computes `LocalPart`, whose matches `LocalPartText` states |
| `Matcher.MatchAddrSpec` | lib/address.cc:444-469 | the loop of `match_addr_spec`, with its pending domain, computes `AddrSpec` |
| `Matcher.MatchPhrase` | lib/address.cc:488-502 | the loop of `match_phrase` computes `Phrase`, whose matches `PhraseText` states |
| `Matcher.SkipCommas` | lib/address.cc:531-535 | the separator loop stops past every comma and comment, and appends the comments to the text |
| `Matcher.MatchMailboxes` | lib/address.cc:523-547 | the loop of `match_mailboxes` computes `Mailboxes`, whose matches `MailboxesOrder` states |
| `Matcher.MatchAddresses` | lib/address.cc:570-594 | the loop of `match_addresses` computes `Addresses`, whose matches `AddressesOrder` states |
| `Parser.Parse` | lib/address.cc:605-619 | a line parses only if it tokenizes, and its address list is empty or ends in a line feed |
| `Parser.MoreAddressesLines` | lib/address.cc:577-590 | the addresses the list loop collects join into a text that is empty or ends in a line feed |
| `Parser.ParsedLines` | lib/address.cc:570-594 | a matched address list's address text is empty or ends in a line feed |
| `Parser.ParsedText` | lib/address.cc:570-619 | a line is accepted exactly when it tokenizes, an address matches at its start, and the list loop ends on the end of the text; the new line shows the first address, then each later one after the comments among the commas before it and `", "`, then the trailing comments; the list is the addresses in input order |
| `Parser.ParseAddresses` | lib/address.cc:605-619 | succeeds exactly when `Parse` does; on success the line becomes the normalized text and the list the addresses, empty or ending in a line feed; on failure both are unchanged |
| `Parser.EscapedNewlineScan` | lib/address.cc:229-272 | the steps of the tokenizer over `"a\<LF>b"@c` |
| `Parser.EscapedNewlineTokens` | lib/address.cc:274-289 | `"a\<LF>b"@c` tokenizes as a quoted string that keeps its escaped line feed, `@`, `c` and the end |
| `Parser.EscapedNewlineValid` | lib/address.cc:274-289 | the tokens of `"a\<LF>b"@c` form a valid token list |
| `Parser.EscapedNewlineWord` | lib/address.cc:291-339 | `unquote` turns the escaped line feed into a plain one and `quote` leaves the result alone |
| `Parser.EscapedNewlineWords` | lib/address.cc:408-420 | the quoted string is one word and the `@` after it is none |
| `Parser.EscapedNewlineLocalPart` | lib/address.cc:422-442 | the quoted string is the whole phrase and the whole local part |
| `Parser.EscapedNewlineNoRoute` | lib/address.cc:504-562 | the line is neither a group nor a route-spec |
| `Parser.EscapedNewlineAddrSpec` | lib/address.cc:444-469 | the addr-spec's address is the unquoted local part, `@`, the canonical domain and a line feed |
| `Parser.EscapedNewlineList` | lib/address.cc:570-594 | the address list holds that one addr-spec |
| `Parser.EscapedNewline` | lib/address.cc:605-619 | the address text of `"a\<LF>b"@c` is `a`, a line feed, `b@`, the canonical `c` and a line feed: an address ends in a line feed but may hold another |
| `Samples.AtomStep` | lib/address.cc:246-272 | after spaces, a maximal run of atom characters is read as one atom token |
| `Samples.SpecialStep` | lib/address.cc:246-272 | after spaces, one of `<>@,;:\.` is read as its one-character token |
| `Samples.ReadsCons` | lib/address.cc:274-289 | a step that reads a token other than the end puts it in front of the tokens after it |
| `Samples.NamedTokensOf` | lib/address.cc:274-289 | a line spelled `John Doe <john@example.com>` tokenizes as two atoms, `<`, `john`, `@`, `example`, `.`, `com`, `>` and the end |
| `Samples.NamedPhrase` | lib/address.cc:488-502 | two atoms before `<` are one phrase shown as the two one space apart, with the first as its address text |
| `Samples.SimpleAddrSpec` | lib/address.cc:444-469 | the tokens `l @ x . y`, followed by one that continues neither, are the addr-spec shown `l@` + canonical `x.y`, with a line feed in the address |
| `Samples.NamedRouteAddr` | lib/address.cc:471-486 | `<`, an addr-spec and `>` form a route-addr without a route, shown as the addr-spec in angle brackets, with the addr-spec's address |
| `Samples.PhraseRouteSpec` | lib/address.cc:504-515 | a phrase and a route-addr after it, neither holding back a comment, form a route-spec shown as the phrase, a space and the route-addr's display |
| `Samples.NamedNoGroup` | lib/address.cc:549-562 | a phrase followed by `<` is no group |
| `Samples.WholeLine` | lib/address.cc:570-594 | an address that ends the token list is the whole address list |
| `Samples.NamedMatch` | lib/address.cc:564-594 | the tokens of `John Doe <john@example.com>` match as one address list shown `John Doe <john@` + canonical `example.com` + `>`, with the address `john@` + canonical `example.com` and a line feed |
| `Samples.Named` | lib/address.cc:605-619 | a line spelled `John Doe <john@example.com>` is accepted; the line written back is `John Doe <john@` + the canonical domain + `>`, and the list is `john@` + the canonical domain and a line feed |
| `Samples.GroupTokensOf` | lib/address.cc:274-289 | a line spelled `list: a@b.c, d@e.f;` tokenizes as `list`, `:`, the two addr-specs' tokens with a comma between, `;` and the end |
| `Samples.SimpleMailbox` | lib/address.cc:517-521 | the tokens `l @ x . y`, followed by one that continues neither, are a mailbox through its addr-spec alternative: `l@` + canonical `x.y` |
| `Samples.GroupListOf` | lib/address.cc:523-547 | two mailboxes separated by a comma and followed by `;` form a list shown as the two joined by `", "`, with both addresses in order |
| `Samples.GroupOf` | lib/address.cc:549-562 | a one-word phrase, `:`, such a list and `;` form a group shown as the phrase, `": "`, the list and `;`, with the list's addresses |
| `Samples.GroupMatch` | lib/address.cc:549-594 | tokens of that shape match as one address list: `list: a@` + canonical `b.c` + `, d@` + canonical `e.f` + `;`, with both addresses in order |
| `Samples.GroupOfTwo` | lib/address.cc:605-619 | a line spelled `list: a@b.c, d@e.f;` is accepted; the line written back is `list: a@` + canonical `b.c` + `, d@` + canonical `e.f` + `;`, and the list holds both addresses, each ending in a line feed, in order |

## Left out

- Token-list memory (`del_tokens`, node allocation and deletion): the token list is a sequence value.
- Trace output (the `TRACE` macros and their output stream): it has no effect on results.
- `canonicalize`: its body lives outside this file; it is the parameter `canon`.
- `mystring` internals: text is a sequence of characters and one byte is one character.
- The position where a failed scanner leaves the cursor is not modelled, because the only caller discards it.
- A NUL inside the line ends the C string there; the model reads NUL as the terminator wherever it appears.
- Quoting.Unquote: requires `UnquoteDefined`, which excludes the inputs on which the C code reads past the end of the text or wraps its unsigned length (a lone `"`, or an escape just before a stripped closing quote). Every quoted-string token meets it (`QuotedTokenUnquotes`), and so every call the grammar makes does.
- Grammar.RouteAddr, Grammar.Route, Grammar.Mailboxes, Grammar.Group and the other `Grammar` rule functions: their own contracts (`Grammar.SubDomain` to `Grammar.Addresses`) state only that a match consumes at least one token. What they match is stated by the lemmas their rows name, and the methods in `Matcher` are proved to compute these functions.
- Grammar.Mailbox and Grammar.Address: no lemma restates their choice of the first alternative that matches, which is their whole body; `MailboxAddress` and `AddressLines` state what their address text is.
- The grammar rules without a loop (sub-domain, word, route-addr, route-spec, mailbox, group, address) are modelled only as functions. Each of them is a fixed sequence of calls, so the function is the rule.
- QuotingProps.QuotedRescans: requires a text without line feeds, because `quote` does not escape a line feed and the quoted-string scan rejects a bare one; a text without a special is covered by `AtomRescans` when it is a run of atom characters, and `SpaceNotRequoted` shows one with a space that does not re-scan as one token.
