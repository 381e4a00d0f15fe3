/** Optional values: the model's stand-in for the null `anode*` results and the
    "falsy" results of lib/address.cc. */
module Wrappers {
  datatype Option<+T> = None | Some(value: T)
}

/** Character classes of the RFC 822 lexer.

    A byte of the C string is modelled by the character with the same code.
    Bytes of 128 and above are negative `char`s in the source, so they are
    neither control characters nor spaces nor symbols: they are atom
    characters, and so is every character code above 255 here. */
module Chars {
  const NUL: char := '\0'
  /** The source's `CR` macro is the line feed. */
  const CR: char := '\n'
  const QUOTE: char := '"'
  const ESCAPE: char := '\\'
  const LPAREN: char := '('
  const RPAREN: char := ')'
  const LSQBRACKET: char := '['
  const RSQBRACKET: char := ']'

  /** The byte at `i`; past the end of the text it is the terminating NUL. */
  function CharAt(s: string, i: nat): (c: char)
    ensures c != NUL ==> i < |s| && c == s[i]
    ensures i < |s| ==> c == s[i]
  {
    if i < |s| then s[i] else NUL
  }

  /** `isspace` in the C locale: space, tab, line feed, vertical tab,
      form feed and carriage return. */
  predicate IsSpace(c: char) {
    c == ' ' || 9 <= c as int <= 13
  }

  /** The RFC 822 specials: they end an atom and must be escaped to be
      quoted. */
  predicate IsSymbol(c: char) {
    c == '(' || c == ')' || c == '<' || c == '>' || c == '[' || c == ']' ||
    c == '@' || c == ',' || c == ';' || c == ':' || c == '\\' || c == '"' ||
    c == '.'
  }

  predicate IsCtl(c: char) {
    c as int <= 31 || c as int == 127
  }

  predicate IsQText(c: char) {
    c != NUL && c != QUOTE && c != ESCAPE && c != CR
  }

  predicate IsDText(c: char) {
    c != NUL && c != LSQBRACKET && c != RSQBRACKET && c != ESCAPE && c != CR
  }

  /** quoted-pair = ESCAPE CHAR, where CHAR is anything but the terminator. */
  predicate IsQPair(s: string, i: nat) {
    CharAt(s, i) == ESCAPE && CharAt(s, i + 1) != NUL
  }

  predicate IsAtom(c: char) {
    !(IsSpace(c) || IsSymbol(c) || IsCtl(c))
  }
}
