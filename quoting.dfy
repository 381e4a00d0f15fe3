/** `quote` and `unquote` of lib/address.cc: moving a local-part word
    between its raw text and its quoted-string surface form. */
module Quoting {
  import opened Chars
  import opened Tokenizer

  predicate HasSymbol(s: string) {
    exists i | 0 <= i < |s| :: IsSymbol(s[i])
  }

  /** One character as `quote` writes it: a symbol gets an escape before it. */
  function Piece(c: char): string {
    if IsSymbol(c) then [ESCAPE, c] else [c]
  }

  function Escaped(s: string): string
    decreases |s|
  {
    if s == [] then [] else Piece(s[0]) + Escaped(s[1..])
  }

  /** What `quote` returns: the text itself when it has no symbol character
      (whitespace alone never causes quoting), otherwise the escaped text
      between double quotes. */
  function Quoted(s: string): string {
    if HasSymbol(s) then [QUOTE] + Escaped(s) + [QUOTE] else s
  }

  /** `unquote` strips the outer quotes when the text starts and ends with one. */
  predicate Strips(s: string) {
    |s| >= 2 && s[0] == QUOTE && s[|s| - 1] == QUOTE
  }

  /** Copying the `n` characters from `i` would meet an escape as the last
      one, with a non-NUL character after it in memory: `unquote` would then
      read its quoted pair past the end and its unsigned length would wrap. */
  predicate Dangles(s: string, i: nat, n: nat)
    requires i + n <= |s|
    decreases n
  {
    n > 0 &&
    if IsQPair(s, i) then n == 1 || Dangles(s, i + 2, n - 2)
    else Dangles(s, i + 1, n - 1)
  }

  /** The `n` characters from `i`, each quoted pair replaced by the
      character it escapes. */
  function UnescapeFrom(s: string, i: nat, n: nat): string
    requires i + n <= |s| && !Dangles(s, i, n)
    decreases n
  {
    if n == 0 then []
    else if IsQPair(s, i) then [s[i + 1]] + UnescapeFrom(s, i + 2, n - 2)
    else [s[i]] + UnescapeFrom(s, i + 1, n - 1)
  }

  lemma {:induction false} SuffixNeverDangles(s: string, i: nat)
    requires i <= |s|
    ensures !Dangles(s, i, |s| - i)
    decreases |s| - i
  {
    if i < |s| {
      if IsQPair(s, i) {
        SuffixNeverDangles(s, i + 2);
      } else {
        SuffixNeverDangles(s, i + 1);
      }
    }
  }

  /** The inputs on which `unquote` is defined: not a lone `"` (its length
      would wrap below zero), and no escape left dangling before a
      stripped closing quote. */
  predicate UnquoteDefined(s: string) {
    s != [QUOTE] && (Strips(s) ==> !Dangles(s, 1, |s| - 2))
  }

  /** What `unquote` returns. */
  function Unquoted(s: string): string
    requires UnquoteDefined(s)
  {
    if Strips(s) then UnescapeFrom(s, 1, |s| - 2)
    else SuffixNeverDangles(s, 0); UnescapeFrom(s, 0, |s|)
  }

  // ---------------------------------------------------------------------
  // The two loops as the source runs them

  lemma {:induction false} EscapedSnoc(s: string, c: char)
    ensures Escaped(s + [c]) == Escaped(s) + Piece(c)
    decreases |s|
  {
    if s == [] {
      assert Escaped([c]) == Piece(c) + Escaped([]);
    } else {
      assert (s + [c])[1..] == s[1..] + [c];
      EscapedSnoc(s[1..], c);
    }
  }

  method Quote(s: string) returns (r: string)
    ensures r == Quoted(s)
  {
    var out: string := [];
    var quoted := false;
    var i := 0;
    while i < |s|
      invariant 0 <= i <= |s|
      invariant out == Escaped(s[..i])
      invariant quoted == HasSymbol(s[..i])
    {
      if IsSymbol(s[i]) {
        out := out + [ESCAPE];
        quoted := true;
      }
      out := out + [s[i]];
      assert s[..i + 1] == s[..i] + [s[i]];
      EscapedSnoc(s[..i], s[i]);
      assert s[..i + 1][i] == s[i];
      assert HasSymbol(s[..i]) ==> HasSymbol(s[..i + 1]) by {
        if HasSymbol(s[..i]) {
          var k :| 0 <= k < i && IsSymbol(s[..i][k]);
          assert s[..i + 1][k] == s[..i][k];
        }
      }
      i := i + 1;
    }
    assert s[..i] == s;
    if quoted {
      r := [QUOTE] + out + [QUOTE];
    } else {
      r := s;
    }
  }

  /** One turn of the copying loop of `unquote`, which copies the
      character at `j`: the second one of a quoted pair, or any other
      character itself. */
  lemma UnescapeStep(s: string, i: nat, n: nat, out: string, i': nat, n': nat, out': string)
    requires i + n <= |s| && n > 0 && !Dangles(s, i, n)
    requires var j := if IsQPair(s, i) then i + 1 else i;
      i' == j + 1 && i' + n' == i + n && out' == out + [s[j]]
    ensures !Dangles(s, i', n')
    ensures out' + UnescapeFrom(s, i', n') == out + UnescapeFrom(s, i, n)
  {
    var j := i' - 1;
    assert UnescapeFrom(s, i, n) == [s[j]] + UnescapeFrom(s, i', n');
  }

  method Unquote(s: string) returns (r: string)
    requires UnquoteDefined(s)
    ensures r == Unquoted(s)
  {
    var length: nat := |s|;
    var modified := false;
    var ptrin: nat := 0;
    var out: string := [];
    if |s| > 0 && s[0] == QUOTE && s[length - 1] == QUOTE {
      length := length - 2;
      ptrin := ptrin + 1;
      modified := true;
    }
    if !Strips(s) {
      SuffixNeverDangles(s, 0);
    }
    ghost var i0, n0 := ptrin, length;
    assert Unquoted(s) == UnescapeFrom(s, i0, n0);
    while length > 0
      invariant ptrin + length == i0 + n0 <= |s|
      invariant !Dangles(s, ptrin, length)
      invariant out + UnescapeFrom(s, ptrin, length) == UnescapeFrom(s, i0, n0)
      invariant !modified ==> i0 == 0 && n0 == |s| && out == s[..ptrin]
    {
      ghost var i, n, before := ptrin, length, out;
      if IsQPair(s, ptrin) {
        ptrin := ptrin + 1;
        length := length - 1;
        modified := true;
      } else if !modified {
        assert s[..ptrin + 1] == s[..ptrin] + [s[ptrin]];
      }
      out := out + [s[ptrin]];
      ptrin := ptrin + 1;
      length := length - 1;
      UnescapeStep(s, i, n, before, ptrin, length, out);
    }
    if modified {
      r := out;
    } else {
      r := s;
    }
  }
}
