/**
 * The escape sequences of `translate_str`: `\{` stands for `{`, `\}` for
 * `}` and `\/` for a backslash. `Unescape` is what the translator does;
 * `Escape` writes any text in that notation, and the two are inverse.
 */
module Escapes {
  import opened Text
  import opened Placeholders

  /** The three global rewrites, in the source's order: `\{`, then `\}`, then `\/`. */
  function Unescape(s: string): string
  {
    var a := ReplaceAll(s, "\\{", "{");
    var b := ReplaceAll(a, "\\}", "}");
    ReplaceAll(b, "\\/", "\\")
  }

  /** The character written after the backslash to stand for `c`. */
  function Code(c: char): char
  {
    if c == '\\' then '/' else c
  }

  /** How `c` is written when the characters of `e` are escaped. */
  function EscapeChar(c: char, e: set<char>): string
  {
    if c in e then ['\\', Code(c)] else [c]
  }

  /** `s` with the characters of `e` written as escape sequences. */
  function EscapeOnly(s: string, e: set<char>): string
  {
    if s == [] then [] else EscapeChar(s[0], e) + EscapeOnly(s[1..], e)
  }

  /** The documented way to write literal `{`, `}` and backslashes. */
  function Escape(s: string): string
  {
    EscapeOnly(s, {'{', '}', '\\'})
  }

  /** Escaping works piece by piece. */
  lemma {:induction false} EscapeAppend(a: string, b: string, e: set<char>)
    ensures EscapeOnly(a + b, e) == EscapeOnly(a, e) + EscapeOnly(b, e)
  {
    if a == [] {
      assert a + b == b;
    } else {
      assert (a + b)[0] == a[0] && (a + b)[1..] == a[1..] + b;
      EscapeAppend(a[1..], b, e);
    }
  }

  /** Text without the escaped characters is its own escaped form. */
  lemma {:induction false} EscapeUnchanged(s: string, e: set<char>)
    requires forall c :: c in e ==> c !in s
    ensures EscapeOnly(s, e) == s
  {
    if s != [] {
      assert s[0] in s;
      EscapeUnchanged(s[1..], e);
    }
  }

  /** Escaping nothing is the identity. */
  lemma {:induction false} EscapeNothing(s: string)
    ensures EscapeOnly(s, {}) == s
  {
    if s != [] {
      EscapeNothing(s[1..]);
    }
  }

  /** A different escape sequence in front is copied, and the pass goes on after it. */
  lemma PassOther(d: char, rest: string, c: char)
    requires d in {'{', '}', '\\'} && c in {'{', '}', '\\'} && d != c
    ensures ReplaceAll(['\\', Code(d)] + rest, ['\\', Code(c)], [c]) == ['\\', Code(d)] + ReplaceAll(rest, ['\\', Code(c)], [c])
  {
    var pat := ['\\', Code(c)];
    var t := ['\\', Code(d)] + rest;
    assert t[..2] != pat by {
      assert t[..2][1] == Code(d) != Code(c);
    }
    assert t[1..] == [Code(d)] + rest;
    ReplaceAllSkip(Code(d), rest, pat, [c]);
  }

  /**
   * One rewrite pass turns the escape sequences for `c` back into `c` and
   * leaves every other escape sequence alone; it cannot confuse them, since
   * every backslash still present starts an escape sequence.
   */
  lemma {:induction false} UnescapePass(s: string, e: set<char>, c: char)
    requires c in e && '\\' in e && e <= {'{', '}', '\\'}
    ensures ReplaceAll(EscapeOnly(s, e), ['\\', Code(c)], [c]) == EscapeOnly(s, e - {c})
  {
    var pat := ['\\', Code(c)];
    if s != [] {
      var rest := EscapeOnly(s[1..], e);
      UnescapePass(s[1..], e, c);
      if s[0] == c {
        ReplaceAllHit(rest, pat, [c]);
      } else if s[0] in e {
        PassOther(s[0], rest, c);
      } else {
        ReplaceAllSkip(s[0], rest, pat, [c]);
      }
    }
  }

  /** Unescaping an escaped text gives the text back. */
  lemma UnescapeEscape(s: string)
    ensures Unescape(Escape(s)) == s
  {
    UnescapePass(s, {'{', '}', '\\'}, '{');
    assert {'{', '}', '\\'} - {'{'} == {'}', '\\'};
    UnescapePass(s, {'}', '\\'}, '}');
    assert {'}', '\\'} - {'}'} == {'\\'};
    UnescapePass(s, {'\\'}, '\\');
    assert {'\\'} - {'\\'} == {};
    EscapeNothing(s);
  }

  /** No backslash of `s` starts one of the three escape sequences. */
  predicate NoEscapes(s: string)
  {
    forall i :: 0 <= i < |s| - 1 && s[i] == '\\' ==> s[i + 1] != '{' && s[i + 1] != '}' && s[i + 1] != '/'
  }

  /** Text without escape sequences is left alone by the rewrites. */
  lemma UnescapeNoEscapes(s: string)
    requires NoEscapes(s)
    ensures Unescape(s) == s
  {
    forall q ensures !OccursAt(s, "\\{", q) && !OccursAt(s, "\\}", q) && !OccursAt(s, "\\/", q)
    {
      if 0 <= q && q + 2 <= |s| {
        assert s[q..q + 2][0] == s[q] && s[q..q + 2][1] == s[q + 1];
      }
    }
    ReplaceAllAbsent(s, "\\{", "{");
    ReplaceAllAbsent(s, "\\}", "}");
    ReplaceAllAbsent(s, "\\/", "\\");
  }

  /** In an escaped text every `{` follows a backslash. */
  lemma {:induction false} EscapedBraceFollowsBackslash(s: string, i: int)
    requires 0 <= i < |Escape(s)| && Escape(s)[i] == '{'
    ensures i > 0 && Escape(s)[i - 1] == '\\'
  {
    var u := if s[0] in {'{', '}', '\\'} then ['\\', Code(s[0])] else [s[0]];
    var rest := Escape(s[1..]);
    assert Escape(s) == u + rest;
    if i >= |u| {
      EscapedBraceFollowsBackslash(s[1..], i - |u|);
    }
  }

  /** An escaped text holds no placeholder. */
  lemma EscapedHasNoTokens(s: string)
    ensures forall i, j :: !TokenAt(Escape(s), i, j)
  {
    forall i | 0 <= i < |Escape(s)| && Escape(s)[i] == '{'
      ensures i > 0 && Escape(s)[i - 1] == '\\'
    {
      EscapedBraceFollowsBackslash(s, i);
    }
  }
}
