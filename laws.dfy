/**
 * What `translate_str` does on the inputs its documentation and design
 * discuss, proved for every inner text and every translator function that
 * meet the stated conditions: a lone placeholder, the same placeholder
 * twice, the documented escape example, and the two ways the one-occurrence
 * replacement can hit text other than the match it was made for.
 */
module TranslationLaws {
  import opened Wrappers
  import opened Text
  import opened Placeholders
  import opened Escapes
  import opened Values
  import opened Translation

  /** A regex-literal inner text holds no brace and no backslash. */
  lemma LiteralInner(k: string)
    requires RegexLiteral(k)
    ensures '{' !in k && '}' !in k && '\\' !in k
  {
    forall i | 0 <= i < |k|
      ensures k[i] != '{' && k[i] != '}' && k[i] != '\\'
    {
      assert !IsRegexSpecial(k[i]);
    }
  }

  /** `t` has the shape of a placeholder text: `{`, characters other than braces and backslashes, `}`. */
  predicate Braced(t: string)
  {
    && |t| >= 2 && t[0] == '{' && t[|t| - 1] == '}'
    && (forall x :: 0 < x < |t| ==> t[x] != '{' && t[x] != '\\')
    && (forall x :: 0 < x < |t| - 1 ==> t[x] != '}')
  }

  /** `{k}` has that shape when `k` is regex-literal, and `k` is its inner text. */
  lemma BracedOf(k: string)
    requires RegexLiteral(k)
    ensures Braced(Placeholder(k)) && Inner(Placeholder(k)) == k
  {
    LiteralInner(k);
    var t := Placeholder(k);
    forall x | 0 < x < |t| - 1
      ensures t[x] == k[x - 1]
    {
    }
  }

  /** A text of that shape is a placeholder wherever it stands after anything but a backslash. */
  lemma BracedShape(s: string, i: nat, t: string)
    requires Braced(t) && i + |t| <= |s| && s[i..i + |t|] == t && (i == 0 || s[i - 1] != '\\')
    ensures TokenAt(s, i, i + |t|)
  {
    forall x | i < x < i + |t| - 1
      ensures !IsBrace(s[x])
    {
      assert s[x] == s[i..i + |t|][x - i];
    }
  }

  /** The three parts of `a + b + c`, as slices. */
  lemma Parts3(a: string, b: string, c: string)
    ensures var s := a + b + c;
      s[..|a|] == a && s[|a|..|a| + |b|] == b && s[|a| + |b|..] == c && s[0..|a|] == a && s[|a| + |b|..|s|] == c
  {
  }

  /** Text without backslashes has no escape sequence. */
  lemma NoBackslashNoEscapes(s: string)
    requires '\\' !in s
    ensures NoEscapes(s)
  {
  }

  /** A lone placeholder `{k}` becomes `f(k)`. */
  lemma SinglePlaceholder(f: string -> string, k: string, s: string)
    requires s == Placeholder(k)
    requires RegexLiteral(k) && '\\' !in f(k)
    ensures LiteralSafe(Some(f), s) && Translated(Some(f), s) == f(k)
  {
    BracedOf(k);
    assert s[0..|s|] == s;
    BracedShape(s, 0, s);
    OneMatch(s, 0, |s|);
    TranslatedOne(f, s, s, k);
    assert OccursAt(s, s, 0);
    ReplaceFirstAt(s, s, f(k), 0);
    assert s[..0] + f(k) + s[|s|..] == f(k);
    UnescapeNoBackslash(f(k));
  }

  /** Where the placeholders of `t` + `m` + `t` are. */
  lemma RepeatedShape(s: string, t: string, m: string)
    requires Braced(t) && '{' !in m && '\\' !in m && s == t + m + t
    ensures TokenAt(s, 0, |t|) && TokenAt(s, |t| + |m|, |s|) && BracesEscaped(s, |t|, |t| + |m|)
    ensures s[0..|t|] == t && s[|t| + |m|..|s|] == t
  {
    Parts3(t, m, t);
    BracedShape(s, 0, t);
    SecondCopy(s, t, m);
    MiddleFree(s, t, m);
  }

  /** The second copy of `t` in `t` + `m` + `t` is a placeholder. */
  lemma SecondCopy(s: string, t: string, m: string)
    requires Braced(t) && '\\' !in m && s == t + m + t
    ensures TokenAt(s, |t| + |m|, |s|)
  {
    var p := |t| + |m|;
    assert s[p..|s|] == t;
    assert s[p - 1] != '\\' by {
      if m == [] {
        assert s[p - 1] == t[|t| - 1];
      } else {
        assert s[p - 1] == m[|m| - 1];
      }
    }
    BracedShape(s, p, t);
  }

  /** No `{` in the middle part of `t` + `m` + `t`. */
  lemma MiddleFree(s: string, t: string, m: string)
    requires '{' !in m && s == t + m + t
    ensures BracesEscaped(s, |t|, |t| + |m|)
  {
    forall i | |t| <= i < |t| + |m|
      ensures s[i] != '{'
    {
      assert s[i] == m[i - |t|];
    }
  }

  /** The two first-occurrence replacements on `{k}` + `m` + `{k}`. */
  lemma RepeatedSubstitute(s: string, t: string, v: string, m: string)
    requires |t| > 0 && t[0] == '{' && s == t + m + t && '{' !in m && '{' !in v
    ensures ReplaceFirst(ReplaceFirst(s, t, v), t, v) == v + m + v
  {
    assert OccursAt(s, t, 0);
    ReplaceFirstAt(s, t, v, 0);
    var r1 := v + m + t;
    assert ReplaceFirst(s, t, v) == r1;
    assert OccursAt(r1, t, |v| + |m|);
    assert r1[..|v| + |m|] == v + m;
    ReplaceFirstAfter(r1, t, v, |v| + |m|);
  }

  /**
   * The same placeholder twice: each match replaces the first remaining
   * occurrence of its text, so both occurrences are replaced, each by its
   * own call of `f`.
   */
  lemma RepeatedPlaceholder(f: string -> string, k: string, m: string, s: string)
    requires s == Placeholder(k) + m + Placeholder(k)
    requires RegexLiteral(k) && '{' !in m && '\\' !in m
    requires '{' !in f(k) && '\\' !in f(k)
    ensures LiteralSafe(Some(f), s) && Translated(Some(f), s) == f(k) + m + f(k)
  {
    var t := Placeholder(k);
    LiteralInner(k);
    BracedOf(k);
    RepeatedShape(s, t, m);
    TwoMatches(s, |t|, |t| + |m|);
    TranslatedTwo(f, s, t, k, t, k);
    RepeatedSubstitute(s, t, f(k), m);
    UnescapeNoBackslash(f(k) + m + f(k));
  }

  /** Where the placeholder of `\` + `t` + `t` is. */
  lemma EscapedFirstShape(s: string, t: string)
    requires Braced(t) && s == "\\" + t + t
    ensures TokenAt(s, 1 + |t|, |s|) && BracesEscaped(s, 0, 1 + |t|) && BracesEscaped(s, |s|, |s|)
    ensures s[1 + |t|..|s|] == t && OccursAt(s, t, 1) && s[..1] == "\\"
  {
    Parts3("\\", t, t);
    BracedShape(s, 1 + |t|, t);
    forall i | 2 <= i < 1 + |t|
      ensures s[i] != '{'
    {
      assert s[i] == t[i - 1];
    }
  }

  /** `\` + `v` + `t` has no escape sequence when `v` does not start one. */
  lemma BackslashThenValue(v: string, t: string)
    requires v != [] && v[0] != '{' && v[0] != '}' && v[0] != '/'
    requires '\\' !in v && '\\' !in t
    ensures NoEscapes("\\" + v + t)
  {
    var r := "\\" + v + t;
    assert r[1..] == v + t;
    forall i | 1 <= i < |r|
      ensures r[i] != '\\'
    {
      assert r[i] == (v + t)[i - 1];
    }
  }

  /** The one replacement on `\` + `t` + `t` hits the copy right after the backslash. */
  lemma EscapedSubstitute(s: string, t: string, v: string)
    requires |t| > 0 && t[0] == '{' && s == "\\" + t + t
    ensures ReplaceFirst(s, t, v) == "\\" + v + t
  {
    Parts3("\\", t, t);
    assert OccursAt(s, t, 1);
    ReplaceFirstAfter(s, t, v, 1);
  }

  /**
   * The escaped text `\{k}` in front of the placeholder `{k}` is what gets
   * replaced: the scan skips the escaped brace, but the replacement of the
   * one match looks for its text from the start of the string. The result
   * keeps the backslash, then `f(k)`, then the real placeholder untouched.
   */
  lemma EscapedTextTakesReplacement(f: string -> string, k: string, s: string)
    requires s == "\\" + Placeholder(k) + Placeholder(k)
    requires RegexLiteral(k) && '\\' !in f(k)
    requires f(k) != [] && f(k)[0] != '{' && f(k)[0] != '}' && f(k)[0] != '/'
    ensures LiteralSafe(Some(f), s) && Translated(Some(f), s) == "\\" + f(k) + Placeholder(k)
  {
    var t := Placeholder(k);
    var v := f(k);
    LiteralInner(k);
    BracedOf(k);
    EscapedFirstShape(s, t);
    OneMatch(s, 1 + |t|, |s|);
    TranslatedOne(f, s, t, k);
    EscapedSubstitute(s, t, v);
    var r := "\\" + v + t;
    BackslashThenValue(v, t);
    UnescapeNoEscapes(r);
  }

  /** Where the placeholder of `p` + `\{` + `t` + `\}` + `Escape(x)` is. */
  lemma DocShape(s: string, p: string, t: string, x: string)
    requires Braced(t) && '{' !in p && '\\' !in p && s == p + "\\{" + t + "\\}" + Escape(x)
    ensures var a := |p| + 2;
      && TokenAt(s, a, a + |t|) && BracesEscaped(s, 0, a) && BracesEscaped(s, a + |t|, |s|)
      && s[a..a + |t|] == t && s[..a] == p + "\\{" && s[a + |t|..] == "\\}" + Escape(x)
  {
    var a := |p| + 2;
    var e := Escape(x);
    var n := a + |t| + 2;
    assert s[..a] == p + "\\{" && s[a..a + |t|] == t && s[a + |t|..] == "\\}" + e && s[n..] == e;
    BracedShape(s, a, t);
    forall i | 0 <= i < |p|
      ensures s[i] != '{'
    {
      assert s[i] == p[i];
    }
    forall i | n <= i < |s| && s[i] == '{'
      ensures s[i - 1] == '\\'
    {
      assert s[i] == e[i - n];
      EscapedBraceFollowsBackslash(x, i - n);
      assert s[i - 1] == e[i - n - 1];
    }
  }

  /** In `p` + `\{` + `t` + ... the text `t` first occurs right after the escaped brace. */
  lemma DocFirstOccurrence(s: string, p: string, t: string)
    requires Braced(t) && '{' !in p && |s| >= |p| + 2 + |t|
    requires s[..|p| + 2] == p + "\\{" && s[|p| + 2..|p| + 2 + |t|] == t
    ensures forall q :: 0 <= q < |p| + 2 ==> !OccursAt(s, t, q)
  {
    var a := |p| + 2;
    assert s[a] == '{';
    forall q | 0 <= q < a
      ensures !OccursAt(s, t, q)
    {
      if q + |t| <= |s| {
        assert s[q..q + |t|][0] == s[q] && s[q..q + |t|][1] == s[q + 1];
        assert s[q] == (p + "\\{")[q];
      }
    }
  }

  /** The one replacement in the doc text hits the placeholder itself. */
  lemma DocSubstitute(s: string, p: string, t: string, v: string, x: string)
    requires Braced(t) && '{' !in p && '\\' !in p && s == p + "\\{" + t + "\\}" + Escape(x)
    ensures ReplaceFirst(s, t, v) == p + "\\{" + v + "\\}" + Escape(x)
  {
    var a := |p| + 2;
    DocShape(s, p, t, x);
    DocFirstOccurrence(s, p, t);
    assert OccursAt(s, t, a);
    ReplaceFirstAt(s, t, v, a);
  }

  /** The substituted doc text is the escaped form of `p` + `{v}` + `x`. */
  lemma DocEscaped(p: string, v: string, x: string)
    requires '{' !in p && '}' !in p && '\\' !in p && '{' !in v && '}' !in v && '\\' !in v
    ensures p + "\\{" + v + "\\}" + Escape(x) == Escape(p + "{" + v + "}" + x)
  {
    var e := {'{', '}', '\\'};
    EscapeAppend(p + "{" + v + "}", x, e);
    EscapeAppend(p + "{" + v, "}", e);
    EscapeAppend(p + "{", v, e);
    EscapeAppend(p, "{", e);
    EscapeUnchanged(p, e);
    EscapeUnchanged(v, e);
    assert EscapeOnly("{", e) == "\\{" by {
      assert EscapeOnly("{", e) == EscapeChar('{', e) + EscapeOnly([], e);
    }
    assert EscapeOnly("}", e) == "\\}" by {
      assert EscapeOnly("}", e) == EscapeChar('}', e) + EscapeOnly([], e);
    }
  }

  /**
   * The documented example `val: \{{KEY}\} \/x /y`, for any prefix and key,
   * any replacement free of braces and backslashes and any escaped tail: the
   * escaped braces around the placeholder come out as literal braces around
   * its replacement, the prefix is kept and the tail is unescaped.
   */
  lemma DocExample(f: string -> string, p: string, k: string, x: string, s: string)
    requires s == p + "\\{" + Placeholder(k) + "\\}" + Escape(x)
    requires '{' !in p && '}' !in p && '\\' !in p
    requires RegexLiteral(k) && '{' !in f(k) && '}' !in f(k) && '\\' !in f(k)
    ensures LiteralSafe(Some(f), s) && Translated(Some(f), s) == p + "{" + f(k) + "}" + x
  {
    var t := Placeholder(k);
    var v := f(k);
    var a := |p| + 2;
    BracedOf(k);
    DocShape(s, p, t, x);
    OneMatch(s, a, a + |t|);
    TranslatedOne(f, s, t, k);
    DocSubstitute(s, p, t, v, x);
    DocEscaped(p, v, x);
    UnescapeEscape(p + "{" + v + "}" + x);
  }

  /** Replacing a text at the front of a string. */
  lemma ReplaceFront(t: string, rest: string, v: string)
    ensures ReplaceFirst(t + rest, t, v) == v + rest
  {
    var s := t + rest;
    assert OccursAt(s, t, 0);
    ReplaceFirstAt(s, t, v, 0);
    assert s[..0] + v + s[|t|..] == v + rest;
  }

  /** The first replacement puts a copy of `t2` in front of `t2`; the second then hits that copy. */
  lemma HitSubstitute(s: string, t1: string, t2: string, v: string)
    requires s == t1 + t2
    ensures ReplaceFirst(ReplaceFirst(s, t1, t2), t2, v) == v + t2
  {
    ReplaceFront(t1, t2, t2);
    ReplaceFront(t2, t2, v);
  }

  /** Text without backslashes is left alone by the rewrites. */
  lemma UnescapeNoBackslash(s: string)
    requires '\\' !in s
    ensures Unescape(s) == s
  {
    NoBackslashNoEscapes(s);
    UnescapeNoEscapes(s);
  }

  /** Two placeholder texts side by side are the two matches. */
  lemma AdjacentMatches(s: string, t1: string, t2: string)
    requires Braced(t1) && Braced(t2) && s == t1 + t2
    ensures Tokens(s) == [t1, t2]
  {
    assert s[0..|t1|] == t1 && s[|t1|..|s|] == t2;
    BracedShape(s, 0, t1);
    BracedShape(s, |t1|, t2);
    TwoMatches(s, |t1|, |t1|);
  }

  /**
   * A replacement that contains the text of a later match is hit by that
   * match's replacement: with `f(k1) == "{k2}"`, `{k1}{k2}` becomes
   * `f(k2)` + `{k2}`; the placeholder `{k2}` of the input survives.
   */
  lemma ReplacementTextCanBeHit(f: string -> string, k1: string, k2: string, s: string)
    requires s == Placeholder(k1) + Placeholder(k2)
    requires RegexLiteral(k1) && RegexLiteral(k2)
    requires f(k1) == Placeholder(k2) && '\\' !in f(k2)
    ensures LiteralSafe(Some(f), s) && Translated(Some(f), s) == f(k2) + Placeholder(k2)
  {
    var t1, t2 := Placeholder(k1), Placeholder(k2);
    LiteralInner(k2);
    BracedOf(k1);
    BracedOf(k2);
    AdjacentMatches(s, t1, t2);
    TranslatedTwo(f, s, t1, k1, t2, k2);
    HitSubstitute(s, t1, t2, f(k2));
    UnescapeNoBackslash(f(k2) + t2);
  }

  /** Without a translator function placeholders stay; only escape sequences are rewritten. */
  lemma NoFunctionKeepsPlaceholders(s: string)
    requires NoEscapes(s)
    ensures Translated(None, s) == s
  {
    UnescapeNoEscapes(s);
  }

  /**
   * A nested value: `[a, {key: "{k}"}, ["{k}"]]` with a plain `a` becomes
   * `[a, {key: f(k)}, [f(k)]]`: placeholders are replaced at every depth and
   * the plain string is left alone.
   */
  lemma NestedValue(f: string -> string, k: string, a: string, key: string)
    requires Plain(a) && RegexLiteral(k) && '\\' !in f(k)
    ensures var v := List([Str(a), Dict(map[key := Str(Placeholder(k))]), List([Str(Placeholder(k))])]);
      SafeValue(Some(f), v) &&
      TranslatedValue(Some(f), v) == List([Str(a), Dict(map[key := Str(f(k))]), List([Str(f(k))])])
  {
    var func := Some(f);
    var p := Str(Placeholder(k));
    var q := Str(f(k));
    PlainUnchanged(func, a);
    PlaceholderValue(f, k);
    OneEntry(func, key, p, q);
    OneItem(func, p, q);
    var v := [Str(a), Dict(map[key := p]), List([p])];
    assert TranslatedItems(func, v) == [Str(a), Dict(map[key := q]), List([q])];
  }

  /** The value `"{k}"` becomes the value `f(k)`. */
  lemma PlaceholderValue(f: string -> string, k: string)
    requires RegexLiteral(k) && '\\' !in f(k)
    ensures SafeValue(Some(f), Str(Placeholder(k))) && TranslatedValue(Some(f), Str(Placeholder(k))) == Str(f(k))
  {
    SinglePlaceholder(f, k, Placeholder(k));
  }

  /** A dict with one entry is translated by translating its value. */
  lemma OneEntry(func: Option<string -> string>, key: string, p: Value, q: Value)
    requires SafeValue(func, p) && TranslatedValue(func, p) == q
    ensures SafeValue(func, Dict(map[key := p])) && TranslatedValue(func, Dict(map[key := p])) == Dict(map[key := q])
  {
    assert TranslatedEntries(func, map[key := p]) == map[key := q];
  }

  /** A list with one item is translated by translating its item. */
  lemma OneItem(func: Option<string -> string>, p: Value, q: Value)
    requires SafeValue(func, p) && TranslatedValue(func, p) == q
    ensures SafeValue(func, List([p])) && TranslatedValue(func, List([p])) == List([q])
  {
    assert TranslatedItems(func, [p]) == [q];
  }
}
