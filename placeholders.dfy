/**
 * The placeholders `re.findall` finds with the translator's default
 * pattern `(?<!\\){[^{}]*}`: an opening brace that does not follow a
 * backslash, a run of characters other than braces (possibly empty) and a
 * closing brace.
 */
module Placeholders {

  /** The default pattern, as the text of a Python regular expression. */
  const DefaultPattern: string := "(?<!\\\\){[^{}]*}"

  /** A match occupying `s[start..stop]`. */
  datatype Span = Span(start: nat, stop: nat)

  /** The placeholder with inner text `k`. */
  function Placeholder(k: string): string
  {
    "{" + k + "}"
  }

  predicate IsBrace(c: char)
  {
    c == '{' || c == '}'
  }

  /** `s[i..j]` is a match of the default pattern. */
  predicate TokenAt(s: string, i: int, j: int)
  {
    && 0 <= i && i + 1 < j <= |s|
    && s[i] == '{' && s[j - 1] == '}'
    && (i == 0 || s[i - 1] != '\\')
    && forall k :: i < k < j - 1 ==> !IsBrace(s[k])
  }

  /** The first brace at or after `from`, or `|s|` when there is none. */
  function NextBrace(s: string, from: nat): (k: nat)
    requires from <= |s|
    ensures from <= k <= |s|
    ensures k < |s| ==> IsBrace(s[k])
    ensures forall m :: from <= m < k ==> !IsBrace(s[m])
    decreases |s| - from
  {
    if from == |s| || IsBrace(s[from]) then from else NextBrace(s, from + 1)
  }

  /**
   * The matches found by a scan that starts at `from`, left to right. The
   * first one found is a match of the pattern; `ScanSound`, `ScanOrdered`
   * and `ScanComplete` say the rest.
   */
  function ScanFrom(s: string, from: nat): (ms: seq<Span>)
    requires from <= |s|
    ensures ms != [] ==> from <= ms[0].start && TokenAt(s, ms[0].start, ms[0].stop)
    decreases |s| - from
  {
    if from == |s| then []
    else if s[from] == '{' && (from == 0 || s[from - 1] != '\\') then
      var k := NextBrace(s, from + 1);
      if k < |s| && s[k] == '}' then [Span(from, k + 1)] + ScanFrom(s, k + 1)
      else ScanFrom(s, from + 1)
    else ScanFrom(s, from + 1)
  }

  /** Every span of `ms` is a match of the pattern in `s` at or after `from`. */
  predicate AllMatches(s: string, ms: seq<Span>, from: int)
  {
    forall n :: 0 <= n < |ms| ==> from <= ms[n].start && TokenAt(s, ms[n].start, ms[n].stop)
  }

  /** The spans of `ms` come left to right and do not overlap. */
  predicate Ordered(ms: seq<Span>)
  {
    forall n, n' :: 0 <= n < n' < |ms| ==> ms[n].stop <= ms[n'].start
  }

  /** The scan finds a match at `from`. */
  predicate HitAt(s: string, from: nat)
    requires from < |s|
  {
    var k := NextBrace(s, from + 1);
    s[from] == '{' && (from == 0 || s[from - 1] != '\\') && k < |s| && s[k] == '}'
  }

  /** A match at `from` is reported, and the scan goes on after it. */
  lemma ScanHit(s: string, from: nat, k: nat)
    requires from < |s| && HitAt(s, from) && k == NextBrace(s, from + 1)
    ensures ScanFrom(s, from) == [Span(from, k + 1)] + ScanFrom(s, k + 1)
    ensures TokenAt(s, from, k + 1)
  {
  }

  /** Without a match at `from`, the scan goes on from the next index. */
  lemma ScanMiss(s: string, from: nat)
    requires from < |s| && !HitAt(s, from)
    ensures ScanFrom(s, from) == ScanFrom(s, from + 1)
    ensures forall j :: !TokenAt(s, from, j)
  {
    forall j ensures !TokenAt(s, from, j) {
      if from + 1 < j <= |s| {
        var k := NextBrace(s, from + 1);
        assert k <= j - 1 || !IsBrace(s[j - 1]);
      }
    }
  }

  /** A match in front of matches that lie after it. */
  lemma AllMatchesCons(s: string, x: Span, ms: seq<Span>, from: int, after: int)
    requires from <= x.start && x.stop <= after && TokenAt(s, x.start, x.stop) && AllMatches(s, ms, after)
    ensures AllMatches(s, [x] + ms, from)
  {
  }

  /** Soundness carries over a match at `from`. */
  lemma SoundHit(s: string, from: nat, k: nat)
    requires from < |s| && HitAt(s, from) && k == NextBrace(s, from + 1)
    requires AllMatches(s, ScanFrom(s, k + 1), k + 1)
    ensures AllMatches(s, ScanFrom(s, from), from)
  {
    ScanHit(s, from, k);
    AllMatchesCons(s, Span(from, k + 1), ScanFrom(s, k + 1), from, k + 1);
  }

  /** Everything the scan reports is a match of the pattern at or after `from`. */
  lemma {:induction false} ScanSound(s: string, from: nat)
    requires from <= |s|
    ensures AllMatches(s, ScanFrom(s, from), from)
    decreases |s| - from
  {
    if from < |s| {
      if HitAt(s, from) {
        var k := NextBrace(s, from + 1);
        ScanSound(s, k + 1);
        SoundHit(s, from, k);
      } else {
        ScanMiss(s, from);
        ScanSound(s, from + 1);
      }
    }
  }

  /** A span in front of ordered spans that all start after it ends. */
  lemma OrderedCons(s: string, x: Span, ms: seq<Span>)
    requires Ordered(ms) && AllMatches(s, ms, x.stop)
    ensures Ordered([x] + ms)
  {
    var r := [x] + ms;
    forall n, n' | 0 <= n < n' < |r|
      ensures r[n].stop <= r[n'].start
    {
      if n > 0 {
        assert r[n] == ms[n - 1] && r[n'] == ms[n' - 1];
      } else {
        assert r[n'] == ms[n' - 1];
      }
    }
  }

  /** Order carries over a match at `from`. */
  lemma OrderedHit(s: string, from: nat, k: nat)
    requires from < |s| && HitAt(s, from) && k == NextBrace(s, from + 1)
    requires Ordered(ScanFrom(s, k + 1))
    ensures Ordered(ScanFrom(s, from))
  {
    ScanHit(s, from, k);
    ScanSound(s, k + 1);
    OrderedCons(s, Span(from, k + 1), ScanFrom(s, k + 1));
  }

  /** The matches come left to right and do not overlap. */
  lemma {:induction false} ScanOrdered(s: string, from: nat)
    requires from <= |s|
    ensures Ordered(ScanFrom(s, from))
    decreases |s| - from
  {
    if from < |s| {
      if HitAt(s, from) {
        var k := NextBrace(s, from + 1);
        ScanOrdered(s, k + 1);
        OrderedHit(s, from, k);
      } else {
        ScanMiss(s, from);
        ScanOrdered(s, from + 1);
      }
    }
  }

  /** Completeness carries over a match at `from`: the only match starting there is the one reported. */
  lemma CompleteHit(s: string, from: nat, k: nat)
    requires from < |s| && HitAt(s, from) && k == NextBrace(s, from + 1)
    requires forall i, j :: k + 1 <= i && TokenAt(s, i, j) ==> Span(i, j) in ScanFrom(s, k + 1)
    ensures forall i, j :: from <= i && TokenAt(s, i, j) ==> Span(i, j) in ScanFrom(s, from)
  {
    ScanHit(s, from, k);
    forall i, j | from <= i && TokenAt(s, i, j)
      ensures Span(i, j) in ScanFrom(s, from)
    {
      if i == from {
        assert j - 1 == k;
      } else {
        assert i > k;
      }
    }
  }

  /** No match at or after `from` is missed. */
  lemma {:induction false} ScanComplete(s: string, from: nat)
    requires from <= |s|
    ensures forall i, j :: from <= i && TokenAt(s, i, j) ==> Span(i, j) in ScanFrom(s, from)
    decreases |s| - from
  {
    if from < |s| {
      if HitAt(s, from) {
        var k := NextBrace(s, from + 1);
        ScanComplete(s, k + 1);
        CompleteHit(s, from, k);
      } else {
        ScanMiss(s, from);
        ScanComplete(s, from + 1);
      }
    }
  }

  /** The scan passes over a stretch in which every `{` follows a backslash. */
  lemma {:induction false} ScanSkip(s: string, lo: nat, hi: nat)
    requires lo <= hi <= |s| && BracesEscaped(s, lo, hi)
    ensures ScanFrom(s, lo) == ScanFrom(s, hi)
    decreases hi
  {
    if lo < hi {
      ScanSkip(s, lo, hi - 1);
    }
  }

  /** At the start of a match the scan reports it and goes on after it. */
  lemma ScanToken(s: string, i: nat, j: nat)
    requires TokenAt(s, i, j)
    ensures ScanFrom(s, i) == [Span(i, j)] + ScanFrom(s, j)
  {
    var k := NextBrace(s, i + 1);
    assert k == j - 1;
    ScanHit(s, i, k);
  }

  /** The matches of `re.findall(DefaultPattern, s)`, as positions. */
  function Matches(s: string): (ms: seq<Span>)
    ensures forall n :: 0 <= n < |ms| ==> ms[n].start + 1 < ms[n].stop <= |s|
    ensures ms != [] ==> TokenAt(s, ms[0].start, ms[0].stop)
  {
    ScanSound(s, 0);
    ScanFrom(s, 0)
  }

  /** The matched texts, as `re.findall` returns them. */
  function Tokens(s: string): (ts: seq<string>)
    ensures |ts| == |Matches(s)|
  {
    var ms := Matches(s);
    seq(|ms|, n requires 0 <= n < |ms| => s[ms[n].start..ms[n].stop])
  }

  /** `m[1:-1]`: a match without its first and last character. */
  function Inner(m: string): string
  {
    if |m| < 2 then [] else m[1..|m| - 1]
  }

  /** The inner texts of the matches, in the order they are found. */
  function Inners(s: string): (ks: seq<string>)
    ensures |ks| == |Matches(s)|
  {
    var ts := Tokens(s);
    seq(|ts|, n requires 0 <= n < |ts| => Inner(ts[n]))
  }

  /**
   * Each found text is a whole placeholder of `s`: an unescaped `{`, an inner
   * text free of braces, a `}`; the inner text is what lies between them.
   */
  lemma TokenShape(s: string, n: nat)
    requires n < |Tokens(s)|
    ensures var m := Matches(s)[n];
      && Tokens(s)[n] == "{" + Inners(s)[n] + "}"
      && Inners(s)[n] == s[m.start + 1..m.stop - 1]
      && (m.start == 0 || s[m.start - 1] != '\\')
      && forall k :: 0 <= k < |Inners(s)[n]| ==> !IsBrace(Inners(s)[n][k])
  {
    var m := Matches(s)[n];
    var t := Tokens(s)[n];
    ScanSound(s, 0);
    assert TokenAt(s, m.start, m.stop);
    assert t == s[m.start..m.stop];
    assert |t| == m.stop - m.start;
    assert forall x :: 1 <= x < |t| - 1 ==> t[x] == s[m.start + x];
    assert t[1..|t| - 1] == s[m.start + 1..m.stop - 1];
    assert t == [t[0]] + t[1..|t| - 1] + [t[|t| - 1]];
  }

  /** A `{` right after a backslash never opens a placeholder. */
  lemma EscapedBraceOpensNothing(s: string, i: int)
    requires 0 < i < |s| && s[i - 1] == '\\'
    ensures forall j :: !TokenAt(s, i, j)
    ensures forall n :: 0 <= n < |Matches(s)| ==> Matches(s)[n].start != i
  {
    ScanSound(s, 0);
  }

  /** Every `{` of `s[lo..hi]` follows a backslash. */
  predicate BracesEscaped(s: string, lo: int, hi: int)
    requires 0 <= lo <= hi <= |s|
  {
    forall i :: lo <= i < hi && s[i] == '{' ==> i > 0 && s[i - 1] == '\\'
  }

  /** A string whose only unescaped `{` opens the placeholder `s[i..j]`. */
  lemma OneMatch(s: string, i: nat, j: nat)
    requires TokenAt(s, i, j) && BracesEscaped(s, 0, i) && BracesEscaped(s, j, |s|)
    ensures Matches(s) == [Span(i, j)]
    ensures Tokens(s) == [s[i..j]] && Inners(s) == [Inner(s[i..j])]
  {
    ScanSkip(s, 0, i);
    ScanToken(s, i, j);
    ScanSkip(s, j, |s|);
  }

  /** A string that starts and ends with a placeholder and has no other unescaped `{`. */
  lemma TwoMatches(s: string, n: nat, p: nat)
    requires TokenAt(s, 0, n) && n <= p && TokenAt(s, p, |s|) && BracesEscaped(s, n, p)
    ensures Matches(s) == [Span(0, n), Span(p, |s|)]
    ensures Tokens(s) == [s[0..n], s[p..|s|]] && Inners(s) == [Inner(s[0..n]), Inner(s[p..|s|])]
  {
    ScanToken(s, 0, n);
    ScanSkip(s, n, p);
    ScanToken(s, p, |s|);
  }

  /** A string in which no placeholder can be matched has no tokens. */
  lemma NoTokens(s: string)
    requires forall i, j :: !TokenAt(s, i, j)
    ensures Tokens(s) == [] && Inners(s) == []
  {
  }
}
