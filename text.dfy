/**
 * The string operations of Python's `str` type and `re` module that the
 * source relies on, restricted to literal patterns: finding the first
 * occurrence of a text, `re.sub(pattern, value, s, 1)`, `re.sub(pattern,
 * value, s)`, `s.split(sep, 1)`, the `in` test on strings and `str.strip()`.
 */
module Text {
  import opened Wrappers

  /** `t` occurs in `s` starting at index `p`. */
  predicate OccursAt(s: string, t: string, p: int)
  {
    0 <= p && p + |t| <= |s| && s[p..p + |t|] == t
  }

  /** The first index at or after `from` where `t` occurs in `s`; `FindFromFirst` says so. */
  function FindFrom(s: string, t: string, from: nat): (r: Option<nat>)
    ensures r.Some? ==> from <= r.value && r.value + |t| <= |s|
    decreases |s| - from
  {
    if from + |t| > |s| then None
    else if s[from..from + |t|] == t then Some(from)
    else FindFrom(s, t, from + 1)
  }

  /** `r` is the first index at or after `from` where `t` occurs in `s`, or `None` if there is none. */
  ghost predicate IsFirstFrom(s: string, t: string, from: nat, r: Option<nat>)
  {
    match r
    case Some(p) => from <= p && OccursAt(s, t, p) && forall q :: from <= q < p ==> !OccursAt(s, t, q)
    case None => forall q :: from <= q ==> !OccursAt(s, t, q)
  }

  lemma {:induction false} FindFromFirst(s: string, t: string, from: nat)
    ensures IsFirstFrom(s, t, from, FindFrom(s, t, from))
    decreases |s| - from
  {
    if from + |t| <= |s| && s[from..from + |t|] != t {
      FindFromFirst(s, t, from + 1);
    }
  }

  /** Python's `t in s` on two strings: `t` is a substring of `s`. */
  function Contains(s: string, t: string): (r: bool)
    ensures r <==> exists q :: OccursAt(s, t, q)
  {
    FindFromFirst(s, t, 0);
    FindFrom(s, t, 0).Some?
  }

  /**
   * `re.sub(t, v, s, 1)` for a pattern `t` that matches only its own text
   * and a replacement `v` free of backslashes: a left-to-right scan that
   * replaces the first occurrence; `ReplaceFirstAt` and
   * `ReplaceFirstAbsent` say what it gives.
   */
  function ReplaceFirst(s: string, t: string, v: string): string
    decreases |s|
  {
    if |s| < |t| then s
    else if s[..|t|] == t then v + s[|t|..]
    else [s[0]] + ReplaceFirst(s[1..], t, v)
  }

  /** Without an occurrence of `t`, `s` is returned as it is. */
  lemma {:induction false} ReplaceFirstAbsent(s: string, t: string, v: string)
    requires forall q :: !OccursAt(s, t, q)
    ensures ReplaceFirst(s, t, v) == s
    decreases |s|
  {
    if |s| >= |t| {
      assert !OccursAt(s, t, 0);
      forall q ensures !OccursAt(s[1..], t, q) {
        OccursAtTail(s, t, q);
      }
      ReplaceFirstAbsent(s[1..], t, v);
    }
  }

  /** Without an occurrence at the front, the first character is kept and the scan goes on. */
  lemma ReplaceFirstSkip(s: string, t: string, v: string)
    requires |s| > 0 && !OccursAt(s, t, 0)
    ensures ReplaceFirst(s, t, v) == [s[0]] + ReplaceFirst(s[1..], t, v)
  {
    if |s| < |t| {
      assert |s[1..]| < |t|;
      assert [s[0]] + s[1..] == s;
    }
  }

  /** Putting back the first character in front of a replacement in the tail. */
  lemma ConsReplaced(s: string, v: string, p: nat, n: nat)
    requires 0 < p && p + n <= |s|
    ensures [s[0]] + (s[1..][..p - 1] + v + s[1..][p - 1 + n..]) == s[..p] + v + s[p + n..]
  {
    assert s[1..][..p - 1] == s[1..p] && s[1..][p - 1 + n..] == s[p + n..];
    assert [s[0]] + s[1..p] == s[..p];
  }

  /** The first occurrence of `t`, at `p`, is replaced by `v`. */
  lemma {:induction false} ReplaceFirstAt(s: string, t: string, v: string, p: nat)
    requires OccursAt(s, t, p) && forall q :: 0 <= q < p ==> !OccursAt(s, t, q)
    ensures ReplaceFirst(s, t, v) == s[..p] + v + s[p + |t|..]
    decreases p
  {
    if p == 0 {
      assert s[..|t|] == t;
    } else {
      var tail := s[1..];
      var r := ReplaceFirst(tail, t, v);
      assert ReplaceFirst(s, t, v) == [s[0]] + r by {
        ReplaceFirstSkip(s, t, v);
      }
      assert r == tail[..p - 1] + v + tail[p - 1 + |t|..] by {
        OccursAtTail(s, t, p - 1);
        forall q | 0 <= q < p - 1 ensures !OccursAt(tail, t, q) {
          OccursAtTail(s, t, q);
        }
        ReplaceFirstAt(tail, t, v, p - 1);
      }
      ConsReplaced(s, v, p, |t|);
    }
  }

  /**
   * `re.sub(pat, rep, s)` for a non-empty pattern that matches only its own
   * text: one left-to-right pass that replaces every non-overlapping
   * occurrence and never looks at its own output again.
   */
  function ReplaceAll(s: string, pat: string, rep: string): string
    requires |pat| > 0
    decreases |s|
  {
    if |s| < |pat| then s
    else if s[..|pat|] == pat then rep + ReplaceAll(s[|pat|..], pat, rep)
    else [s[0]] + ReplaceAll(s[1..], pat, rep)
  }

  /** Occurrences in the tail of `s` are the occurrences in `s` shifted by one. */
  lemma OccursAtTail(s: string, t: string, q: int)
    requires |s| > 0
    ensures OccursAt(s[1..], t, q) <==> q >= 0 && OccursAt(s, t, q + 1)
  {
    if 0 <= q && q + |t| <= |s| - 1 {
      assert s[1..][q..q + |t|] == s[q + 1..q + 1 + |t|];
    }
  }

  /** A string without an occurrence of the pattern passes through unchanged. */
  lemma {:induction false} ReplaceAllAbsent(s: string, pat: string, rep: string)
    requires |pat| > 0
    requires forall q :: !OccursAt(s, pat, q)
    ensures ReplaceAll(s, pat, rep) == s
    decreases |s|
  {
    if |s| >= |pat| {
      assert !OccursAt(s, pat, 0);
      forall q ensures !OccursAt(s[1..], pat, q) {
        OccursAtTail(s, pat, q);
      }
      ReplaceAllAbsent(s[1..], pat, rep);
    }
  }

  /** A character that cannot start the pattern is copied and the pass goes on after it. */
  lemma ReplaceAllSkip(c: char, t: string, pat: string, rep: string)
    requires |pat| > 0 && c != pat[0]
    ensures ReplaceAll([c] + t, pat, rep) == [c] + ReplaceAll(t, pat, rep)
  {
    var s := [c] + t;
    assert s[1..] == t;
    if |s| < |pat| {
      assert ReplaceAll(t, pat, rep) == t;
    }
  }

  /** An occurrence at the front is replaced and the pass goes on after it. */
  lemma ReplaceAllHit(t: string, pat: string, rep: string)
    requires |pat| > 0
    ensures ReplaceAll(pat + t, pat, rep) == rep + ReplaceAll(t, pat, rep)
  {
    var s := pat + t;
    assert s[..|pat|] == pat && s[|pat|..] == t;
  }

  /** `t` cannot occur before `p` when its first character does not. */
  lemma NoOccurrenceBefore(s: string, t: string, p: nat)
    requires |t| > 0 && p <= |s| && t[0] !in s[..p]
    ensures forall q :: 0 <= q < p ==> !OccursAt(s, t, q)
  {
    forall q | 0 <= q < p ensures !OccursAt(s, t, q) {
      assert s[..p][q] == s[q];
      if q + |t| <= |s| {
        assert s[q..q + |t|][0] == s[q];
      }
    }
  }

  /** The first occurrence is at `p` when the first character of `t` does not occur earlier. */
  lemma ReplaceFirstAfter(s: string, t: string, v: string, p: nat)
    requires |t| > 0 && OccursAt(s, t, p) && t[0] !in s[..p]
    ensures ReplaceFirst(s, t, v) == s[..p] + v + s[p + |t|..]
  {
    NoOccurrenceBefore(s, t, p);
    ReplaceFirstAt(s, t, v, p);
  }

  /**
   * `s.split(sep, 1)`: `None` when `sep` does not occur (a single part),
   * otherwise the text before the first `sep` and everything after it,
   * later occurrences of `sep` included.
   */
  function SplitFirst(s: string, sep: string): (r: Option<(string, string)>)
    requires |sep| > 0
    ensures r.None? <==> forall q :: !OccursAt(s, sep, q)
    ensures r.Some? ==> s == r.value.0 + sep + r.value.1
    ensures r.Some? ==> forall q :: 0 <= q < |r.value.0| ==> !OccursAt(s, sep, q)
  {
    FindFromFirst(s, sep, 0);
    match FindFrom(s, sep, 0)
    case None => None
    case Some(p) =>
      assert s == s[..p] + sep + s[p + |sep|..];
      Some((s[..p], s[p + |sep|..]))
  }

  /** Splitting `head + sep + rest` where `sep` does not occur earlier gives back `head` and `rest`. */
  lemma {:induction false} SplitFirstJoin(head: string, sep: string, rest: string)
    requires |sep| > 0
    requires forall q :: 0 <= q < |head| ==> !OccursAt(head + sep + rest, sep, q)
    ensures SplitFirst(head + sep + rest, sep) == Some((head, rest))
  {
    var s := head + sep + rest;
    assert s[|head|..|head| + |sep|] == sep;
    assert OccursAt(s, sep, |head|);
    var r := SplitFirst(s, sep);
    var h := r.value.0;
    assert s[|h|..|h| + |sep|] == sep;
    assert OccursAt(s, sep, |h|);
    assert |h| == |head|;
    assert s[..|head|] == head && s[|head| + |sep|..] == rest;
  }

  /**
   * The characters Python's `str.strip()` removes, restricted to ASCII:
   * space, tab, line feed, vertical tab, form feed, carriage return and the
   * four information separators 0x1C-0x1F.
   */
  predicate IsSpace(c: char)
  {
    c == ' ' || c == '\t' || c == '\n' || c == '\r' || ('\U{0B}' <= c <= '\U{0C}') || ('\U{1C}' <= c <= '\U{1F}')
  }

  /** Number of leading whitespace characters of `s`. */
  function LeadingSpaces(s: string): (n: nat)
    ensures n <= |s|
    ensures forall k :: 0 <= k < n ==> IsSpace(s[k])
    ensures n < |s| ==> !IsSpace(s[n])
  {
    if s != [] && IsSpace(s[0]) then 1 + LeadingSpaces(s[1..]) else 0
  }

  /** Number of trailing whitespace characters of `s`. */
  function TrailingSpaces(s: string): (n: nat)
    ensures n <= |s|
    ensures forall k :: |s| - n <= k < |s| ==> IsSpace(s[k])
    ensures n < |s| ==> !IsSpace(s[|s| - 1 - n])
  {
    if s != [] && IsSpace(s[|s| - 1]) then 1 + TrailingSpaces(s[..|s| - 1]) else 0
  }

  /**
   * `str.strip()`: the longest middle part of `s` that neither starts nor
   * ends with whitespace; everything cut off on either side is whitespace.
   */
  function Strip(s: string): (r: string)
    ensures exists i, j :: 0 <= i <= j <= |s| && r == s[i..j] &&
              (forall k :: 0 <= k < i ==> IsSpace(s[k])) && (forall k :: j <= k < |s| ==> IsSpace(s[k]))
    ensures r != [] ==> !IsSpace(r[0]) && !IsSpace(r[|r| - 1])
  {
    var i := LeadingSpaces(s);
    var t := s[i..];
    var n := TrailingSpaces(t);
    assert forall k :: |t| - n <= k < |t| ==> IsSpace(t[k]);
    s[i..|s| - n]
  }
}
