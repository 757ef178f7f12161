/**
 * What `CollectionTranslator` computes, as functions: `translate_str` on a
 * string and the recursive walk of `translate`, `translate_list` and
 * `translate_dict` over a value tree. The translator function is the
 * optional field `translator_func`; `None` stands for a missing (falsy) one.
 */
module Translation {
  import opened Wrappers
  import opened Text
  import opened Values
  import opened Placeholders
  import opened Escapes

  /** A character with a meaning of its own in a Python regular expression. */
  predicate IsRegexSpecial(c: char)
  {
    c in "\\.^$*+?{}[]|()"
  }

  /**
   * `k` is a repetition count as Python's regex parser reads `{k}`: digits
   * with at most one comma. `re.sub` then rejects the pattern `{k}`.
   */
  predicate IsRepeatCount(k: string)
  {
    && |k| > 0
    && (forall i :: 0 <= i < |k| ==> '0' <= k[i] <= '9' || k[i] == ',')
    && (forall i, j :: 0 <= i < j < |k| && k[i] == ',' ==> k[j] != ',')
  }

  /** The pattern `{k}` matches exactly the text `{k}`. */
  predicate RegexLiteral(k: string)
  {
    (forall i :: 0 <= i < |k| ==> !IsRegexSpecial(k[i])) && !IsRepeatCount(k)
  }

  /**
   * The conditions under which `re.sub(m, val, s, 1)` is a literal
   * first-occurrence replacement: every inner text is regex-literal and the
   * value it is translated to holds no backslash (a replacement template).
   */
  predicate LiteralSafe(func: Option<string -> string>, s: string)
  {
    func.Some? ==> forall k :: k in Inners(s) ==> RegexLiteral(k) && '\\' !in func.value(k)
  }

  /**
   * The loop over the matches: for each matched text, in order, the first
   * occurrence of that text in the current string is replaced by the
   * translation of its inner text.
   */
  function Substitute(s: string, toks: seq<string>, f: string -> string): string
    decreases |toks|
  {
    if toks == [] then s
    else Substitute(ReplaceFirst(s, toks[0], f(Inner(toks[0]))), toks[1..], f)
  }

  /** The loop's step: the match at `i` is substituted, then those after it. */
  lemma SubstituteStep(cur: string, toks: seq<string>, i: nat, f: string -> string)
    requires i < |toks|
    ensures Substitute(cur, toks[i..], f) == Substitute(ReplaceFirst(cur, toks[i], f(Inner(toks[i]))), toks[i + 1..], f)
  {
    assert toks[i..][1..] == toks[i + 1..];
  }

  /** `translate_str(s)`: substitution (when there is a function), then the three rewrites. */
  function Translated(func: Option<string -> string>, s: string): string
    requires LiteralSafe(func, s)
  {
    Unescape(if func.Some? then Substitute(s, Tokens(s), func.value) else s)
  }

  /** The substitution loop over one match. */
  lemma SubstituteOne(s: string, t: string, f: string -> string)
    ensures Substitute(s, [t], f) == ReplaceFirst(s, t, f(Inner(t)))
  {
    assert [t][1..] == [];
  }

  /** The substitution loop over two matches: the second works on the output of the first. */
  lemma SubstituteTwo(s: string, t1: string, t2: string, f: string -> string)
    ensures Substitute(s, [t1, t2], f) == ReplaceFirst(ReplaceFirst(s, t1, f(Inner(t1))), t2, f(Inner(t2)))
  {
    var r1 := ReplaceFirst(s, t1, f(Inner(t1)));
    assert [t1, t2][1..] == [t2];
    assert Substitute(s, [t1, t2], f) == Substitute(r1, [t2], f);
    SubstituteOne(r1, t2, f);
  }

  /** `translate_str` on a string with one match `t`, whose inner text is `k`. */
  lemma TranslatedOne(f: string -> string, s: string, t: string, k: string)
    requires Tokens(s) == [t] && Inner(t) == k && RegexLiteral(k) && '\\' !in f(k)
    ensures LiteralSafe(Some(f), s)
    ensures Translated(Some(f), s) == Unescape(ReplaceFirst(s, t, f(k)))
  {
    assert Inners(s) == [k];
    SubstituteOne(s, t, f);
  }

  /** `translate_str` on a string with two matches `t1` and `t2`, whose inner texts are `k1` and `k2`. */
  lemma TranslatedTwo(f: string -> string, s: string, t1: string, k1: string, t2: string, k2: string)
    requires Tokens(s) == [t1, t2] && Inner(t1) == k1 && Inner(t2) == k2
    requires RegexLiteral(k1) && '\\' !in f(k1) && RegexLiteral(k2) && '\\' !in f(k2)
    ensures LiteralSafe(Some(f), s)
    ensures Translated(Some(f), s) == Unescape(ReplaceFirst(ReplaceFirst(s, t1, f(k1)), t2, f(k2)))
  {
    assert Inners(s) == [k1, k2];
    SubstituteTwo(s, t1, t2, f);
  }

  /** A string holding neither a placeholder nor an escape sequence. */
  ghost predicate Plain(s: string)
  {
    (forall i, j :: !TokenAt(s, i, j)) && NoEscapes(s)
  }

  /** A plain string is returned unchanged, whatever the translator function. */
  lemma PlainUnchanged(func: Option<string -> string>, s: string)
    requires Plain(s)
    ensures LiteralSafe(func, s) && Translated(func, s) == s
  {
    NoTokens(s);
    UnescapeNoEscapes(s);
  }

  /**
   * Text written with the documented escapes comes back literally, whatever
   * the translator function: it holds no placeholder, and the rewrites undo
   * the escapes.
   */
  lemma EscapedRoundTrip(func: Option<string -> string>, s: string)
    ensures LiteralSafe(func, Escape(s)) && Translated(func, Escape(s)) == s
  {
    EscapedHasNoTokens(s);
    NoTokens(Escape(s));
    UnescapeEscape(s);
  }

  /** `translate_str` on every string the value holds can be modelled literally. */
  predicate SafeValue(func: Option<string -> string>, v: Value)
  {
    match v
    case Str(s) => LiteralSafe(func, s)
    case List(items) => forall x :: x in items ==> SafeValue(func, x)
    case Dict(m) => forall k :: k in m ==> SafeValue(func, m[k])
    case Other(_) => true
  }

  /**
   * `translate(val)`: a dict or a list is walked, a string translated,
   * anything else returned as it is. Dicts keep their keys and lists their
   * length.
   */
  function TranslatedValue(func: Option<string -> string>, v: Value): (r: Value)
    requires SafeValue(func, v)
    ensures v.Str? <==> r.Str?
    ensures v.List? <==> r.List?
    ensures v.Dict? <==> r.Dict?
    ensures v.Other? ==> r == v
    decreases v, 1
  {
    match v
    case Str(s) => Str(Translated(func, s))
    case List(items) => List(TranslatedItems(func, items))
    case Dict(m) => Dict(TranslatedEntries(func, m))
    case Other(_) => v
  }

  /** `translate_list`: every element translated in its place. */
  function TranslatedItems(func: Option<string -> string>, items: seq<Value>): (r: seq<Value>)
    requires forall x :: x in items ==> SafeValue(func, x)
    ensures |r| == |items|
    decreases List(items), 0
  {
    seq(|items|, i requires 0 <= i < |items| => TranslatedValue(func, items[i]))
  }

  /** `translate_dict`: every value translated under its own key. */
  function TranslatedEntries(func: Option<string -> string>, m: map<string, Value>): (r: map<string, Value>)
    requires forall k :: k in m ==> SafeValue(func, m[k])
    ensures r.Keys == m.Keys
    decreases Dict(m), 0
  {
    map k | k in m :: TranslatedValue(func, m[k])
  }

  /** Every string the value holds is plain. */
  ghost predicate PlainValue(v: Value)
  {
    match v
    case Str(s) => Plain(s)
    case List(items) => forall x :: x in items ==> PlainValue(x)
    case Dict(m) => forall k :: k in m ==> PlainValue(m[k])
    case Other(_) => true
  }

  /** A value holding only plain strings comes back unchanged, at every level. */
  lemma {:induction false} PlainValueUnchanged(func: Option<string -> string>, v: Value)
    requires PlainValue(v)
    ensures SafeValue(func, v) && TranslatedValue(func, v) == v
    decreases v
  {
    match v
    case Str(s) =>
      PlainUnchanged(func, s);
    case List(items) =>
      forall i | 0 <= i < |items|
        ensures SafeValue(func, items[i]) && TranslatedValue(func, items[i]) == items[i]
      {
        PlainValueUnchanged(func, items[i]);
      }
      assert TranslatedItems(func, items) == items;
    case Dict(m) =>
      forall k | k in m
        ensures SafeValue(func, m[k]) && TranslatedValue(func, m[k]) == m[k]
      {
        PlainValueUnchanged(func, m[k]);
      }
      assert TranslatedEntries(func, m) == m;
    case Other(_) =>
  }

  /**
   * `w` has the structure of `v`: lists of the same length, dicts with the
   * same keys, the same other values, and strings where `v` has strings.
   */
  ghost predicate SameShape(v: Value, w: Value)
  {
    match v
    case Str(_) => w.Str?
    case List(a) => w.List? && |a| == |w.items| && forall i :: 0 <= i < |a| ==> SameShape(a[i], w.items[i])
    case Dict(m) => w.Dict? && m.Keys == w.entries.Keys && forall k :: k in m ==> SameShape(m[k], w.entries[k])
    case Other(_) => w == v
  }

  /**
   * The walk changes strings only: list lengths, dict keys and every value
   * that is neither a string nor a container stay as they were, at every
   * depth.
   */
  lemma {:induction false} TranslatedSameShape(func: Option<string -> string>, v: Value)
    requires SafeValue(func, v)
    ensures SameShape(v, TranslatedValue(func, v))
    decreases v
  {
    match v
    case Str(_) =>
    case List(items) =>
      forall i | 0 <= i < |items|
        ensures SameShape(items[i], TranslatedItems(func, items)[i])
      {
        TranslatedSameShape(func, items[i]);
      }
    case Dict(m) =>
      forall k | k in m
        ensures SameShape(m[k], TranslatedEntries(func, m)[k])
      {
        TranslatedSameShape(func, m[k]);
      }
    case Other(_) =>
  }
}
