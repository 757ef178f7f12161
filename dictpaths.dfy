/**
 * `dict_contains_path(nested_dict, keypath, sep)`: split the path at the
 * first separator; a single key is looked up with `in`, otherwise the first
 * key is looked up and, when present, the rest of the path is looked up in
 * the value found under it. Intermediate values are used as they come, so a
 * string answers `in` with a substring test, a list with a membership test,
 * and anything else raises `TypeError`; the model keeps those outcomes.
 */
module DictPaths {
  import opened Wrappers
  import opened Text
  import opened Values

  /** Python's `key in v` for a string `key`. */
  function Member(v: Value, key: string): (r: Result<bool>)
    ensures v.Dict? ==> r == Ok(key in v.entries)
    ensures r.Err? <==> v.Other?
  {
    match v
    case Dict(m) => Ok(key in m)
    case Str(s) => Ok(Contains(s, key))
    case List(items) => Ok(Str(key) in items)
    case Other(_) => Err("TypeError: argument is not iterable")
  }

  /** The path lookup; `Err` holds the exception Python would raise. */
  function ContainsPath(v: Value, keypath: string, sep: string): (r: Result<bool>)
    ensures sep == [] ==> r.Err?
    decreases |keypath|
  {
    if sep == [] then Err("ValueError: empty separator")
    else
      match SplitFirst(keypath, sep)
      case None => Member(v, keypath)
      case Some((head, rest)) =>
        match Member(v, head)
        case Err(e) => Err(e)
        case Ok(found) =>
          if !found then Ok(false)
          else if v.Dict? then ContainsPath(v.entries[head], rest, sep)
          else Err("TypeError: indices must be integers")
  }

  /** A path without a separator is found exactly when it is a key of the dict. */
  lemma SingleKey(m: map<string, Value>, keypath: string, sep: string)
    requires |sep| > 0 && forall q :: !OccursAt(keypath, sep, q)
    ensures ContainsPath(Dict(m), keypath, sep) == Ok(keypath in m)
  {
  }

  /**
   * `head + sep + rest`, split at its first separator: absent when `head` is
   * not a key, otherwise the lookup of `rest` in the value under `head`.
   */
  lemma FirstKeyThenRest(m: map<string, Value>, head: string, sep: string, rest: string)
    requires |sep| > 0 && forall q :: 0 <= q < |head| ==> !OccursAt(head + sep + rest, sep, q)
    ensures ContainsPath(Dict(m), head + sep + rest, sep)
         == if head in m then ContainsPath(m[head], rest, sep) else Ok(false)
  {
    SplitFirstJoin(head, sep, rest);
  }

  /** `sep` does not occur in `k`, nor across the end of `k` when `sep` follows it. */
  predicate SepFree(k: string, sep: string)
  {
    forall q :: 0 <= q < |k| ==> !OccursAt(k + sep, sep, q)
  }

  /** A key free of the separator ends at the first separator after it. */
  lemma SepFreeFirst(k: string, sep: string, rest: string)
    requires |sep| > 0 && SepFree(k, sep)
    ensures forall q :: 0 <= q < |k| ==> !OccursAt(k + sep + rest, sep, q)
    ensures forall q :: !OccursAt(k, sep, q)
  {
    forall q | 0 <= q < |k|
      ensures !OccursAt(k + sep + rest, sep, q)
    {
      assert !OccursAt(k + sep, sep, q);
      assert (k + sep + rest)[q..q + |sep|] == (k + sep)[q..q + |sep|];
    }
    forall q | 0 <= q && q + |sep| <= |k|
      ensures !OccursAt(k, sep, q)
    {
      assert !OccursAt(k + sep, sep, q);
      assert k[q..q + |sep|] == (k + sep)[q..q + |sep|];
    }
  }

  /** The keys joined with the separator, as a key path is written. */
  function Join(ks: seq<string>, sep: string): string
    requires |ks| > 0
  {
    if |ks| == 1 then ks[0] else ks[0] + sep + Join(ks[1..], sep)
  }

  /** The dicts nested along `ks` hold the whole path. */
  predicate HasPath(v: Value, ks: seq<string>)
    requires |ks| > 0
  {
    v.Dict? && ks[0] in v.entries && (|ks| == 1 || HasPath(v.entries[ks[0]], ks[1..]))
  }

  /** Every value met before the last key of the path is a dict. */
  predicate DictsAlong(v: Value, ks: seq<string>)
    requires |ks| > 0
  {
    v.Dict? && (|ks| > 1 && ks[0] in v.entries ==> DictsAlong(v.entries[ks[0]], ks[1..]))
  }

  /**
   * Through nested dicts, a path written with separator-free keys is found
   * exactly when every one of its keys is there.
   */
  lemma {:induction false} JoinedPath(v: Value, ks: seq<string>, sep: string)
    requires |sep| > 0 && |ks| > 0
    requires forall i :: 0 <= i < |ks| ==> SepFree(ks[i], sep)
    requires DictsAlong(v, ks)
    ensures ContainsPath(v, Join(ks, sep), sep) == Ok(HasPath(v, ks))
    decreases |ks|
  {
    SepFreeFirst(ks[0], sep, []);
    if |ks| == 1 {
      SingleKey(v.entries, ks[0], sep);
    } else {
      var rest := Join(ks[1..], sep);
      SepFreeFirst(ks[0], sep, rest);
      FirstKeyThenRest(v.entries, ks[0], sep, rest);
      if ks[0] in v.entries {
        JoinedPath(v.entries[ks[0]], ks[1..], sep);
      }
    }
  }

  /**
   * A string under the first key answers the rest of the path with a
   * substring test: `"a.y"` is found in `{"a": "xyz"}`.
   */
  lemma StringInPath(m: map<string, Value>, head: string, s: string, key: string, sep: string)
    requires |sep| > 0 && SepFree(head, sep) && forall q :: !OccursAt(key, sep, q)
    requires head in m && m[head] == Str(s)
    ensures ContainsPath(Dict(m), head + sep + key, sep) == Ok(Contains(s, key))
  {
    SepFreeFirst(head, sep, key);
    FirstKeyThenRest(m, head, sep, key);
  }

  /** A number, boolean or `None` under the first key makes the lookup raise. */
  lemma OtherInPath(m: map<string, Value>, head: string, x: int, rest: string, sep: string)
    requires |sep| > 0 && SepFree(head, sep)
    requires head in m && m[head] == Other(x)
    ensures ContainsPath(Dict(m), head + sep + rest, sep).Err?
  {
    SepFreeFirst(head, sep, rest);
    FirstKeyThenRest(m, head, sep, rest);
    if SplitFirst(rest, sep).Some? {
      var (h, r) := SplitFirst(rest, sep).value;
      assert Member(Other(x), h).Err?;
    }
  }
}
