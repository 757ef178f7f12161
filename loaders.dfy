/**
 * What the loaders do once their input has been read: the key/value line
 * loop shared by `update_dict_from_key_value_file` and
 * `_update_dict_from_url`, and the mandatory-key check and merge of
 * `update_dict_from_json_file`. The lines (after `splitlines`) and the
 * parsed JSON object are inputs.
 */
module Loaders {
  import opened Wrappers
  import opened Text
  import opened Values
  import opened DictPaths

  /**
   * One line: skipped (`None`) when `sep` does not occur in it; otherwise
   * the text before the first `sep` is the key and everything after it the
   * value, both stripped of surrounding whitespace when `strip` is set.
   */
  function ParseLine(line: string, sep: string, strip: bool): (r: Option<(string, string)>)
    requires |sep| > 0
    ensures r.None? <==> forall q :: !OccursAt(line, sep, q)
    ensures r.Some? && !strip ==>
      line == r.value.0 + sep + r.value.1 && forall q :: 0 <= q < |r.value.0| ==> !OccursAt(line, sep, q)
  {
    match SplitFirst(line, sep)
    case None => None
    case Some((key, value)) => if strip then Some((Strip(key), Strip(value))) else Some((key, value))
  }

  /** With `strip` set, key and value are the stripped parts of the unstripped split. */
  lemma ParseLineStrip(line: string, sep: string)
    requires |sep| > 0 && ParseLine(line, sep, false).Some?
    ensures var (k, v) := ParseLine(line, sep, false).value;
      ParseLine(line, sep, true) == Some((Strip(k), Strip(v)))
  {
  }

  /** A line of the form `key + sep + value`, with no `sep` in `key`, gives back `key` and `value`. */
  lemma ParseJoined(key: string, sep: string, value: string)
    requires |sep| > 0 && forall q :: 0 <= q < |key| ==> !OccursAt(key + sep + value, sep, q)
    ensures ParseLine(key + sep + value, sep, false) == Some((key, value))
  {
    SplitFirstJoin(key, sep, value);
  }

  /** The dict after one line has been applied to `m`. */
  function ApplyLine(m: map<string, Value>, line: string, sep: string, strip: bool): map<string, Value>
    requires |sep| > 0
  {
    match ParseLine(line, sep, strip)
    case None => m
    case Some((k, v)) => m[k := Str(v)]
  }

  /** The dict after the lines have been applied to `m`, one after the other. */
  function ApplyLines(m: map<string, Value>, lines: seq<string>, sep: string, strip: bool): map<string, Value>
    requires |sep| > 0
    decreases |lines|
  {
    if lines == [] then m
    else ApplyLine(ApplyLines(m, lines[..|lines| - 1], sep, strip), lines[|lines| - 1], sep, strip)
  }

  /** Applying the first `i + 1` lines is applying line `i` after the first `i`. */
  lemma ApplyPrefix(m: map<string, Value>, lines: seq<string>, sep: string, strip: bool, i: nat)
    requires |sep| > 0 && i < |lines|
    ensures ApplyLines(m, lines[..i + 1], sep, strip) == ApplyLine(ApplyLines(m, lines[..i], sep, strip), lines[i], sep, strip)
  {
    assert lines[..i + 1][..i] == lines[..i];
  }

  /** `line` sets `key`. */
  predicate Sets(line: string, sep: string, strip: bool, key: string)
    requires |sep| > 0
  {
    ParseLine(line, sep, strip).Some? && ParseLine(line, sep, strip).value.0 == key
  }

  /** A key that no line sets keeps its old value, or stays absent. */
  lemma {:induction false} Untouched(m: map<string, Value>, lines: seq<string>, sep: string, strip: bool, key: string)
    requires |sep| > 0
    requires forall i :: 0 <= i < |lines| ==> !Sets(lines[i], sep, strip, key)
    ensures key in ApplyLines(m, lines, sep, strip) <==> key in m
    ensures key in m ==> ApplyLines(m, lines, sep, strip)[key] == m[key]
    decreases |lines|
  {
    if lines != [] {
      var init := lines[..|lines| - 1];
      forall i | 0 <= i < |init| ensures !Sets(init[i], sep, strip, key) {
        assert init[i] == lines[i];
      }
      Untouched(m, init, sep, strip, key);
      OtherKey(ApplyLines(m, init, sep, strip), lines[|lines| - 1], sep, strip, key);
    }
  }

  /** A line that does not set `key` leaves it as it is. */
  lemma OtherKey(m: map<string, Value>, line: string, sep: string, strip: bool, key: string)
    requires |sep| > 0 && !Sets(line, sep, strip, key)
    ensures key in ApplyLine(m, line, sep, strip) <==> key in m
    ensures key in m ==> ApplyLine(m, line, sep, strip)[key] == m[key]
  {
  }

  /** The last line that sets a key decides its value. */
  lemma {:induction false} LastLineWins(m: map<string, Value>, lines: seq<string>, sep: string, strip: bool, i: nat, key: string, value: string)
    requires |sep| > 0 && i < |lines| && ParseLine(lines[i], sep, strip) == Some((key, value))
    requires forall j :: i < j < |lines| ==> !Sets(lines[j], sep, strip, key)
    ensures key in ApplyLines(m, lines, sep, strip) && ApplyLines(m, lines, sep, strip)[key] == Str(value)
    decreases |lines|
  {
    var init := lines[..|lines| - 1];
    if i < |lines| - 1 {
      assert init[i] == lines[i];
      forall j | i < j < |init| ensures !Sets(init[j], sep, strip, key) {
        assert init[j] == lines[j];
      }
      LastLineWins(m, init, sep, strip, i, key, value);
      OtherKey(ApplyLines(m, init, sep, strip), lines[|lines| - 1], sep, strip, key);
    }
  }

  /** A line without the separator is skipped. */
  lemma SkippedLine(m: map<string, Value>, lines: seq<string>, line: string, sep: string, strip: bool)
    requires |sep| > 0 && forall q :: !OccursAt(line, sep, q)
    ensures ApplyLines(m, lines + [line], sep, strip) == ApplyLines(m, lines, sep, strip)
  {
    assert (lines + [line])[..|lines|] == lines;
    assert ApplyLine(ApplyLines(m, lines, sep, strip), line, sep, strip) == ApplyLines(m, lines, sep, strip);
  }

  /**
   * The line loop over the dict `d`. An empty separator makes `split`
   * raise on the first line, so nothing changes and `ok` is false; with no
   * lines there is nothing to split and `ok` is true.
   */
  method UpdateFromLines(d: MutableDict, lines: seq<string>, sep: string, strip: bool) returns (ok: bool)
    modifies d
    ensures ok <==> |sep| > 0 || lines == []
    ensures |sep| > 0 ==> d.entries == ApplyLines(old(d.entries), lines, sep, strip)
    ensures |sep| == 0 ==> d.entries == old(d.entries)
  {
    if sep == [] {
      return lines == [];
    }
    ghost var m := d.entries;
    for i := 0 to |lines|
      invariant d.entries == ApplyLines(m, lines[..i], sep, strip)
    {
      ghost var before := d.entries;
      var parts := SplitFirst(lines[i], sep);
      if parts.Some? {
        var (key, value) := parts.value;
        if strip {
          d.entries := d.entries[Strip(key) := Str(Strip(value))];
        } else {
          d.entries := d.entries[key := Str(value)];
        }
      }
      assert d.entries == ApplyLine(before, lines[i], sep, strip);
      ApplyPrefix(m, lines, sep, strip, i);
    }
    assert lines[..|lines|] == lines;
    return true;
  }

  /** Every mandatory key path is found in the parsed object, with `.` as separator. */
  predicate AllPresent(result: map<string, Value>, mandatoryKeys: seq<string>)
  {
    forall i :: 0 <= i < |mandatoryKeys| ==> ContainsPath(Dict(result), mandatoryKeys[i], ".") == Ok(true)
  }

  /**
   * The check and merge of `update_dict_from_json_file`: the first missing
   * mandatory path (a failed lookup or one that raises) stops with `false`
   * and `d` unchanged; otherwise `d.update(result)` and `true`.
   */
  method UpdateFromJson(d: MutableDict, result: map<string, Value>, mandatoryKeys: seq<string>) returns (ok: bool)
    modifies d
    ensures ok <==> AllPresent(result, mandatoryKeys)
    ensures d.entries == if ok then old(d.entries) + result else old(d.entries)
  {
    for i := 0 to |mandatoryKeys|
      invariant AllPresent(result, mandatoryKeys[..i])
    {
      if ContainsPath(Dict(result), mandatoryKeys[i], ".") != Ok(true) {
        return false;
      }
      assert mandatoryKeys[..i + 1][i] == mandatoryKeys[i];
    }
    assert mandatoryKeys[..|mandatoryKeys|] == mandatoryKeys;
    d.entries := d.entries + result;
    return true;
  }
}
