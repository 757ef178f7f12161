/**
 * `CollectionTranslator`, the object: its two fields, `translate_str` as the
 * loop over the matches followed by the three rewrites, `translate_list`
 * over an array it updates in place, `translate_dict` over a dict it
 * updates in place, and `translate`, which dispatches on the kind of value.
 * Each method is proved to compute the function of `Translation` that
 * specifies it.
 */
module Translator {
  import opened Wrappers
  import opened Text
  import opened Values
  import opened Placeholders
  import opened Escapes
  import opened Translation

  class CollectionTranslator {
    /** The pattern placeholders are found with; only the default one is modelled. */
    var regexp: string
    /** The function that gives a placeholder its value, or `None`. */
    var translatorFunc: Option<string -> string>

    /** A translator with the default pattern. */
    constructor (translatorFunc: Option<string -> string>)
      ensures regexp == DefaultPattern && this.translatorFunc == translatorFunc
    {
      regexp := DefaultPattern;
      this.translatorFunc := translatorFunc;
    }

    /**
     * The placeholder loop of `translate_str(s)`: the matches are found in
     * `s` first and then substituted one after the other into the current
     * string; `calls` lists the arguments `f` is called with, in order.
     */
    method SubstituteMatches(s: string, f: string -> string) returns (cur: string, calls: seq<string>)
      ensures cur == Substitute(s, Tokens(s), f)
      ensures calls == Inners(s)
    {
      cur := s;
      calls := [];
      var found := Tokens(s);
      var i := 0;
      while i < |found|
        invariant 0 <= i <= |found|
        invariant Substitute(cur, found[i..], f) == Substitute(s, found, f)
        invariant |calls| == i && forall j :: 0 <= j < i ==> calls[j] == Inner(found[j])
      {
        var val := f(Inner(found[i]));
        calls := calls + [Inner(found[i])];
        SubstituteStep(cur, found, i, f);
        cur := ReplaceFirst(cur, found[i], val);
        i := i + 1;
      }
      assert found[i..] == [];
      assert |Inners(s)| == |found|;
    }

    /**
     * `translate_str(s)`: with a function, the placeholder loop; then the
     * three rewrites in every case. `calls` lists the arguments the
     * function is called with.
     */
    method TranslateStr(s: string) returns (r: string, calls: seq<string>)
      requires regexp == DefaultPattern && LiteralSafe(translatorFunc, s)
      ensures r == Translated(translatorFunc, s)
      ensures calls == (if translatorFunc.Some? then Inners(s) else [])
    {
      var cur := s;
      calls := [];
      if translatorFunc.Some? {
        cur, calls := SubstituteMatches(s, translatorFunc.value);
      }
      // the three rewrites, `\{`, then `\}`, then `\/`
      r := Unescape(cur);
    }

    /**
     * `translate_list(l)`: every element is replaced by its translation;
     * strings through `translate_str`, nested lists and dicts recursively,
     * anything else left as it is.
     */
    method TranslateList(a: array<Value>)
      requires regexp == DefaultPattern
      requires forall i :: 0 <= i < a.Length ==> SafeValue(translatorFunc, a[i])
      modifies a
      ensures a[..] == TranslatedItems(translatorFunc, old(a[..]))
      decreases List(a[..]), 0
    {
      ghost var items := a[..];
      for i := 0 to a.Length
        invariant forall j :: i <= j < a.Length ==> a[j] == items[j]
        invariant forall j :: 0 <= j < i ==> a[j] == TranslatedValue(translatorFunc, items[j])
      {
        var val := a[i];
        assert val in items;
        match val {
          case Dict(_) =>
            a[i] := Translate(val);
          case List(_) =>
            a[i] := Translate(val);
          case Str(s) =>
            var t, _ := TranslateStr(s);
            a[i] := Str(t);
          case Other(_) =>
        }
      }
      assert a[..] == TranslatedItems(translatorFunc, items);
    }

    /**
     * `translate_dict(d)`: every value is replaced by its translation under
     * the same key, and no key is added or removed.
     */
    method TranslateDict(d: MutableDict)
      requires regexp == DefaultPattern
      requires forall k :: k in d.entries ==> SafeValue(translatorFunc, d.entries[k])
      modifies d
      ensures d.entries == TranslatedEntries(translatorFunc, old(d.entries))
      decreases Dict(d.entries), 0
    {
      ghost var m := d.entries;
      var keys := d.entries.Keys;
      while keys != {}
        invariant d.entries.Keys == m.Keys && keys <= m.Keys
        invariant forall k :: k in keys ==> d.entries[k] == m[k]
        invariant forall k :: k in m && k !in keys ==> d.entries[k] == TranslatedValue(translatorFunc, m[k])
        decreases keys
      {
        var key :| key in keys;
        var val := d.entries[key];
        assert val == m[key] && key in m;
        match val {
          case Dict(_) =>
            var t := Translate(val);
            d.entries := d.entries[key := t];
          case List(_) =>
            var t := Translate(val);
            d.entries := d.entries[key := t];
          case Str(s) =>
            var t, _ := TranslateStr(s);
            d.entries := d.entries[key := Str(t)];
          case Other(_) =>
        }
        keys := keys - {key};
      }
    }

    /**
     * `translate(val)`: a dict goes to `translate_dict`, a list to
     * `translate_list`, a string to `translate_str`, and anything else is
     * returned as it is.
     */
    method Translate(v: Value) returns (r: Value)
      requires regexp == DefaultPattern && SafeValue(translatorFunc, v)
      ensures r == TranslatedValue(translatorFunc, v)
      decreases v, 1
    {
      match v
      case Dict(m) =>
        var d := new MutableDict(m);
        TranslateDict(d);
        r := Dict(d.entries);
      case List(items) =>
        var a := new Value[|items|](i requires 0 <= i < |items| => items[i]);
        assert a[..] == items;
        TranslateList(a);
        r := List(a[..]);
      case Str(s) =>
        var t, _ := TranslateStr(s);
        r := Str(t);
      case Other(_) =>
        r := v;
    }
  }
}
