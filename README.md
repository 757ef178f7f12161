# collectiontools_vrb in Dafny

This project models the core of `collectiontools_vrb`:

- **The `CollectionTranslator` object.** It walks nested lists and dicts and replaces placeholders `{KEY}` in their strings with the values of a user-supplied translator function. It then undoes the escapes `\{`, `\}` and `\/`.
- **The dictionary helpers of the package's `__init__`:**
  - `dict_contains_path`;
  - the key/value line loop shared by the two line loaders;
  - the mandatory-key check and merge of `update_dict_from_json_file`.

## Modules

- `Wrappers`: the `Option` and `Result` types.
- `Text`: the Python string operations the source relies on, written out. These are:
  - `re.sub(t, v, s, 1)` for a literal pattern (`ReplaceFirst`);
  - `re.sub(p, r, s)` (`ReplaceAll`);
  - `s.split(sep, 1)` (`SplitFirst`);
  - `t in s` (`Contains`);
  - `str.strip()` (`Strip`).
- `Values`: the values these functions walk over, as a finite tree (`Str`, `List`, `Dict`, `Other`), plus `MutableDict`, a dict updated in place.
- `Placeholders`: `re.findall` with the default pattern `(?<!\\){[^{}]*}`, as a hand-written left-to-right scanner (`ScanFrom`). It is proved sound, ordered and complete with respect to a declarative definition of a match (`TokenAt`).
- `Escapes`:
  - the three global rewrites of `translate_str` (`Unescape`);
  - the documented way to write literal braces and backslashes (`Escape`), which `Unescape` is proved to invert.
- `Translation`: the specification functions.
  - `Translated` is `translate_str`.
  - `TranslatedValue`, `TranslatedItems` and `TranslatedEntries` are `translate`, `translate_list` and `translate_dict`.
  - It also holds the laws about these functions.
- `Translator`: the class `CollectionTranslator`, with its fields `regexp` and `translatorFunc`.
  - Its methods `SubstituteMatches` and `TranslateStr` are loops over the matches.
  - `TranslateList` updates an `array<Value>` in place.
  - `TranslateDict` updates a `MutableDict` in place.
  - `Translate` dispatches on the kind of value.
  - Each method is proved to compute its specification function.
- `TranslationLaws`: `translate_str` on concrete shapes:
  - a lone placeholder;
  - the same placeholder twice;
  - the documented example;
  - an escaped copy of a placeholder in front of it;
  - a replacement text that a later match hits;
  - a nested value.
- `DictPaths`: `dict_contains_path`. A failed lookup is `Ok(false)`. An exception Python would raise is `Err`.
- `Loaders`:
  - the key/value line loop, as a method over the already split lines that updates a `MutableDict`;
  - the mandatory-key check and `d.update` of `update_dict_from_json_file`, over the already parsed JSON object.

### Where the model follows the code rather than the documentation

- **Empty placeholders.** The doc-string of the constructor (`collectiontranslator.py:26-28`) describes a placeholder as a `{` not preceded by a backslash, then a sequence of characters other than `{` and `}`, then a `}`, with `{KEY}` as its example. The pattern uses `[^{}]*`, so that sequence may be empty: `{}` is a placeholder whose inner text is empty, and the function is called on the empty string.
- **First occurrence, not the match position.** Each match replaces the first occurrence of its text anywhere in the current string (`collectiontranslator.py:105`). That occurrence can be an escaped `\{K}` in front of the real placeholder; the result keeps the backslash, then the value, then the real placeholder untouched (`EscapedTextTakesReplacement`). It can also be text inserted by an earlier replacement, so replacement text is not safe from later matches (`ReplacementTextCanBeHit`).
- **Documented example.** The doc-string example `val: \{{KEY}\} \/x /y` drops the prefix `val: ` in its stated result. The model keeps the prefix (`DocExample`).
- **Non-dict values inside a key path.** `dict_contains_path` does not answer "absent" when it meets a non-dict on the way. It applies `in` to whatever it finds:
  - a string gives a substring test;
  - a list gives a membership test;
  - a number, boolean or `None` raises `TypeError`.

  The model keeps those outcomes (`StringInPath`, `OtherInPath`).
- **Empty separator in the line loop.** `split("", 1)` raises `ValueError`, so the line loop fails on its first line. The loader then returns `False`, leaving the dict unchanged, unless there are no lines at all.

## Model

| member | source | states |
|---|---|---|
| Translator.CollectionTranslator.constructor | src/collectiontools_vrb/collectiontranslator.py:15-34 | a new translator holds the default pattern and the given translator function (or none) |
| Translator.CollectionTranslator.SubstituteMatches | src/collectiontools_vrb/collectiontranslator.py:102-105 | the loop yields the string with the matches substituted in order, one first occurrence each; the function is called once per match, left to right, on the match without its braces |
| Translator.CollectionTranslator.TranslateStr | src/collectiontools_vrb/collectiontranslator.py:100-110 | the result is `Translated` of the input. The function is called exactly on the inner texts of the matches, in order, and not at all when there is no function |
| Translator.CollectionTranslator.TranslateList | src/collectiontools_vrb/collectiontranslator.py:127-139 | after the loop, every element of the array is the translation of its old value in the same place |
| Translator.CollectionTranslator.TranslateDict | src/collectiontools_vrb/collectiontranslator.py:156-168 | after the loop, every value of the dict is the translation of its old value under the same key, and the key set is unchanged |
| Translator.CollectionTranslator.Translate | src/collectiontools_vrb/collectiontranslator.py:47-57 | the result is the translation of the value: dict, list and string are delegated, anything else is returned as it is |
| Translation.TranslatedValue | src/collectiontools_vrb/collectiontranslator.py:47-57 | a string stays a string, a list a list, a dict a dict, and any other value is returned unchanged |
| Translation.TranslatedItems | src/collectiontools_vrb/collectiontranslator.py:127-139 | the translated list has the length of the original |
| Translation.TranslatedEntries | src/collectiontools_vrb/collectiontranslator.py:141-168 | the translated dict has exactly the keys of the original |
| Translation.TranslatedSameShape | src/collectiontools_vrb/collectiontranslator.py:127-168 | at every depth, translation keeps list lengths, dict keys and every value that is neither a string nor a container; only strings change |
| Translation.PlainValueUnchanged | src/collectiontools_vrb/collectiontranslator.py:127-168 | a nested value whose strings hold no placeholder and no escape sequence comes back identical |
| Translation.PlainUnchanged | src/collectiontools_vrb/collectiontranslator.py:100-110 | a string without placeholder and without `\{`, `\}`, `\/` is returned unchanged, with or without a function |
| Translation.EscapedRoundTrip | src/collectiontools_vrb/collectiontranslator.py:78-81 | text written with the documented escapes comes back literally, whatever the function: it holds no placeholder, and the rewrites undo the escapes |
| Translation.TranslatedOne | src/collectiontools_vrb/collectiontranslator.py:102-109 | with one match, the result is the rewrites applied after one first-occurrence replacement by the function's value |
| Translation.TranslatedTwo | src/collectiontools_vrb/collectiontranslator.py:102-109 | with two matches, the second replacement works on the output of the first |
| Translation.Translated | src/collectiontools_vrb/collectiontranslator.py:100-110 | `translate_str`: the substitution loop when a function is set, then the three rewrites; its properties are stated by `PlainUnchanged`, `EscapedRoundTrip`, `TranslatedOne`, `TranslatedTwo` and the `TranslationLaws` lemmas, and `TranslateStr` is proved to compute it |
| Translation.Substitute | src/collectiontools_vrb/collectiontranslator.py:103-105 | the loop over the matched texts, each replacing the first occurrence of its text in the current string by `f` of its inner text; `SubstituteOne`, `SubstituteTwo` and `SubstituteStep` state its steps, and `SubstituteMatches` is proved to compute it |
| Escapes.Unescape | src/collectiontools_vrb/collectiontranslator.py:106-109 | the three global rewrites in the source's order; `UnescapeEscape` proves it inverts `Escape`, and `UnescapeNoEscapes` that it is the identity on text without escape sequences |
| Placeholders.ScanFrom | src/collectiontools_vrb/collectiontranslator.py:102 | the scan behind `re.findall`; its first result is a match at or after the start, and `ScanSound`, `ScanOrdered` and `ScanComplete` prove it reports exactly the matches of the pattern, left to right |
| Placeholders.Tokens | src/collectiontools_vrb/collectiontranslator.py:102 | the texts `re.findall` returns, one per match; `TokenShape` states their form |
| Placeholders.Inners | src/collectiontools_vrb/collectiontranslator.py:104 | the arguments `m[1:-1]` of the function calls, one per match; `TokenShape` states that each is the text between the braces of its match |
| Text.ReplaceFirst | src/collectiontools_vrb/collectiontranslator.py:105 | `re.sub(m, val, s, 1)` for a literal pattern; `ReplaceFirstAt` proves that exactly the first occurrence is replaced, `ReplaceFirstAbsent` that without one the string is unchanged |
| Text.ReplaceAll | src/collectiontools_vrb/collectiontranslator.py:107-109 | a global `re.sub` for a literal pattern, in one left-to-right pass; `ReplaceAllAbsent`, `ReplaceAllSkip` and `ReplaceAllHit` state how it treats each position |
| Loaders.ApplyLine | src/collectiontools_vrb/__init__.py:147-152 | one line applied to the dict: nothing without the separator, otherwise the parsed key set to the parsed value; `OtherKey` states that other keys are left alone |
| Loaders.ApplyLines | src/collectiontools_vrb/__init__.py:146-152 | the lines applied in order; `Untouched`, `LastLineWins` and `SkippedLine` state its properties, and `UpdateFromLines` is proved to compute it |
| Placeholders.ScanSound | src/collectiontools_vrb/collectiontranslator.py:15 | every span the scanner reports is a match of the default pattern: an unescaped `{`, no braces inside, a `}` |
| Placeholders.ScanOrdered | src/collectiontools_vrb/collectiontranslator.py:102 | the reported matches come left to right and do not overlap |
| Placeholders.ScanComplete | src/collectiontools_vrb/collectiontranslator.py:102 | every match of the pattern in the string is reported |
| Placeholders.Matches | src/collectiontools_vrb/collectiontranslator.py:102 | every match lies inside the string and spans at least the two braces; the first one is a match of the pattern |
| Placeholders.TokenShape | src/collectiontools_vrb/collectiontranslator.py:102-104 | each found text is `{` + its inner text + `}`; the inner text (`m[1:-1]`) has no braces; the `{` follows no backslash |
| Placeholders.EscapedBraceOpensNothing | src/collectiontools_vrb/collectiontranslator.py:26-28 | a `{` right after a backslash never starts a match |
| Escapes.UnescapeEscape | src/collectiontools_vrb/collectiontranslator.py:106-109 | the three rewrites, in the source's order, invert the documented escaping |
| Escapes.UnescapeNoEscapes | src/collectiontools_vrb/collectiontranslator.py:106-109 | text in which no backslash starts `\{`, `\}` or `\/` is left alone by the rewrites |
| Escapes.EscapedHasNoTokens | src/collectiontools_vrb/collectiontranslator.py:78-81 | escaped text holds no placeholder |
| TranslationLaws.SinglePlaceholder | src/collectiontools_vrb/collectiontranslator.py:75-76 | `{KEY}` becomes `f(KEY)` |
| TranslationLaws.RepeatedPlaceholder | src/collectiontools_vrb/collectiontranslator.py:103-105 | `{K} m {K}` becomes `f(K) m f(K)`: both occurrences are replaced, one per match |
| TranslationLaws.EscapedTextTakesReplacement | src/collectiontools_vrb/collectiontranslator.py:105 | in `\{K}{K}` the escaped copy is replaced and the real placeholder survives: the result is a backslash, then `f(K)`, then `{K}` |
| TranslationLaws.ReplacementTextCanBeHit | src/collectiontools_vrb/collectiontranslator.py:103-105 | when `f(K1)` is `{K2}`, `{K1}{K2}` becomes `f(K2)` followed by `{K2}`: the second match replaces the inserted text |
| TranslationLaws.NoFunctionKeepsPlaceholders | src/collectiontools_vrb/collectiontranslator.py:100-110 | without a function, a string with no escape sequence, placeholders included, is returned unchanged |
| TranslationLaws.DocExample | src/collectiontools_vrb/collectiontranslator.py:84-90 | `p\{{KEY}\}` followed by an escaped tail `x` becomes `p{f(KEY)}x` |
| TranslationLaws.NestedValue | src/collectiontools_vrb/collectiontranslator.py:127-168 | `[a, {key: "{K}"}, ["{K}"]]` becomes `[a, {key: f(K)}, [f(K)]]` for a plain `a` |
| DictPaths.Member | src/collectiontools_vrb/__init__.py:181 | on a dict, `in` is key membership; it raises exactly on values that are neither string, list nor dict |
| DictPaths.ContainsPath | src/collectiontools_vrb/__init__.py:163-192 | an empty separator makes the lookup raise |
| DictPaths.SingleKey | src/collectiontools_vrb/__init__.py:177-181 | a path without separator is found exactly when it is a key of the dict |
| DictPaths.FirstKeyThenRest | src/collectiontools_vrb/__init__.py:182-192 | `head + sep + rest`, split at the first separator, is absent when `head` is not a key, and otherwise is the lookup of `rest` under `head` |
| DictPaths.JoinedPath | src/collectiontools_vrb/__init__.py:163-192 | through nested dicts, a path of separator-free keys is found exactly when every key is there at its level |
| DictPaths.StringInPath | src/collectiontools_vrb/__init__.py:184-188 | a string under the first key answers the rest of the path with a substring test |
| DictPaths.OtherInPath | src/collectiontools_vrb/__init__.py:184-188 | a number, boolean or `None` under the first key makes the lookup raise |
| Loaders.ParseLine | src/collectiontools_vrb/__init__.py:147-152 | a line is skipped exactly when it lacks the separator; otherwise, unstripped, key + separator + value is the line, and the key holds no separator |
| Loaders.ParseJoined | src/collectiontools_vrb/__init__.py:147-148 | `key + sep + value` with no separator in `key` gives back `key` and `value`, later separators staying in the value |
| Loaders.UpdateFromLines | src/collectiontools_vrb/__init__.py:146-153 | the dict becomes the lines applied in order; an empty separator fails on the first line and leaves the dict unchanged |
| Loaders.Untouched | src/collectiontools_vrb/__init__.py:146-152 | a key that no line sets keeps its old value, or stays absent |
| Loaders.LastLineWins | src/collectiontools_vrb/__init__.py:146-152 | the last line that sets a key decides its value |
| Loaders.SkippedLine | src/collectiontools_vrb/__init__.py:148 | a line without the separator changes nothing |
| Loaders.UpdateFromJson | src/collectiontools_vrb/__init__.py:224-236 | the result is true exactly when every mandatory path is found in the object; then `d` is overridden by the object at top level, otherwise it is unchanged |
| Text.FindFromFirst | src/collectiontools_vrb/__init__.py:177 | the search returns the first occurrence at or after the start index, or none when there is none |
| Text.SplitFirst | src/collectiontools_vrb/__init__.py:147 | `split(sep, 1)` gives one part exactly when the separator is absent; otherwise the parts joined by the separator give the line, and the first part holds no separator |
| Text.SplitFirstJoin | src/collectiontools_vrb/__init__.py:177 | splitting `head + sep + rest` with no separator in `head` gives `head` and `rest` |
| Text.Contains | src/collectiontools_vrb/__init__.py:181 | `t in s` on strings holds exactly when `t` occurs somewhere in `s` |
| Text.Strip | src/collectiontools_vrb/__init__.py:150 | the result is a slice of the line with only whitespace cut off on both sides, and it neither starts nor ends with whitespace |
| Text.ReplaceFirstAt | src/collectiontools_vrb/collectiontranslator.py:105 | with the first occurrence of the text at `p`, exactly that occurrence is replaced |
| Text.ReplaceFirstAbsent | src/collectiontools_vrb/collectiontranslator.py:105 | without an occurrence the string is unchanged |

## Left out

- File, URL and JSON input are left out: `open`, `json.load`, `splitlines` and the aiohttp fetch (`__init__.py:53-72`, `101-111`, `144-145`, `220-221`). The loop takes the lines as input; the merge takes the parsed object.
- The exception policy is left out: `reraise_exc`, `print_errors_to` and `traceback` (`__init__.py:154-161`, `237-244`). A failure is the `false` result of the loader methods or the `Err` of `ContainsPath`. The diagnostics printed for a missing key are not modelled.
- A JSON top level that is not an object is left out: the merge takes a map.
- Only the default `regexp` is modelled. The field can be reassigned, but the methods require it to be `DefaultPattern`; general regular expressions are not modelled.
- `re.sub(m, val, s, 1)` treats `m` as a pattern and `val` as a template. The model replaces literally and requires `LiteralSafe`: every inner text reads literally as a regular expression, and no replacement value contains a backslash. Otherwise `re.sub` would interpret escapes in `val` or reject a pattern such as `{2}`.
- Failures of the translator function are not modelled: it is a total Dafny function.
- Translator.CollectionTranslator.TranslateList and Translator.CollectionTranslator.TranslateDict: the values are a finite tree, so aliasing and cycles between containers are not modelled. A nested list or dict is translated as a value and stored back; the source mutates the nested object itself, so identity is not captured.
- Translator.CollectionTranslator.TranslateDict: the dict is visited in an arbitrary key order. The result does not depend on that order, and Python's insertion order is not modelled.
- Text.Strip: only ASCII whitespace is stripped. Python's `str.strip()` also removes other Unicode whitespace.
- Numbers, booleans and `None` are one kind of value, `Other`. The translator leaves them alone, and `in` raises on them.
