/**
 * The values the translator and the dictionary helpers walk over: what
 * `json.load` produces, as a finite tree.
 */
module Values {

  /**
   * A string, a list, a dict with string keys, or anything else (numbers,
   * booleans, `None`), which the translator leaves alone. `Other` keeps a
   * payload so that two such values can differ.
   */
  datatype Value =
    | Str(s: string)
    | List(items: seq<Value>)
    | Dict(entries: map<string, Value>)
    | Other(payload: int)

  /** A Python dict that is updated in place. */
  class MutableDict {
    var entries: map<string, Value>

    constructor (entries: map<string, Value>)
      ensures this.entries == entries
    {
      this.entries := entries;
    }
  }
}
