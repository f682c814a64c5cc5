/**
 * JSON-like configuration values, as the controller's configuration object
 * holds them: strings, booleans and nested records keyed by strings.
 */
module Values {
  import opened Wrappers

  datatype Value = Str(s: string) | Bool(b: bool) | Rec(fields: map<string, Value>)

  /** A configuration object: the fields of a top-level record. */
  type Config = map<string, Value>

  /** The value reached from `v` by following the property names in `path`. */
  function Find(v: Value, path: seq<string>): (r: Option<Value>)
    decreases |path|
  {
    if path == [] then Some(v)
    else if v.Rec? && path[0] in v.fields then Find(v.fields[path[0]], path[1..])
    else None
  }

  /** True iff `v` is a primitive (a string or a boolean), not a record. */
  predicate IsLeaf(v: Value)
  {
    !v.Rec?
  }

  /**
   * True iff an override `s` leaves the non-empty `path` to the value beneath
   * it: some property along the path is absent from `s`, and every property
   * before it holds a record in `s`.
   */
  predicate Untouched(s: Value, path: seq<string>)
    decreases |path|
  {
    && path != []
    && s.Rec?
    && (path[0] !in s.fields || Untouched(s.fields[path[0]], path[1..]))
  }
}
