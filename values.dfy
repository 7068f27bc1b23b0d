/** Values shared by every part of the store model: the tagged metadata value,
    stored records, optional and fallible results, and string predicates. */
module Values {

  datatype Option<+T> = None | Some(value: T)

  datatype Result<+T, +E> = Ok(value: T) | Err(error: E)

  /** A metadata or field value, tagged by the Python type the store inspects.
      `OtherVal` stands for every other Python object (None, lists, dates, ...),
      of which the store only ever looks at the truthiness. */
  datatype Value =
    | BoolVal(b: bool)
    | StrVal(s: string)
    | IntVal(i: int)
    | FloatVal(f: real)
    | OtherVal(truthy: bool)

  /** A stored record: field name to value. */
  type Record = map<string, Value>

  /** Python truthiness of a value (`if v:` / `not v`). */
  predicate Truthy(v: Value) {
    match v
    case BoolVal(b) => b
    case StrVal(s) => s != ""
    case IntVal(i) => i != 0
    case FloatVal(f) => f != 0.0
    case OtherVal(t) => t
  }

  /** Python truthiness of an optional string argument (None and "" are false). */
  predicate TruthyText(o: Option<string>) {
    o.Some? && o.value != ""
  }

  /** The engine's reading of an exact-term clause `Term(field, value)`, as
      filters and `delete_by_term` use it: assumed here to be field equality. */
  predicate TermMatches(rec: Record, field: string, value: Value) {
    field in rec && rec[field] == value
  }

  predicate StartsWith(s: string, prefix: string) {
    |prefix| <= |s| && s[..|prefix|] == prefix
  }

  predicate EndsWith(s: string, suffix: string) {
    |suffix| <= |s| && s[|s| - |suffix|..] == suffix
  }
}
