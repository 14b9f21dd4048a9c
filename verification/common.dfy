/**
 * Small shared vocabulary: optional values, and the way Python decides
 * whether an optional string (an intent or region code) counts as present.
 */
module Common {

  /** A value that may be absent (Python's `None`). */
  datatype Option<+T> = None | Some(value: T)

  /**
   * Python truthiness of a `str | None`: `None` and the empty string are
   * false, every other string is true. The configuration loader turns
   * empty cells into "", so an empty code is a value the tables can hold.
   */
  predicate Truthy(o: Option<string>)
  {
    o.Some? && o.value != ""
  }

  /** The intent code that asks for every venue instead of a ranked search. */
  const ListAllIntent: string := "ALL"
}
