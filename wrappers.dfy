/** Optional values: the model's `undefined` / `null`. */
module Wrappers {

  datatype Option<+T> = None | Some(value: T)

  /** JavaScript truthiness of a `string | undefined`: `undefined` and `""` are both falsy. */
  predicate IsFalsy(s: Option<string>)
    ensures IsFalsy(s) <==> s == None || s == Some("")
  {
    s.None? || s.value == ""
  }
}
