/** Optional values as the service sees them at run time. */
module Wrappers {

  /** A value that may be absent (TypeScript `T | null`, or a lookup miss). */
  datatype Option<+T> = None | Some(value: T)

  /** A property of a JavaScript object that may be missing (`undefined`),
      explicitly `null`, or carry a value. The repository and the validators
      treat the first two differently, so both are kept. */
  datatype Field<+T> = Undefined | Null | Present(value: T)

  /** JavaScript truthiness of an optional string: `undefined`, `null` and
      the empty string are falsy, every other string is truthy. */
  predicate TruthyText(f: Field<string>)
  {
    f.Present? && f.value != ""
  }
}
