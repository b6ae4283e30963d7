/** Optional values and results with an error, shared by the other modules. */
module Wrappers {

  /** A value that may be absent (a JavaScript property that is `undefined`). */
  datatype Option<+T> = None | Some(value: T) {

    /** The value, or `default` when it is absent (the `x ? x : default` idiom on objects). */
    function GetOr(default: T): T {
      if Some? then value else default
    }
  }

  /** The outcome of a promise: resolved with a value or rejected with a reason. */
  datatype Result<+T, +E> = Success(value: T) | Failure(error: E)

  /** JavaScript truthiness of an optional string: absent and "" are both falsy. */
  predicate Truthy(s: Option<string>) {
    s.Some? && s.value != ""
  }
}
