/** Failure-carrying values shared by the modules: a JavaScript `null`/`undefined`
    becomes `None`, a thrown error or rejected promise becomes `Failure`. */
module Wrappers {

  datatype Option<+T> = None | Some(value: T)

  datatype Result<+R, +E> = Success(value: R) | Failure(error: E)

  /** JavaScript truthiness of a value that is a string, `null` or `undefined`:
      only a present, non-empty string is truthy. */
  function Truthy(s: Option<string>): (truthy: bool)
    ensures truthy <==> s != None && s != Some("")
    ensures truthy ==> |s.value| > 0
  {
    s.Some? && s.value != ""
  }
}
