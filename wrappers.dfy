/** Failure-carrying results shared by every module of the model, and the one notion
    of a sequence without repeats. Python raises exceptions; the model returns them as
    values. */
module Wrappers {

  datatype Option<+T> = None | Some(value: T)

  /** The Python exceptions the modelled code can raise. */
  datatype PyError =
    | ValueError        // int()/float() of a malformed string, list.index of a missing item
    | IndexError        // indexing past the end of a str or list
    | KeyError          // pandas label lookup of a missing label
    | NameError         // reading a global that is not defined
    | TypeError         // an operation applied to a value of the wrong type
    | ZeroDivisionError // a ratio whose denominator is zero
    | TimeoutError      // WebDriverWait.until gave up (selenium's TimeoutException)

  datatype Result<+T> = Ok(value: T) | Err(error: PyError)

  /** No element occurs twice. */
  predicate Distinct<T(==)>(s: seq<T>)
  {
    forall a, b :: 0 <= a < b < |s| ==> s[a] != s[b]
  }
}
