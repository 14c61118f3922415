/** Failure-compatible wrappers used throughout the model: `Option` for values a
    JavaScript expression may leave `undefined`/`null`, and `Result` for the
    operations that throw. */
module Wrappers {

  datatype Option<+T> = None | Some(value: T) {
    predicate IsFailure() {
      None?
    }

    function PropagateFailure<U>(): Option<U>
      requires None?
    {
      None
    }

    function Extract(): T
      requires Some?
    {
      value
    }
  }

  /** The exceptions the modelled code raises. */
  datatype Error =
    | QuotesMissing        // `removeQuotes` indexes the null result of a failed match
    | SyntaxIncompatible   // a script template literal that cannot be decomposed
    | UnsupportedId        // a module id ending neither in `.vue` nor in `.js`
    | MissingLanguage      // a catalog read of a language the catalog does not hold

  datatype Result<+R> = Ok(value: R) | Err(error: Error) {
    predicate IsFailure() {
      Err?
    }

    function PropagateFailure<U>(): Result<U>
      requires Err?
    {
      Err(error)
    }

    function Extract(): R
      requires Ok?
    {
      value
    }
  }
}
