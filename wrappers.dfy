/** Optional values and the error outcomes of the arity analysis. */
module Wrappers {

  /** `None` stands for JavaScript's `null`/`undefined`. */
  datatype Option<+T> = None | Some(value: T)

  /** The exceptions the analysis can raise; each is fatal to one analysis call. */
  datatype Failure =
    | RejectedToken       // the token screen met a loop, assignment or update token
    | UnexpectedToken     // `async` followed by a shape that is not a callable definition
    | TypeError           // a property read on `undefined` (missing binding, missing property)
    | ParseFailure        // the foreign parser refused the text
    | NotAFunction        // the parsed value is not a function node
    | NotAnIdentifier     // a rest element whose argument is a pattern
    | ParentNotSet        // the crawl did not link the body to the function node
    | NoAncestorFunction  // a reference with no enclosing function node
    | InconsistentCount   // parsed parameter count disagrees with the runtime's

  datatype Result<+T> = Ok(value: T) | Err(error: Failure)
}
