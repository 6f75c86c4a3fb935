/** The Python exceptions that the statistics step can raise, and a result
    type that carries either a value or the exception that ended the call. */
module Outcomes {

  /** IndexError: a list index out of range (an empty `streaks` list, or a
      `split` that did not find its marker).
      AttributeError: `re.search` found no digits and returned None. */
  datatype Error = IndexError | AttributeError

  datatype Result<T> = Ok(value: T) | Err(error: Error)
}
