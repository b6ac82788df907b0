/** Small value types shared by the whole model. */
module Base {

  /** A field of a JSON request body or of a partial document: absent or present. */
  datatype Option<+T> = None | Some(value: T) {

    /** The present value, or `default` when absent. */
    function GetOr(default: T): T {
      match this
      case Some(v) => v
      case None => default
    }

    /** Applies `f` to a present value; an absent value stays absent. */
    function Map<U>(f: T -> U): Option<U> {
      match this
      case Some(v) => Some(f(v))
      case None => None
    }
  }

  /** The outcome of an operation that can throw an error with a message. */
  datatype Result<+T> = Ok(value: T) | Err(error: string)

  /**
   * A string that JavaScript treats as truthy. Request fields and stored text
   * fields are non-empty, so "present" and "truthy" coincide in the model.
   */
  type Text = s: string | |s| > 0 witness "?"
}
