/** The status values the modelled code returns or carries: OK, or an error with its code and message. */
module Errors {

  /** The only code the modelled checks produce; the message tells the failures apart. */
  datatype Code = IllegalState

  datatype Status = OK | Error(code: Code, message: string)
  {
    predicate ok()
    {
      OK?
    }
  }
}
