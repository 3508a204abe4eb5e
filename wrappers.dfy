/** The failure-carrying results of the model. Python signals failure by raising;
    the model returns the exception class instead. */
module Wrappers {

  datatype Option<+T> = None | Some(value: T)

  /** The Python exception classes the modelled code can raise. */
  datatype PyError =
    | ValueError          // int() / float() on a malformed literal
    | KeyError            // a numbering system missing from the digit table
    | TypeError           // '%d' / '%f' formatting applied to a str
    | AttributeError      // str methods applied to an int or float
    | UnicodeEncodeError  // a lone surrogate handed to an encoder

  datatype Result<+T> = Ok(value: T) | Raise(error: PyError)
}
