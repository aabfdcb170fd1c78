/** Option, Result and the failures the engine can raise at call time. */
module Wrappers {

  datatype Option<+T> = None | Some(value: T)

  /** The .NET exceptions that reach a caller of the transformation engine. */
  datatype Failure =
    | DivideByZero                       // `%` or `/` by a zero Modulus or Divisor
    | ArgumentOutOfRange(value: int)     // char.ConvertFromUtf32 or a list indexer
    | KeyNotFound(key: string)           // Dictionary indexer on a missing key
    | DuplicateKey(index: int)           // Dictionary.Add of a PrevFactor index already present
    | DuplicateName(name: string)        // Dictionary.Add of a language name already registered

  datatype Result<+T> = Ok(value: T) | Err(error: Failure)

  /** Text produced so far, followed by the outcome of the rest: the first failure wins. */
  function Prepend(done: string, rest: Result<string>): Result<string>
  {
    match rest
    case Ok(s) => Ok(done + s)
    case Err(e) => Err(e)
  }
}
