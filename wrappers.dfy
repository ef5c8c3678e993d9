/** Results with the failure kinds the cipher code raises. */
module Wrappers {

  /** The Python exceptions the modelled code can raise, by kind. */
  datatype Failure =
    | DivisionByZero     // `x % 0` or `x // 0`: an empty key or keyword
    | IndexOutOfRange    // `seq[i]` past either end, including `pairs[-1]` on an empty list
    | NotFound           // `list.index(x)` for an `x` that is not in the list

  datatype Result<T> = Ok(value: T) | Err(error: Failure)
}
