/** Optional values, results and the Python exceptions the modelled code raises. */
module Wrappers {

  datatype Option<+T> = None | Some(value: T) {
    predicate IsFailure() { None? }

    function PropagateFailure<U>(): Option<U>
      requires None?
    {
      None
    }

    function Extract(): T
      requires Some?
    {
      value
    }

    function GetOr(default: T): T {
      match this
      case Some(v) => v
      case None => default
    }
  }

  datatype Result<+T, +E> = Ok(value: T) | Err(error: E) {
    predicate IsFailure() { Err? }

    function PropagateFailure<U>(): Result<U, E>
      requires Err?
    {
      Err(error)
    }

    function Extract(): T
      requires Ok?
    {
      value
    }
  }

  /** The exceptions raised by the modelled Python code, with the payload each carries. */
  datatype Exc =
    | KeyError(key: string)
    | ValueError(message: string)
    | AttributeError(message: string)
    | IndexError(index: int)
    | TypeError(message: string)
    | TrelloConfigException(message: string)
    /** Whatever fetching the page at `url` raised: a request error other than a refused connection, or
      * a page whose title is not text. */
    | FetchError(url: string)

  /** Python truthiness of an optional string: neither None nor empty. */
  predicate Truthy(o: Option<string>) {
    o.Some? && o.value != ""
  }
}
