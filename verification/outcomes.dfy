/** Option and Result values that stand for the program's exceptions and
    `sys.exit` calls: a failing step returns a value instead of ending the
    process, and the `:-` operator passes it on. */
module Outcomes {

  datatype Option<+T> = None | Some(value: T) {
    predicate IsFailure() { None? }

    function PropagateFailure<U>(): Option<U>
      requires None?
    {
      None
    }

    function Extract(): T
      requires Some?
    {
      value
    }

    /** The failure to report when the value is missing. */
    function ToResult(error: Failure): (r: Result<T>)
      ensures r.Ok? <==> Some?
      ensures Some? ==> r.value == value
    {
      if Some? then Ok(value) else Err(error)
    }
  }

  /** Why a run stops early. */
  datatype Failure =
    | NoResponse(page: int)             // `requests` raised for this page request
    | HttpError(page: int, status: int)  // the page request was answered without `x.ok`
    | BadDate(text: string)              // `strptime` rejected a date field

  datatype Result<+T> = Ok(value: T) | Err(error: Failure) {
    predicate IsFailure() { Err? }

    function PropagateFailure<U>(): Result<U>
      requires Err?
    {
      Err(error)
    }

    function Extract(): T
      requires Ok?
    {
      value
    }
  }
}
