/** Optional values, results and the failures the statistics pipeline can raise.
    `Result` is failure-compatible, so `:-` propagates the first failure the way
    a Python exception unwinds the call stack. */
module Outcomes {

  datatype Option<+T> = None | Some(value: T)

  /** Each failure stands for the exception the Python code raises at that point. */
  datatype Failure =
    | FetchFailed(provider: string)   // requests.HTTPError raised by `_api_call`
    | UnknownChampion(key: string)    // KeyError on `champions_names[str(id)]`
    | ZeroDivision                    // ZeroDivisionError in `calculate_winrate_percentage`
    | InvalidLiteral(text: string)    // ValueError from `int(champion_id)`
    | ScalarRoleAppend                // AttributeError: a scalar Role column has no `append`
    | KeysNotEqual                    // Exception that `update_champions_assets` raises around its failed key-count assert

  datatype Result<+T> = Ok(value: T) | Err(error: Failure) {

    predicate IsFailure() {
      Err?
    }

    function PropagateFailure<U>(): Result<U>
      requires Err?
    {
      Err(error)
    }

    function Extract(): T
      requires Ok?
    {
      value
    }
  }
}
