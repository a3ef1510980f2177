/**
 The values the ESLint adapter works on: ESLint's message records as
 `json.loads` hands them over, and the 7-tuples it yields to the host.
 */
module Records {

  datatype Option<T> = None | Some(value: T)

  /** A key of a decoded JSON object as Python's `dict.get` sees it. */
  datatype JsonField<T> = Absent | Null | Value(value: T)

  /**
   One message record of ESLint's `json` formatter. `column` is read with
   `get('column', None)`, so an absent key and a JSON `null` are both `None`.
   `endLine` and `endColumn` are read with a default; `None` is an absent key
   (a JSON `null` there would make the source subtract from `None` and fail,
   and ESLint leaves the key out instead). `ruleId` keeps absent and `null`
   apart. `fatal` is read with default `False`, so an absent key is `false`.
   */
  datatype Message = Message(
    message: string,
    line: Option<int>,          // 1-based; ESLint omits it on "File ignored" warnings
    column: Option<int>,        // 1-based
    ruleId: JsonField<string>,  // ESLint writes `null` for parse errors
    severity: int,              // 1 = warning, 2 = error
    fatal: bool,
    endLine: Option<int>,       // 1-based
    endColumn: Option<int>)     // 1-based, exclusive

  /** One per-file entry of ESLint's output array. */
  datatype Entry = Entry(messages: seq<Message>)

  /**
   The tuple `find_errors` yields: the raw record, 0-based line and column,
   the error and warning slots (Python `None` is `None`, `''` is `Some("")`),
   the message text and the `near` hint.
   */
  datatype LintError = LintError(
    record: Message,
    line: int,
    col: Option<int>,
    error: Option<string>,
    warning: Option<string>,
    text: string,
    near: Option<string>)
}
