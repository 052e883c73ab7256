/** Error and optional results, in place of the source's fatal `LOGE`/`exit` paths. */
module Results {

  /** The fatal conditions of the editor (each ends the C process). */
  datatype Error =
    | BadHeader        // a header field that is not hex: "bad cpio header"
    | ShortRead        // a name or payload cut off by the end of the file
    | UnterminatedName // a name field holding no NUL (C would read past it)
    | NotFound         // `extract` found no regular entry of that name

  datatype Result<+T> = Ok(value: T) | Err(error: Error) {
    predicate IsFailure() { Err? }

    function PropagateFailure<U>(): Result<U>
      requires Err?
    {
      Err(error)
    }

    function Extract(): T
      requires Ok?
    {
      value
    }
  }

  datatype Option<+T> = None | Some(value: T)
}
