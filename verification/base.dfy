/** Types shared by the trust database and the language-configuration loader. */
module Base {

  /** A filesystem path as its list of components; `[]` is the root directory `/`. */
  type Path = seq<string>

  type Bytes = seq<bv8>

  datatype Option<+T> = None | Some(value: T)

  /** The part of `std::io::ErrorKind` the code distinguishes. */
  datatype ErrorKind = NotFound | PermissionDenied | Other

  datatype IoError = IoError(kind: ErrorKind)

  /** The outcome of reading a whole file (`std::fs::read_to_string`). */
  datatype ReadResult = Read(contents: Bytes) | ReadFailed(error: IoError)

  /**
   * The outcome of a trust-database operation: the `std::io::Result` it
   * returns, or the panic it raises on a corrupted database file.
   */
  datatype Outcome<+R> = Ok(value: R) | Err(error: IoError) | Panicked {

    /** The same failure, at another result type. */
    function Cast<U>(): (r: Outcome<U>)
      requires !Ok?
      ensures !r.Ok?
      ensures r.Err? <==> Err?
      ensures Err? ==> r.error == error
    {
      if Err? then Err(error) else Panicked
    }
  }
}
