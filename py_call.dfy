/** The outcome of a Python call in the result-shaping code: the two
    exceptions that can escape it, and keyword arguments that may be
    omitted. */
module PyCall {

  /** The exceptions that escape `snp_list` and `parse_snps` uncaught:
      a dictionary lookup of a missing key, and indexing an empty list. */
  datatype Error = KeyError(key: string) | IndexError

  /** The outcome of a call that may raise one of the errors above. */
  datatype Result<T> = Ok(value: T) | Err(error: Error)

  /** A keyword argument that may or may not have been passed. */
  datatype Option<T> = None | Some(value: T) {
    /** `kwargs.pop(name, default)`: the passed value, or the default. */
    function GetOr(default: T): T {
      match this
      case Some(v) => v
      case None => default
    }
  }
}
