/** Failure-carrying values shared by the model: an optional value and the
    outcome of a Rust `std::io::Result`. */
module Results {

  datatype Option<+T> = None | Some(value: T)

  /** The kinds of `std::io::Error` the loader can observe.  `InvalidData` is
      what `BufRead::read_line` reports when the line it read is not UTF-8;
      every other kind comes from the file system and is opaque here. */
  datatype IoError = NotFound | PermissionDenied | InvalidData | Other

  /** `std::io::Result<T>` */
  datatype IoResult<+T> = Ok(value: T) | Err(error: IoError)
}
