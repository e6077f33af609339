/** Stand-in for the library's outcome type `stl::result<T>` (core/result.h is
    not part of this model): either a success payload or an error message. */
module Results {

  datatype Result<T> = Ok(value: T) | Err(error: string)

  datatype Option<T> = None | Some(value: T)
}
