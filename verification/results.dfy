/** Option and result types shared by the other modules. */
module Results {

  /** An optional value: `None` where the source finds nothing or raises. */
  datatype Option<+T> = None | Some(value: T)

  /** Either a value or the error the source would raise instead. */
  datatype Result<+T, +E> = Ok(value: T) | Err(error: E)
}
