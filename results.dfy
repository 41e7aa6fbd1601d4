/** The outcome of an operation that raises on some inputs, and an optional
    value for an output that is present only on some inputs. */
module Results {
  datatype Result<T> = Ok(value: T) | Err(reason: string)

  datatype Option<T> = None | Some(value: T)
}
