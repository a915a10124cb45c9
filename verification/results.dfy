/** Failure-carrying values used across the model: `Option` for JavaScript's
    `null`-or-value results and Python lookups that may miss, `Result` for
    operations that raise an exception on some inputs. */
module Results {

  datatype Option<+T> = None | Some(value: T)

  datatype Result<+T, +E> = Ok(value: T) | Err(error: E)
}
