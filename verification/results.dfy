/** Success/failure values shared by every module: the scripts signal
    failure by raising, which the model turns into an `Err` value. */
module Results {

  datatype Option<+T> = None | Some(value: T)

  datatype Result<+T, +E> = Ok(value: T) | Err(error: E)
}
