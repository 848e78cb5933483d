/** Success-or-error values, standing in for the Python exceptions the scripts raise. */
module Results {

  datatype Option<+T> = None | Some(value: T)

  datatype Result<+T, +E> = Ok(value: T) | Err(error: E)
}
