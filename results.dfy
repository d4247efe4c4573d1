/** Success-or-failure values for the operations that the original program
    ends with a panic (`unwrap`, `assert_eq!`) instead of an error return. */
module Results {

  datatype Option<+T> = None | Some(value: T)

  datatype Result<+T, +E> = Ok(value: T) | Err(error: E)

}
