/** The outcome of an operation that the source ends by throwing a `std::string`. */
module Results {
  datatype Result<+T> = Ok(value: T) | Err(msg: string)
}
