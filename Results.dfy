/**
 * The outcome of an operation that can throw std::out_of_range, the only
 * exception either container raises.
 */
module Results {
  datatype Result<T> = Ok(value: T) | OutOfRange
}
