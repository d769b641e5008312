/** Outcomes of the graph's operations. */
module Results {

  datatype Option<T> = None | Some(value: T)

  /**
   * The graph reports a missing endpoint by throwing `std::runtime_error`;
   * here that is the `NodeMissing` outcome. The text of each message is not
   * modelled.
   */
  datatype Result<T> = Ok(value: T) | NodeMissing
}
