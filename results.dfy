/** Outcomes of graph operations. The source reports a missing node by
    throwing; here that is the NotFound result. */
module Results {

  datatype Option<T> = None | Some(value: T)

  datatype Result<T> = Ok(value: T) | NotFound
}
