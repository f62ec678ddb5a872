/** Option and Result shapes shared by the model, and the failures the products service reports. */
module Common {

  datatype Option<+T> = None | Some(value: T)

  /** How a service call fails: a NotFoundException, the external catalog's
      SERVICE_UNAVAILABLE answer passed through, or an error thrown by the database. */
  datatype Failure = NotFound | ServiceUnavailable | PersistenceError

  datatype Result<+T> = Ok(value: T) | Err(error: Failure)
}
