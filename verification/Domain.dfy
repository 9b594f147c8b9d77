/** Vocabulary shared by the models: optional values, the API's errors, and the two status columns
    (apps/control-api/prisma/schema.prisma). */
module Domain {

  datatype Option<T> = None | Some(value: T)

  /** The application's error codes, and the errors the database itself raises. */
  datatype Error =
    | NotFound | Conflict | Forbidden | InvalidRequest | LimitExceeded | InternalError | DatabaseError
  datatype Result<T> = Ok(value: T) | Err(error: Error)

  datatype EndpointStatus = Active | Paused | Disabled | Deleted

  datatype DeliveryStatus =
    | Pending | Scheduled | Queued | Processing | Succeeded | Failed | Retrying | Exhausted | Cancelled
}
