/** Success and failure values shared by the student-record operations. */
module Outcomes {

  /** The error kinds the service tells apart. Each becomes its own HTTP
      status at the transport layer, which is not modelled. */
  datatype Error =
    | ValidationError   // a document breaks the record schema
    | NotFound          // no record is stored under the requested ID
    | AlreadyExists     // create with an ID that is already stored
    | BadSortDirection  // a sort direction other than asc or desc
    | BadSortColumn     // a sort column outside the allow-list
    | TypeError         // the runtime refuses an operation on a JSON null

  datatype Option<+T> = None | Some(value: T)

  /** The value an operation computes, or the error it stops with. */
  datatype Result<+T> = Success(value: T) | Failure(error: Error)

  /** The outcome of an operation that only changes the store. */
  datatype Status = Ok | Err(error: Error)
}
