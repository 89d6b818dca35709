/** Failure-carrying values shared by the chat-server model. */
module Outcomes {

  /** A value that may be absent: a JavaScript `undefined` body field, or a
      lookup that found nothing. */
  datatype Option<T> = None | Some(value: T)

  /** Either a computed value or the reason it could not be computed. */
  datatype Result<T, E> = Ok(value: T) | Err(error: E)
}
