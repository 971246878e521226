/** Values shared by the repository and the controller. */
module Results {

  /** A row or user that may be absent (the source's `null`). */
  datatype Option<T> = None | Some(value: T)

  /** What an administrative action answers: 200 with a body, 400 with a message, or 404. */
  datatype Response<T> = Ok(value: T) | BadRequest(message: string) | NotFound
}
