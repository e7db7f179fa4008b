/** Outcomes of the stories service's handlers, with the web framework taken away.
    A handler either answers normally or aborts with a status and a description;
    both are a status code and a text here. */
module Http {

  datatype Option<+T> = None | Some(value: T)

  /** What `abort(status, description)` or a normal return yields. */
  datatype Result<+T> = Ok(value: T) | Abort(status: int, description: string)

  /** A plain `make_response(message, status)` answer. */
  datatype Response = Response(status: int, message: string)

  predicate IsSuccess(r: Response)
  {
    r.status == 200 || r.status == 201
  }
}
