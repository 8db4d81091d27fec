/** What a handler answers: an HTTP status, the store after the request, and
    the payload it serialises on success. */
module Http {
  import opened Wrappers
  import opened Models

  datatype Status = Ok | Created | BadRequest | Forbidden | NotFound | Conflict | ServerError {

    /** The status code on the wire. `ServerError` is Flask's answer to an
        exception no error handler of the blueprint catches. */
    function Code(): int {
      match this
      case Ok => 200
      case Created => 201
      case BadRequest => 400
      case Forbidden => 403
      case NotFound => 404
      case Conflict => 409
      case ServerError => 500
    }

    predicate IsError() {
      Code() >= 400
    }
  }

  datatype Reply<T> = Reply(status: Status, store: Store, value: Option<T>)

  /** A refused request: nothing is committed and no payload is sent. */
  function Refuse<T>(st: Status, s: Store): (r: Reply<T>)
    requires st.IsError()
    ensures r.status.IsError() && r.store == s && r.value.None?
  {
    Reply(st, s, None)
  }

  /** An error leaves the store as it was and carries no payload. */
  ghost predicate ErrorsChangeNothing<T>(r: Reply<T>, s: Store) {
    r.status.IsError() ==> r.store == s && r.value.None?
  }
}
