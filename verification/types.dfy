/** Identifiers, optional values and the request outcome shared by every
    handler of the book-community back end. */
module Types {

  /** Primary keys assigned by the database's auto-increment counters. */
  type UserId = nat
  type ThreadId = nat
  type CommentId = nat

  /** A book's primary key: its ISBN-13 string. */
  type Isbn = string

  /** The stored password credential. Hashing is done by the authentication
      library and is not modelled: the store keeps whatever opaque value the
      hasher produced, and nothing in the model ever reads it back. */
  datatype Credential = Credential(digest: string)

  datatype Option<+T> = None | Some(value: T) {
    /** The carried value, or `default` when there is none. */
    function GetOr(default: T): T {
      match this
      case Some(x) => x
      case None => default
    }
  }

  /** The HTTP outcome of one request. The success forms carry the
      response body; the error forms carry none. */
  datatype Outcome<+T> =
    | Ok(value: T)
    | Created(value: T)
    | NoContent
    | BadRequest
    | Unauthorized
    | Forbidden
    | NotFound
  {
    /** The HTTP status code the handler responds with. */
    function Code(): (c: nat)
      ensures 200 <= c < 300 <==> (Ok? || Created? || NoContent?)
      ensures 400 <= c <==> IsError()
    {
      match this
      case Ok(_) => 200
      case Created(_) => 201
      case NoContent => 204
      case BadRequest => 400
      case Unauthorized => 401
      case Forbidden => 403
      case NotFound => 404
    }

    predicate IsError() {
      BadRequest? || Unauthorized? || Forbidden? || NotFound?
    }

    /** Re-wraps the body of a success, keeping the status. */
    function MapBody<U>(f: T -> U): (r: Outcome<U>)
      ensures r.Code() == Code()
      ensures r.IsError() <==> IsError()
    {
      match this
      case Ok(v) => Ok(f(v))
      case Created(v) => Created(f(v))
      case NoContent => NoContent
      case BadRequest => BadRequest
      case Unauthorized => Unauthorized
      case Forbidden => Forbidden
      case NotFound => NotFound
    }
  }

  /** A free-text field counts as blank when it is empty. */
  predicate Blank(text: string) {
    |text| == 0
  }
}
