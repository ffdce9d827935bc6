/** Values shared by every module: identifiers, optional values and the
    outcome of a request handler. */
module Base {

  /** Every document identifier (an ObjectId) is a natural number here. */
  type UserId = nat
  type ProjectId = nat
  type TaskId = nat
  type ReportId = nat
  type NotificationId = nat
  /** Dates are opaque clock values; only their order is used. */
  type Timestamp = nat

  datatype Option<+T> = None | Some(value: T) {
    function GetOr(default: T): T {
      match this
      case Some(v) => v
      case None => default
    }
  }

  /** The error answers of the handlers. */
  datatype Status = BadRequest | Unauthorized | Forbidden | NotFound | ServerError {
    function Code(): nat {
      match this
      case BadRequest => 400
      case Unauthorized => 401
      case Forbidden => 403
      case NotFound => 404
      case ServerError => 500
    }
  }

  /** A handler either answers with a value (2xx) or with an error status. */
  datatype Result<+T> = Ok(value: T) | Err(status: Status)

  /** A request field that JavaScript treats as truthy: present and not the empty string. */
  predicate Truthy(s: Option<string>) {
    s.Some? && s.value != ""
  }

  /** `s || fallback` on a string field. */
  function OrElse(s: Option<string>, fallback: string): (r: string)
    ensures Truthy(s) ==> r == s.value
    ensures !Truthy(s) ==> r == fallback
  {
    if Truthy(s) then s.value else fallback
  }

  function Min(a: nat, b: nat): nat {
    if a < b then a else b
  }

  /** The first `n` elements of `xs`, or all of them when there are fewer. */
  function Prefix<T>(xs: seq<T>, n: nat): (r: seq<T>)
    ensures |r| == Min(n, |xs|) && r == xs[..|r|]
  {
    xs[..Min(n, |xs|)]
  }
}
