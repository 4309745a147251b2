/**
 * The Result/Error carrier of ContactManagement.Shared.Common.
 *
 * `Result<T>` is a tagged outcome: a value with status OK, or an error with
 * the HTTP-like status chosen by the factory that built it.  In the source the
 * success flag is derived from `error == null`; here a failure always carries
 * its error, so "success" and "no error" coincide by construction.
 */
module Common {
  import opened Wrappers

  /** An error code and a human-readable message. */
  datatype Error = Error(code: string, message: string)

  /** The subset of System.Net.HttpStatusCode that the factories use. */
  datatype HttpStatusCode =
    | OK
    | BadRequest
    | Unauthorized
    | Forbidden
    | NotFound
    | Conflict
    | UnprocessableEntity
    | InternalServerError
  {
    /** The numeric value of the status. */
    function Code(): int {
      match this
      case OK => 200
      case BadRequest => 400
      case Unauthorized => 401
      case Forbidden => 403
      case NotFound => 404
      case Conflict => 409
      case UnprocessableEntity => 422
      case InternalServerError => 500
    }
  }

  datatype Result<T> = Ok(value: T) | Err(error: Error, status: HttpStatusCode) {

    /** The `Error` property: absent exactly on a success. */
    function ErrorOf(): Option<Error> {
      if Ok? then None else Some(error)
    }

    /** The `StatusCode` property. */
    function StatusCode(): HttpStatusCode {
      if Ok? then HttpStatusCode.OK else status
    }

    /** `IsSuccess` is `Error == null`. */
    predicate IsSuccess()
      ensures IsSuccess() <==> ErrorOf() == None
    {
      Ok?
    }

    /** `IsFailure` is the negation of `IsSuccess`. */
    predicate IsFailure()
      ensures IsFailure() <==> ErrorOf() != None
      ensures IsFailure() <==> !IsSuccess()
    {
      Err?
    }

    static function Success(v: T): (r: Result<T>)
      ensures r.IsSuccess() && r.value == v
      ensures r.ErrorOf() == None && r.StatusCode().Code() == 200
    {
      Ok(v)
    }

    static function BadRequest(e: Error): (r: Result<T>)
      ensures r.IsFailure() && r.ErrorOf() == Some(e) && r.StatusCode().Code() == 400
    {
      Err(e, HttpStatusCode.BadRequest)
    }

    static function NotFound(e: Error): (r: Result<T>)
      ensures r.IsFailure() && r.ErrorOf() == Some(e) && r.StatusCode().Code() == 404
    {
      Err(e, HttpStatusCode.NotFound)
    }

    static function Conflict(e: Error): (r: Result<T>)
      ensures r.IsFailure() && r.ErrorOf() == Some(e) && r.StatusCode().Code() == 409
    {
      Err(e, HttpStatusCode.Conflict)
    }

    static function Unauthorized(e: Error): (r: Result<T>)
      ensures r.IsFailure() && r.ErrorOf() == Some(e) && r.StatusCode().Code() == 401
    {
      Err(e, HttpStatusCode.Unauthorized)
    }

    static function Forbidden(e: Error): (r: Result<T>)
      ensures r.IsFailure() && r.ErrorOf() == Some(e) && r.StatusCode().Code() == 403
    {
      Err(e, HttpStatusCode.Forbidden)
    }

    static function ValidationError(e: Error): (r: Result<T>)
      ensures r.IsFailure() && r.ErrorOf() == Some(e) && r.StatusCode().Code() == 422
    {
      Err(e, HttpStatusCode.UnprocessableEntity)
    }

    static function InternalServerError(e: Error): (r: Result<T>)
      ensures r.IsFailure() && r.ErrorOf() == Some(e) && r.StatusCode().Code() == 500
    {
      Err(e, HttpStatusCode.InternalServerError)
    }

    /**
     * Re-types a failure: the error and the status are kept, the value type
     * changes.  Every call site in the source applies it to a failure only.
     */
    static function FromResult<S>(src: Result<S>): (r: Result<T>)
      requires src.IsFailure()
      ensures r.IsFailure()
      ensures r.ErrorOf() == src.ErrorOf() && r.StatusCode() == src.StatusCode()
    {
      Err(src.error, src.status)
    }
  }

  /** No factory other than Success yields status OK. */
  lemma FailureStatusIsNeverOK<T>(e: Error)
    ensures Result<T>.BadRequest(e).StatusCode() != HttpStatusCode.OK
    ensures Result<T>.NotFound(e).StatusCode() != HttpStatusCode.OK
    ensures Result<T>.Conflict(e).StatusCode() != HttpStatusCode.OK
    ensures Result<T>.Unauthorized(e).StatusCode() != HttpStatusCode.OK
    ensures Result<T>.Forbidden(e).StatusCode() != HttpStatusCode.OK
    ensures Result<T>.ValidationError(e).StatusCode() != HttpStatusCode.OK
    ensures Result<T>.InternalServerError(e).StatusCode() != HttpStatusCode.OK
  {
  }

  /** Re-wrapping twice gives the same error and status as wrapping once. */
  lemma FromResultTwice<S, U, T>(src: Result<S>)
    requires src.IsFailure()
    ensures var once := Result<T>.FromResult(src);
            var twice := Result<T>.FromResult(Result<U>.FromResult(src));
            twice == once && twice.ErrorOf() == src.ErrorOf() && twice.StatusCode() == src.StatusCode()
  {
  }
}
