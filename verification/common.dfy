/** Shared result and optional-value types for the service handlers. */
module Common {

  /** A value that may be absent: a request key that was not sent, or a nullable column. */
  datatype Option<+T> = None | Some(value: T) {

    /** The carried value, or `default` when absent (Python's `dict.get(key, default)`). */
    function GetOr(default: T): T {
      match this
      case Some(v) => v
      case None => default
    }
  }

  /** Prices and totals: float columns that the services only store and return,
      never compute with. */
  type Money = real

  /** What a handler answers, with the HTTP status it stands for:
      - Ok: 200 or 201, carrying the response data;
      - NotFound: 404, the id is not in the table;
      - Invalid: 400, carrying which parts of the request were rejected;
      - ServerError: 500, an exception the handler does not catch. */
  datatype Outcome<+T, +E> = Ok(value: T) | NotFound | Invalid(errors: E) | ServerError
}
