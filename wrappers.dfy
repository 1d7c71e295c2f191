/** Optional values and request parameters, as the controllers see them. */
module Wrappers {

  datatype Option<T> = None | Some(value: T) {
    /** The value, or `default` when absent. */
    function GetOr(default: T): T {
      if Some? then value else default
    }
  }

  /** A field of an HTTP request: absent, present with a null value, or present with a value. */
  datatype Param<T> = Missing | Null | Given(value: T) {

    /** `$request->input(key, default)`: the default replaces only a MISSING key; an explicit null stays null. */
    function Input(default: T): Option<T> {
      match this
      case Missing => Some(default)
      case Null => None
      case Given(v) => Some(v)
    }

    /** `$request->key ?? fallback` (also `$validated[key] ?? fallback`): null and missing alike fall back. */
    function OrElse(fallback: T): T {
      if Given? then value else fallback
    }

    /** `$request->key ?? $row->key` for a nullable column. */
    function OrElseOpt(fallback: Option<T>): Option<T> {
      if Given? then Some(value) else fallback
    }

    /** PHP `isset`: present and not null. */
    predicate IsSet() {
      Given?
    }

    /** The value as an `Option`, null and missing both being `None`. */
    function ToOption(): Option<T> {
      if Given? then Some(value) else None
    }
  }
}

/** The outcomes an action can answer with. */
module Http {

  datatype Failure =
    | Unauthenticated   // the action dereferences an authenticated user and there is none
    | Forbidden         // 403 "Unauthorized"
    | NotFound          // 404
    | Unprocessable     // 422, a validation rule failed (outside any try/catch)
    | NotPending        // 400 "... is not in pending state"
    | NotAnAdmin        // 400 "Selected user is not an admin"
    | OtpExpired        // 400 "OTP has expired"
    | OtpInvalid        // 400 "Invalid OTP"
    | NoImageData       // 400 "No image data provided"
    | MailFailed        // 500 "Failed to send OTP email"
    | ServerError       // 500, an exception caught by the action's own try/catch

  datatype Response<T> = Ok(value: T) | Fail(failure: Failure)
}
