/** The typed HTTP responses of the service: a success carrying a JSON
    payload, an internal error carrying a message, and a validation error
    carrying the name of the type that failed to decode and every decode
    error. */
module Responses {
  import opened IoTs

  datatype Response<T> =
    | ResponseSuccessJson(payload: T)
    | ResponseErrorInternal(detail: string)
    | ResponseErrorValidation(typeName: string, errors: Errors)
  {
    /** The `kind` tag each response carries. */
    function Kind(): string
    {
      match this
      case ResponseSuccessJson(_) => "IResponseSuccessJson"
      case ResponseErrorInternal(_) => "IResponseErrorInternal"
      case ResponseErrorValidation(_, _) => "IResponseErrorValidation"
    }
  }

  /** The `kind` tag tells the validation error apart from every other
      response. */
  lemma ValidationKind<T>(r: Response<T>)
    ensures r.Kind() == "IResponseErrorValidation" <==> r.ResponseErrorValidation?
  {
  }

  /** A response that carries no payload: the failure side of a middleware. */
  type ErrorResponse = Response<()>

  /** `ResponseErrorFromValidationErrors(type)`: the validation errors of a
      failed decode, reported under the decoded type's name. */
  function ErrorFromValidationErrors(typeName: string, errors: Errors): (r: ErrorResponse)
    ensures r.Kind() == "IResponseErrorValidation"
    ensures r.typeName == typeName && r.errors == errors
  {
    ResponseErrorValidation(typeName, errors)
  }
}
