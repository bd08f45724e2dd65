/** Optional values (a C# `null` or `Nullable<T>`) and endpoint responses. */
module Wrappers {

  datatype Option<+T> = None | Some(value: T)

  /** What an endpoint answers: the model-state error list, a 400 naming the offending
      field with its message, a 404 naming what was not found, or a 200 carrying the result. */
  datatype Response<+T> =
    | ValidationError
    | BadRequest(key: string, message: string)
    | NotFound(key: string)
    | Ok(value: T)
}
