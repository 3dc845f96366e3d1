/**
 * What an API route answers. A route either sends a JSON payload with a status, or an
 * `{ error }` body with a status, or receives a body whose treatment depends on how the store
 * coerces a value of the wrong type (a numeric string where an id is expected, a number where
 * a username is expected), which this model does not describe.
 */
module Http {
  import opened Js

  datatype Response<T> = Json(status: nat, payload: T) | Error(status: nat, message: string) | UnsupportedBody

  const StatusOk: nat := 200
  const StatusCreated: nat := 201
  const StatusBadRequest: nat := 400
  const StatusServerError: nat := 500

  /** A field the store receives as a string: a JSON string. */
  predicate IsText(v: Value)
  {
    v.Str?
  }

  /** A field the store receives as an integer id: a JSON number. */
  predicate IsId(v: Value)
  {
    v.Num?
  }
}
