/** Outcomes of the service's operations.

    The service raises an HTTP exception for every failure. The store's own
    failures (missing patient, duplicate patient, bad sort field, unknown user,
    wrong password) all carry status 404 there; request validation fails with
    FastAPI's 422; a sort over keys Python cannot compare ends in an uncaught
    TypeError. Here each failure is a distinct kind of `Error`.
 */
module Results {

  datatype Error =
    | NotFound          // the patient id is not a key of the store
    | AlreadyExists     // create with an id that is already a key
    | Invalid           // the request body breaks a declared field constraint
    | InvalidSortField  // sort_by is not one of the allowed fields
    | Unorderable       // the sort keys cannot be compared with each other
    | UserNotFound      // login with a user id that is not in the credential map
    | IncorrectPassword // login with a password that differs from the stored one

  datatype Result<T> = Success(value: T) | Failure(error: Error)

  datatype Option<T> = None | Some(value: T)
}
