/**
 * The error kinds the service throws and the HTTP status each one ends in.
 * `AuthenticationError` and `ValidationError` are the two application error
 * classes; everything else a handler can throw (an ORM error, a `TypeError`
 * from dereferencing `null`, a store that is down) is an unclassified fault.
 */
module Errors {

  /** Why an unclassified failure happened; all of them are answered with 500. */
  datatype Fault =
    | UniqueViolation   // an insert hit the unique index on username or no_employee
    | SchemaViolation   // a value outside a column's ENUM
    | StoreFailure      // the store failed for a reason outside the model
    | NullDereference   // a property read on `null` / `undefined`
    | InvalidQuery      // a query the store refuses: a negative LIMIT or OFFSET, or `undefined` in a WHERE
    | HashFailure       // bcrypt refused to hash a missing password
    | CreateFailed      // the fallback `new Error("Failed to create user")`

  datatype AppError =
    | AuthenticationError(message: string)
    | ValidationError(message: string)
    | Unexpected(fault: Fault)

  /**
   * The status code a failure ends in: the controllers' catch blocks answer a
   * ValidationError with 400 and anything else with 500; an
   * AuthenticationError thrown by the middleware carries status 401.
   */
  function Status(e: AppError): (code: nat)
    ensures code == 401 <==> e.AuthenticationError?
    ensures code == 400 <==> e.ValidationError?
    ensures code == 500 <==> e.Unexpected?
  {
    match e
    case AuthenticationError(_) => 401
    case ValidationError(_) => 400
    case Unexpected(_) => 500
  }

  /** Only the two application error classes are client errors (4xx). */
  lemma ClientErrorsAreClassified(e: AppError)
    ensures 400 <= Status(e) < 500 <==> !e.Unexpected?
  {
  }
}
