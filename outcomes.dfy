/** Failure-carrying values shared by every module of the subsetter model. */
module Outcomes {

  datatype Option<+T> = None | Some(value: T)

  /** The (value, error) pair a Go function returns, with exactly one side present. */
  datatype Result<+T> = Ok(value: T) | Err(error: Error)

  /** The errors the subsetter produces or passes on. */
  datatype Error =
    | PgError(code: string)                  // a server error carrying its SQLSTATE code (*pgconn.PgError)
    | Failure(message: string)               // a plain error (errors.New)
    | Wrapped(message: string, cause: Error) // errors.Wrapf: context added while unwinding
    | Panic(message: string)                 // a Go panic: the process stops

  /** SQLSTATE of a foreign-key violation. */
  const ForeignKeyViolation := "23503"

  /** SQLSTATE of a unique-constraint violation. */
  const UniqueViolation := "23505"

  /** `err.(*pgconn.PgError)` succeeds and carries `code`; a wrapped error never does. */
  predicate HasPgCode(e: Error, code: string) {
    e.PgError? && e.code == code
  }
}
