/** Results, errors and the error texts shared by the store and the services. */
module Errors {

  datatype Option<+T> = None | Some(value: T)

  /** A Go `(value, error)` pair: exactly one of the two is meaningful. */
  datatype Result<+T> = Ok(value: T) | Err(error: Error)

  /** The unique indexes of the users table: the primary key and the two `uniqueIndex` columns. */
  datatype Column = PrimaryKey | EmailColumn | UsernameColumn

  datatype Error =
    | RecordNotFound                  // gorm.ErrRecordNotFound
    | Backend(detail: string)         // any other failure reported by the store
    | UniqueViolation(column: Column) // the database refused a duplicate value
    | Message(text: string)           // errors.New / fmt.Errorf with a fixed text

  /** The text `err.Error()` gives, which `%v` splices into a wrapping message. */
  function Text(e: Error): string
  {
    match e
    case RecordNotFound => "record not found"
    case Backend(detail) => detail
    case UniqueViolation(PrimaryKey) => "duplicate key value violates unique constraint \"users_pkey\""
    case UniqueViolation(EmailColumn) => "duplicate key value violates unique constraint \"idx_users_email\""
    case UniqueViolation(UsernameColumn) => "duplicate key value violates unique constraint \"idx_users_username\""
    case Message(text) => text
  }
}
