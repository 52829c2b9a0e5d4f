/** What several parts of the server share. */
module Base {
  datatype Option<+T> = None | Some(value: T)

  type UserId = nat
  type RequestId = nat
  /** The clock of the database, in microseconds. */
  type Time = int

  const SECOND := 1_000_000

  /** The codes a function answers with. */
  datatype Code = InternalError | Success | DoesNotExist
}
