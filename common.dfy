/** Small value types shared by every control: Ruby's nil, raised errors, database handles. */
module Common {

  /** `None` stands for Ruby's `nil`. */
  datatype Option<+T> = None | Some(value: T)

  /** The result of an operation that may raise: `Failure` carries the raised error. */
  datatype Result<+T, +E> = Success(value: T) | Failure(error: E)

  /**
   * A database connection, as returned by `Sequel.sqlite`. Only its identity matters:
   * the controls pass it to the job's methods and never look inside.
   */
  datatype Db = Db(id: nat)
}
