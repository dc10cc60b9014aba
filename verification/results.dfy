/** Failure-carrying value types shared by the model.

- Option<T>: a value that may be absent. It stands for the source's use of
  Python's `False` as "no value" in variables and record fields.
- Result<T, E>: either a computed value or the error the source raises.
 */
module Results {

  datatype Option<+T> = None | Some(value: T)

  datatype Result<+T, +E> = Success(value: T) | Failure(error: E)
}
