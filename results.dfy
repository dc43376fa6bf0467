/** Error returns of the engine and the terminal app (`anyhow::Result`, `AppResult`). */
module Results {

  /** A value or an error carrying the message the source attaches to it. */
  datatype Result<+T> = Ok(value: T) | Err(msg: string) {

    predicate IsFailure() {
      Err?
    }

    function PropagateFailure<U>(): Result<U>
      requires Err?
    {
      Err(msg)
    }

    function Extract(): T
      requires Ok?
    {
      value
    }
  }

  /** The message of `World::new` when the cell count does not match the grid. */
  const INVALID_CELL_SIZE: string := "invalid cell size."
}
