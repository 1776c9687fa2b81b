/** Failure-compatible wrappers shared by the whole model, and the ways the
    leaderboard computation can stop without producing a table. */
module Results {

  datatype Option<+T> = None | Some(value: T)

  /** Why a category could not be ranked. */
  datatype Error =
      /** A column the pipeline reads does not exist (pandas raises KeyError). */
    | MissingColumn(column: string)
      /** A result that is missing, or in a scored WOD not an integer literal
          (pandas would read it as NaN). */
    | Unparseable(athlete: string, column: string, text: string)
      /** Two rows of one category name the same athlete (pandas' merge would multiply rows). */
    | DuplicateAthlete(athlete: string)

  datatype Result<+T> = Ok(value: T) | Err(error: Error) {

    predicate IsFailure() {
      Err?
    }

    function PropagateFailure<U>(): Result<U>
      requires Err?
    {
      Err(error)
    }

    function Extract(): T
      requires Ok?
    {
      value
    }
  }
}
