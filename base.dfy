/** Failure-compatible wrappers and the run's error taxonomy. */
module Base {

  datatype Option<+T> = None | Some(value: T)

  datatype Result<+R> = Success(value: R) | Failure(error: Error)

  /** The ways a run of the league-table job aborts without producing a workbook. */
  datatype Error =
    | MissingLabelColumn              // the input table has no 'MutualFund Name' column
    | ReferenceUnreadable             // the prior-period workbook could not be opened or parsed
    | RankNotNumeric(fund: string)    // a prior rank that is not a number meets `old_rank - current_rank`
}
