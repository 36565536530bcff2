/** Failure values of the pool-entries core and the result wrapper that carries them. */
module Results {

  datatype Option<+T> = None | Some(value: T)

  /**
   * The exceptions the core raises, one constructor per kind of failure (MissingColumn stands for
   * every KeyError on an absent column), plus SchemaMismatch, the model's own refusal of a snapshot.
   */
  datatype Error =
    | DigestCalledAgain          // digest() on an instance whose flag is already set
    | EmptySnapshot              // a snapshot without a row 0 (df.loc[0] fails)
    | NoSnapshots                // concatenating an empty list of snapshots
    | NoTimestampColumn          // no datetime-typed column to sort by
    | MissingColumn(name: string) // a column the operation indexes is absent or not integer-typed
    | NotDigested                // the aggregated table is still None
    | BufferConsumed             // appending a snapshot after digest() discarded the buffer
    | SchemaMismatch             // a snapshot whose columns differ from the first snapshot's
    | InvalidTimestampTag        // timestamp selector outside the valid time columns
    | InvalidColumnName          // metric selector outside the valid columns
    | DuplicatePivotEntry        // two rows share (DateTimeUTC, Tag) in the pivot

  datatype Result<+T> = Ok(value: T) | Err(error: Error)
}
