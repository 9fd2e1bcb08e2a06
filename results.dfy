/**
 * Optional values, results and the error conditions the record codec raises.
 * Each error constructor names the Python exception the source raises for it.
 */
module Results {

  datatype Option<+T> = None | Some(value: T)

  /** The failures of the record codec, one per raising site in the source. */
  datatype Error =
    | NameNotFound           // KeyError: a column name the column list does not hold
    | NameOutOfWindow        // KeyError: a record's name key resolves outside its window
    | IndexOutOfRange        // IndexError: a row or column index beyond the storage
    | PositionOutOfWindow    // IndexError: a record position at or past the window's end
    | ArityMismatch          // ValueError: a row tuple whose length is not the column count
    | UnsupportedAssignment  // TypeError: a row value that is no record, tuple or list
    | BadFormat              // IndexError/KeyError: a format text the lookup tables lack
    | NumberSyntax           // ValueError: ASCII text that does not parse as a number
    | NotASequence           // TypeError: len() of a variable-length cell that is a scalar
    | ShapeMismatch          // ValueError: a column whose length does not fit its storage
    | UnboundName            // NameError: the column loop variable read with no columns
    | OverlapFailure         // the two overlap checks: building their message raises first
    | FieldTooNarrow         // ValueError: formatted ASCII text wider than its column
    | NegativeLength         // ValueError: len() of an object whose __len__ is negative

  datatype Result<+T> = Ok(value: T) | Err(error: Error)
  {
    predicate IsFailure() { Err? }

    function PropagateFailure<U>(): Result<U>
      requires Err?
    {
      Err(error)
    }

    function Extract(): T
      requires Ok?
    {
      value
    }
  }
}
