/** Small shared datatypes: an optional value, and the outcome of a step that
    may end the whole run (Python's `exit()`). */
module Common {

  datatype Option<+T> = None | Some(value: T)

  /** `Continue` lets the run go on; `Exit` stands for a call to `exit(status)`
      after `message` was printed. */
  datatype Outcome = Continue | Exit(status: nat, message: string)
}
