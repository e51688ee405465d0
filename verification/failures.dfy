/** Outcomes of the extraction script: a value, or the way the script stops.
    The script has no error handling of its own; every failure is either an
    `assert` that does not hold or a list subscript that raises IndexError. */
module Failures {

  datatype Option<T> = None | Some(value: T)

  /** Why a run of the script stops. */
  datatype Error =
    | LocationRejected(location: string)  // a role name other than the three known ones
    | IndexOutOfRange                     // a list subscript past the end (IndexError)
    | VowelCount(count: nat)              // a syllable with no vowel token or more than three
    | FieldCount(count: nat)              // a line that does not split into three comma fields
    | StressMarkCount(count: nat)         // a word without exactly one stress-marked syllable

  datatype Result<T> = Ok(value: T) | Err(error: Error) {
    predicate IsFailure() { Err? }

    function PropagateFailure<U>(): Result<U>
      requires Err?
    {
      Err(error)
    }

    function Extract(): T
      requires Ok?
    {
      value
    }
  }
}
