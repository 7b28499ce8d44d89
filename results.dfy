/** Optional values, the failures generate_work can abort with, and a failure-compatible Result. */
module Results {

  datatype Option<T> = None | Some(value: T)

  /** The exceptions the model covers; each one aborts the whole run. */
  datatype Error =
    /** open() on a text file that does not exist (FileNotFoundError). */
    | FileNotFound(path: string)
    /** questions_per_topic has no pair for this topic position (IndexError). */
    | CountsMissing(topicIndex: nat)
    /** random.sample was asked for a negative number of items (ValueError). */
    | NegativeSampleSize(count: int)
    /** The definitions-answers file is shorter than the looked-up line position (IndexError). */
    | AnswerLineMissing(path: string, index: nat)

  datatype Result<T> = Ok(value: T) | Err(error: Error) {

    predicate IsFailure() {
      Err?
    }

    function PropagateFailure<U>(): Result<U>
      requires Err?
    {
      Err(error)
    }

    function Extract(): T
      requires Ok?
    {
      value
    }
  }
}
