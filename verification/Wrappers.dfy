/** Option, and the result of a handler: a value, or the documented reason why the program panicked. */
module Wrappers {

  datatype Option<+T> = None | Some(value: T) {
    predicate IsFailure() { None? }

    function PropagateFailure<U>(): Option<U>
      requires None?
    {
      None
    }

    function Extract(): T
      requires Some?
    {
      value
    }
  }

  /** One constructor per error string of the program, and two panics that have no string of their own. */
  datatype Error =
    | AlreadyInitialized      // PMS_E001
    | BadThreshold            // PMS_E002
    | DuplicateMember         // PMS_E003
    | StateMismatch           // PMS_E004
    | ProposalExists          // PMS_E005
    | BadProposalIndex        // PMS_E006
    | BadAuthorizedIndex      // PMS_E007
    | ProposalMismatch        // PMS_E008
    | ProposalNotActive       // PMS_E009
    | MemberNotAuthorized     // PMS_E010
    | NotAMember              // PMS_E011
    | DuplicateVote           // PMS_E012
    | DuplicateReject         // PMS_E013
    | ThresholdNotMet         // PMS_E014
    | BadTargetCount          // PMS_E015
    | BadAccountCount         // PMS_E016
    | ArithmeticOverflow      // a checked build panics where an unchecked one wraps around
    | DataTooLong             // the encoded record does not fit in account data

  datatype Result<+T> = Ok(value: T) | Err(error: Error) {
    predicate IsFailure() { Err? }

    function PropagateFailure<U>(): Result<U>
      requires Err?
    {
      Err(error)
    }

    function Extract(): T
      requires Ok?
    {
      value
    }
  }

  datatype Outcome = Pass | Fail(error: Error) {
    predicate IsFailure() { Fail? }

    function PropagateFailure<U>(): Result<U>
      requires Fail?
    {
      Err(error)
    }
  }

  /** The program's assert!(condition, error). */
  function Need(condition: bool, error: Error): Outcome {
    if condition then Pass else Fail(error)
  }
}
