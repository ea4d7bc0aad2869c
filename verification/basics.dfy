/** Small wrappers shared by the whole model: C# nullable references, and the
    outcome of a call into a collaborator that may throw. */
module Basics {

  /** A C# reference that may be null: `None` stands for null. */
  datatype Option<+T> = None | Some(value: T) {

    /** The value, or `default` when null. */
    function GetOr(default: T): T
    {
      match this
      case Some(v) => v
      case None => default
    }
  }

  /** What a call into a collaborator that returns a value did: it returned
      that value, or it threw an exception, reduced here to its Message. */
  datatype Attempt<+T> = Returned(value: T) | Threw(message: string)

  /** What a call into a collaborator that returns no value did. */
  datatype Completion = Completes | Throws(message: string)
}
