/** The two result shapes used by every other module. */
module Wrappers {

  datatype Option<+T> = None | Some(value: T)

  /** Error codes of the server's use cases. */
  datatype Error = Validation | NotFound | AlreadyExists | Database | Denied

  datatype Outcome = Ok | Failed(error: Error)
}
