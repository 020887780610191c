/** Optional values, results, and the faults the server can raise. */
module Wrappers {

  /** A Java reference that may be null. */
  datatype Option<+T> = None | Some(value: T) {
    function GetOr(default: T): T {
      match this
      case Some(v) => v
      case None => default
    }
  }

  /**
   * The ways a request can fail instead of producing a reply.  Each one is
   * an unchecked exception (or a spin) that the server does not catch.
   */
  datatype Fault =
    | NumberFormat        // Integer.parseInt / Long.parseLong rejected a token
    | IndexOutOfBounds    // List.get or an array access past the end
    | NegativeLength      // InputStream.readNBytes called with a negative length
    | FileNotFound        // FileInputStream opened on a missing snapshot
    | NonTermination      // a loop that makes no progress and never exits

  datatype Result<+T> = Ok(value: T) | Err(error: Fault)
}
