/** Option, Result and Outcome values, and the error kinds the add-on manager reports. */
module Wrappers {

  datatype Option<+T> = None | Some(value: T) {
    function GetOr(default: T): T {
      match this
      case Some(v) => v
      case None => default
    }
  }

  datatype Result<+R, +E> = Success(value: R) | Failure(error: E)

  /** The `Result<(), Box<dyn Error>>` of a step that returns nothing on success. */
  datatype Outcome<+E> = Pass | Fail(error: E)

  /** Why a step failed. */
  datatype Error =
    | NotFound(path: string)     // the file or directory does not exist
    | Malformed(path: string)    // the manifest file is not a valid manifest
    | Denied(path: string)       // the file system refused to write or remove the path
    | Network(url: string)       // the archive could not be fetched
}
