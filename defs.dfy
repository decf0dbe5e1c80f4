/**
  Shared definitions of the file tree: the status codes every operation
  returns and the optional-value wrapper that stands for a nullable pointer.
 */
module Defs {

  /** The status codes of the file tree (a4def.h). `IsFile` and `IsDirectory`
      are the informational "found" results of the internal lookup. */
  datatype Status =
    | Success
    | InitializationError
    | BadPath
    | ConflictingPath
    | NoSuchPath
    | NotADirectory
    | NotAFile
    | AlreadyInTree
    | MemoryError
    | IsFile
    | IsDirectory

  /** A nullable reference: `None` is C's NULL. */
  datatype Option<+T> = None | Some(value: T)

  /** A value or the status that explains why there is none. */
  datatype Result<+T> = Ok(value: T) | Err(status: Status)
}
