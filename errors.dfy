/** Failure values shared by the whole model. Every exception the PHP code
    throws becomes an `Error` value; `Class()` says which PHP exception class
    carries it. */
module Errors {

  datatype Option<+T> = None | Some(value: T)

  /** The PHP exception classes the location and file code throw. The
      storage library's own "file not found" exception is kept apart. */
  datatype ExceptionClass =
    | LogicException
    | InvalidArgumentException
    | RuntimeException
    | FileNotFoundException

  datatype Error =
    | MissingLocationType                 // config `type` is empty
    | UnsupportedLocationType(kind: string)
    | InvalidLocalConfig                  // both `root` and `path` are empty
    | AdapterUnavailable                  // the storage adapter cannot be built
    | InvalidExtensionFilter              // filter neither null, string nor array
    | MissingKey(key: string)             // a required record key is not set
    | NotAFile                            // record `type` is not "file"
    | InvalidSize
    | InvalidTimestamp
    | InvalidFileInfo                     // bad constructor argument or name/ext mismatch
    | FileNotAvailable(url: string)       // lazy load found no such file
    | AlreadyLoaded
    | UnreadableContent(url: string)      // reading the content threw
    | NoSuchProperty(property: string)
    | ContentNotFound(name: string)       // the adapter has no content under that name
  {
    function Class(): ExceptionClass {
      match this
      case MissingLocationType => LogicException
      case UnsupportedLocationType(_) => LogicException
      case InvalidLocalConfig => LogicException
      case AdapterUnavailable => LogicException
      case InvalidExtensionFilter => InvalidArgumentException
      case MissingKey(_) => InvalidArgumentException
      case NotAFile => RuntimeException
      case InvalidSize => InvalidArgumentException
      case InvalidTimestamp => InvalidArgumentException
      case InvalidFileInfo => InvalidArgumentException
      case FileNotAvailable(_) => RuntimeException
      case AlreadyLoaded => RuntimeException
      case UnreadableContent(_) => RuntimeException
      case NoSuchProperty(_) => InvalidArgumentException
      case ContentNotFound(_) => FileNotFoundException
    }
  }

  datatype Result<+T> = Ok(value: T) | Err(error: Error)
}
