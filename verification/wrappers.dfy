/** Option and error values shared by the other modules. */
module Wrappers {

  /** A Go pointer or optional value: `None` stands for `nil`. */
  datatype Option<+T> = None | Some(value: T)

  /** A Go `(value, error)` pair where exactly one side is meaningful. */
  datatype Result<+R> = Success(value: R) | Failure(error: Error)

  /** The errors that travel through the pipeline. Those raised by foreign code
      (storage, the YARA scanner, the amdfw parser) are opaque messages;
      `RomParseErrors` is the error `AnalyseAMDFW` builds from the list that
      `ParseRoms` reports. */
  datatype Error =
    | Cause(message: string)
    | RomParseErrors(causes: seq<Error>)
}
