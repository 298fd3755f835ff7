/** The exceptions the collector raises, as values. */
module Errors {

  datatype Error =
      /** The RuntimeError stored in `@baseline_exception` until `baseline` runs. */
    | BaselineNotCalled
      /** `IDataCollector::Unavailable`: a metric cannot be produced this call. */
    | Unavailable(message: string)
      /** Ruby's ArgumentError: a malformed value or a programming error. */
    | ArgumentError(message: string)
      /** An exception raised by file or process I/O (for example Errno::ENOENT). */
    | IoFailure(message: string)
}
