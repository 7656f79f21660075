/** The parts of the event model that grouping reads and writes. Unset protobuf strings are empty. */
module ModelPb {
  import opened Wrappers
  import opened Bytes

  /** One stack frame; the four names may each be empty. */
  datatype StacktraceFrame = StacktraceFrame(
    moduleName: ByteString,
    filename: ByteString,
    classname: ByteString,
    functionName: ByteString,
    excludeFromGrouping: bool)

  /** An exception and the exceptions that caused it, in the order reported. */
  datatype Exception = Exception(
    typeName: ByteString,
    message: ByteString,
    stacktrace: seq<StacktraceFrame>,
    cause: seq<Exception>)

  /** A logged error: its formatted message, its parameterised message and an optional stack trace. */
  datatype ErrorLog = ErrorLog(
    message: ByteString,
    paramMessage: ByteString,
    stacktrace: seq<StacktraceFrame>)

  /** An error record. Grouping only reads the exception and the log, so they are fixed;
      the grouping key is the one field written in place. */
  class Error {
    const exception: Option<Exception>
    const log: Option<ErrorLog>
    var groupingKey: ByteString

    constructor (exception: Option<Exception>, log: Option<ErrorLog>)
      ensures this.exception == exception && this.log == log && groupingKey == []
    {
      this.exception := exception;
      this.log := log;
      groupingKey := [];
    }
  }

  /** One event of a batch; only events that carry an error are given a grouping key. */
  class APMEvent {
    const error: Error?

    constructor (error: Error?)
      ensures this.error == error
    {
      this.error := error;
    }
  }
}
