/** `ErrorHandler` of src/big-commit-.ts: an append-only log of handled errors. The
    log is a static field in the source; here it is the field of the one handler object. */
module Errors {
  import opened Records

  class ErrorHandler {
    var errorLog: seq<AppError>

    /** The static initialiser `errorLog = []`. */
    constructor ()
      ensures errorLog == []
    {
      errorLog := [];
    }

    /** `handleError`: the error is appended; nothing logged before is touched. */
    method HandleError(error: AppError)
      modifies this
      ensures errorLog == old(errorLog) + [error]
      ensures |errorLog| == old(|errorLog|) + 1 && errorLog[..old(|errorLog|)] == old(errorLog)
    {
      errorLog := errorLog + [error];
    }

    /** `getErrorLog`: a copy of the log, oldest error first. */
    method GetErrorLog() returns (log: seq<AppError>)
      ensures log == errorLog
    {
      log := errorLog;
    }

    /** `clearErrorLog`. */
    method ClearErrorLog()
      modifies this
      ensures errorLog == []
    {
      errorLog := [];
    }
  }
}
