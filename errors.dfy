/**
 * The two kinds of failure the services raise. Python's `ValueError` marks a
 * rejected input (the routes answer 400); any other `Exception` is an
 * internal or upstream failure (the routes answer 500).
 */
module Errors {

  /** Why an input was rejected; the route reports the reason as the error message. */
  datatype Reason =
    | InvalidFileType(got: string)          // the text after the last '.', or "unknown"
    | FileTooLarge(maxSizeMb: int, fileSize: nat)
    | EmptyFile
    | NoPages
    | NoExtractableText
    | LibraryValueError(message: string)    // a ValueError raised inside the PDF library
    | EmptyDocumentContent
    | EmptyQuestion
    | QuestionTooLong

  datatype Failure =
    | Invalid(reason: Reason)   // a ValueError
    | Fault(message: string)    // any other Exception, with its message
}
