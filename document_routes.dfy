/**
 * The two request handlers, `POST /documents` and `POST /ask`, as step
 * sequences with early exits over the shared store. Each failure kind is
 * mapped to an HTTP status and an error code.
 */
module DocumentRoutes {
  import opened Wrappers
  import opened Errors
  import opened Storage
  import PdfService
  import AiService

  /** `MAX_FILE_SIZE_MB` of the settings. */
  const MaxFileSizeMb := 10
  /** The name used when the client sends no file name. */
  const DefaultFilename := "unknown.pdf"
  const ProcessingPrefix := "Failed to process document: "
  const NoDocumentMessage :=
    "No document has been uploaded. Please upload a PDF document first using POST /documents"
  const ConfigurationMessage :=
    "OpenAI API key is not configured. Please set OPENAI_API_KEY environment variable."

  datatype ErrorCode = ValidationError | ProcessingError | NoDocument | ConfigurationError | AiServiceError

  /** The code as it appears in the `error` field of the response body. */
  function WireName(code: ErrorCode): string
  {
    match code
    case ValidationError => "VALIDATION_ERROR"
    case ProcessingError => "PROCESSING_ERROR"
    case NoDocument => "NO_DOCUMENT"
    case ConfigurationError => "CONFIGURATION_ERROR"
    case AiServiceError => "AI_SERVICE_ERROR"
  }

  /** The `message` field: the reason of a validation error, or a text. */
  datatype Detail = Because(reason: Reason) | Says(text: string)

  /** An error response: status and body (`success` is always false). */
  datatype HttpError = HttpError(status: nat, code: ErrorCode, detail: Detail)

  /** The body of a successful upload (`success` is always true). */
  datatype UploadBody = UploadBody(documentId: string, filename: string, pageCount: int, characterCount: int)

  /** The body of a successful question (`success` is always true). */
  datatype AskBody = AskBody(question: string, answer: string, documentId: string)

  /** `file.filename or "unknown.pdf"`: a missing or empty name is replaced. */
  function UploadName(filename: Option<string>): (name: string)
    ensures name != []
    ensures filename.Some? && filename.value != [] ==> name == filename.value
    ensures filename == None || filename == Some([]) ==> name == DefaultFilename
  {
    if filename.Some? && filename.value != [] then filename.value else DefaultFilename
  }

  /** The upload handler's `except` clauses: a `ValueError` is a 400, anything else a 500. */
  function UploadError(failure: Failure): (e: HttpError)
    ensures e.status == 400 <==> failure.Invalid?
    ensures failure.Invalid? ==> e == HttpError(400, ValidationError, Because(failure.reason))
    ensures WireName(e.code) == if failure.Invalid? then "VALIDATION_ERROR" else "PROCESSING_ERROR"
    ensures failure.Fault? ==> e.status == 500 && e.code == ProcessingError &&
                               e.detail.Says? && e.detail.text == ProcessingPrefix + failure.message
  {
    match failure
    case Invalid(reason) => HttpError(400, ValidationError, Because(reason))
    case Fault(message) => HttpError(500, ProcessingError, Says(ProcessingPrefix + message))
  }

  /** The ask handler's `except` clauses for failures of the answer generator. */
  function AskError(failure: Failure): (e: HttpError)
    ensures e.status == 400 <==> failure.Invalid?
    ensures failure.Invalid? ==> e == HttpError(400, ValidationError, Because(failure.reason))
    ensures WireName(e.code) == if failure.Invalid? then "VALIDATION_ERROR" else "AI_SERVICE_ERROR"
    ensures failure.Fault? ==> e == HttpError(500, AiServiceError, Says(failure.message))
  {
    match failure
    case Invalid(reason) => HttpError(400, ValidationError, Because(reason))
    case Fault(message) => HttpError(500, AiServiceError, Says(message))
  }

  /**
   * `upload_document`: validate, extract, store, answer. `reading` is what
   * the PDF library makes of `content`; `freshId` and `now` stand for the
   * generated id and the upload clock. The store is written only when every
   * earlier step succeeded.
   */
  method UploadDocument(store: StorageService, filename: Option<string>, content: seq<bv8>,
                        reading: PdfService.PdfReading, freshId: string, now: Timestamp)
    returns (r: Result<UploadBody, HttpError>)
    requires store.Valid()
    requires freshId != [] && freshId !in store.documents
    modifies store
    ensures store.Valid()
    ensures r.Failure? ==>
              && store.documents == old(store.documents)
              && store.order == old(store.order)
              && store.currentId == old(store.currentId)
    ensures r.Failure? ==>
              || (r.error.status == 400 && r.error.code == ValidationError)
              || (r.error.status == 500 && r.error.code == ProcessingError)
    ensures var name := UploadName(filename);
            var check := PdfService.ValidateFile(name, |content|, MaxFileSizeMb);
            var extracted := PdfService.ExtractOutcome(reading);
            && (check.Fail? ==> r == Failure(HttpError(400, ValidationError, Because(check.error))))
            && (check.Pass? && extracted.Failure? ==> r == Failure(UploadError(extracted.error)))
            && (check.Pass? && extracted.Success? ==>
                  var (text, pageCount) := extracted.value;
                  var document := Document(freshId, name, text, pageCount, |text|, now);
                  && r == Success(UploadBody(freshId, name, pageCount, |text|))
                  && store.documents == old(store.documents)[freshId := document]
                  && store.order == old(store.order) + [freshId]
                  && store.currentId == Some(freshId))
  {
    var name := UploadName(filename);
    var check := PdfService.ValidateFile(name, |content|, MaxFileSizeMb);
    if check.Fail? {
      return Failure(UploadError(Invalid(check.error)));
    }
    var extracted := PdfService.ExtractText(reading);
    if extracted.Failure? {
      return Failure(UploadError(extracted.error));
    }
    var (text, pageCount) := extracted.value;
    var document := store.StoreDocument(freshId, name, text, pageCount, now);
    return Success(UploadBody(document.id, document.filename, document.pageCount, document.characterCount));
  }

  /**
   * `ask_question`: credential check, then the current document, then the
   * answer generator. The store is only read. The question satisfies the
   * request schema (1 to 1000 characters) before the handler runs.
   */
  method AskQuestion(store: StorageService, apiKey: string, modelName: string, question: string,
                     backend: AiService.ChatRequest -> AiService.Completion)
    returns (r: Result<AskBody, HttpError>)
    requires store.Valid()
    requires 1 <= |question| <= AiService.MaxQuestionLength
    ensures !AiService.ValidateApiKey(apiKey) ==>
              r == Failure(HttpError(500, ConfigurationError, Says(ConfigurationMessage)))
    ensures AiService.ValidateApiKey(apiKey) && store.currentId == None ==>
              r == Failure(HttpError(400, NoDocument, Says(NoDocumentMessage)))
    ensures AiService.ValidateApiKey(apiKey) && store.currentId.Some? ==>
              var document := store.documents[store.currentId.value];
              var answer := AiService.AnswerQuestion(modelName, document.content, question, backend);
              r == if answer.Success? then Success(AskBody(question, answer.value, document.id))
                   else Failure(AskError(answer.error))
    ensures r.Success? ==> r.value.question == question && store.currentId == Some(r.value.documentId)
  {
    if !AiService.ValidateApiKey(apiKey) {
      return Failure(HttpError(500, ConfigurationError, Says(ConfigurationMessage)));
    }
    var document := store.GetCurrentDocument();
    if document.None? {
      return Failure(HttpError(400, NoDocument, Says(NoDocumentMessage)));
    }
    var answer := AiService.AnswerQuestion(modelName, document.value.content, question, backend);
    if answer.Failure? {
      return Failure(AskError(answer.error));
    }
    return Success(AskBody(question, answer.value, document.value.id));
  }
}
