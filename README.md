# AI Document Q&A service — verified model of its core

The service accepts a PDF upload, extracts its text page by page, keeps it
in an in-memory store with a "current document" pointer, and answers
questions about the current document by sending a grounding prompt to a
chat-completion API (Groq). This project models the logic between those
collaborators in Dafny and proves what it promises:

- `storage_service.dfy` — module `Storage`: the `Document` record and the
  `StorageService` class. The dictionary becomes a `map` field plus a
  `seq` of its keys in insertion order (a Python dict keeps that order, and
  `delete_document` relies on it), and the current id an `Option`. Each
  mutating method states the whole new state and keeps the store invariant
  `Valid()`: the current id is none or a stored key, every key is the id of
  its document, and every character count is the length of the content.
- `pdf_service.dfy` — module `PdfService`: `validate_file` as a pure
  decision function with its fixed error order, and `extract_text` as a
  loop that appends a numbered marker and the text of each non-empty page,
  proved equal to the specification function `ExtractOutcome`. Lemmas
  about `ExtractOutcome` state when each error occurs and what a success
  returns.
- `ai_service.dfy` — module `AiService`: the credential check, the input
  checks of `answer_question`, the two-message grounding prompt and the
  answer or failure that comes back from the backend.
- `document_routes.dfy` — module `DocumentRoutes`: the upload and ask
  handlers as methods over the store, mapping each failure to a status and
  an error code.
- `text.dfy` — module `Text`: the Python string behaviour these rely on
  (`str.strip`, blank tests, ASCII `lower`, `endswith`, `str(int)`).
- `errors.dfy`, `wrappers.dfy` — the failure kinds (`ValueError` versus any
  other exception) and `Option` / `Result` / `Outcome`.

What stands in for the parts that are not modelled:

- The PDF library is replaced by `PdfReading`, either a parse failure or one
  entry per page holding the text `extract_text()` gave or the failure it
  raised. A library failure records whether it is a `ValueError`, because
  `extract_text` lets a `ValueError` through unchanged (a 400 at the
  route) and wraps anything else as "Failed to process PDF: …" (a 500).
- The chat-completion call is a total function parameter
  `backend: ChatRequest -> Completion`. "No call before validation" is
  stated as: when the input checks fail, the result is the same for every
  backend (`ValidationPrecedesCall`).
- `uuid4()` and `utcnow()` are the parameters `freshId` (non-empty, not
  already a key) and `uploadedAt` / `now`.
- `MAX_FILE_SIZE_MB` is the constant 10, as in the settings. The API key and
  model name are parameters of `AskQuestion`.

Behaviour of the code that shapes the model:

- `delete_document` moves the current id to the last remaining key in
  insertion order, so the key order is modelled alongside the map.
- An unparsable file gives 500 `PROCESSING_ERROR`, unless the parser raised
  a `ValueError`, which gives 400 `VALIDATION_ERROR`.
- Backend failures carry the prefix "Groq API error: ", and the upload
  handler puts "Failed to process document: " in front of "Failed to
  process PDF: ".

## Model

| member | source | states |
|---|---|---|
| `Text.Strip` | app/services/pdf_service.py:69-75 | the result is the input with a blank prefix and a blank suffix cut off; it is empty exactly when every character is whitespace, and otherwise neither starts nor ends with whitespace |
| `Text.DecimalRoundTrip` | app/services/pdf_service.py:65 | the page number written in a marker reads back as that number |
| `PdfService.ValidateFile` | app/services/pdf_service.py:84-111 | wrong type iff the name does not end in ".pdf" in any case, checked before size; too large iff the type is right and the size exceeds max·1024·1024 (a size equal to the limit passes); empty iff type and upper bound pass and the size is 0; passes iff none of these |
| `PdfService.PdfExtensionCaseInsensitive` | app/services/pdf_service.py:97 | lower-casing then testing the suffix is the same as a case-insensitive test of the last four characters |
| `PdfService.ExtensionLabel` | app/services/pdf_service.py:99 | the reported type is the text after the last '.', with no '.' in it, or "unknown" when the name has no '.' |
| `PdfService.Escalate` | app/services/pdf_service.py:77-82 | a library `ValueError` is passed on unchanged as a validation error carrying its own message; any other failure becomes a fault whose message is "Failed to process PDF: " plus the cause |
| `PdfService.FirstUnextractable` | app/services/pdf_service.py:61-62 | the index of the first page whose extraction failed: every page before it was extracted |
| `PdfService.AppendPage` | app/services/pdf_service.py:63-66 | the text gathered so far grows by exactly the page's section: its 1-based marker and then its text when the text is non-empty, nothing otherwise |
| `PdfService.CollectPageTexts` | app/services/pdf_service.py:60-66 | the loop stops at the first page whose extraction fails; when none fails it has gathered every page's section in page order |
| `PdfService.ExtractText` | app/services/pdf_service.py:45-82 | the loop's result equals `ExtractOutcome`: no pages, first page failure, no extractable text, or the stripped joined text with the full page count |
| `PdfService.SectionBlank` | app/services/pdf_service.py:63-66 | a page contributes blank text exactly when its text is empty, since its marker has visible characters |
| `PdfService.JoinedBlank` | app/services/pdf_service.py:60-73 | the joined text is blank iff every page's text is empty; a whitespace-only page still prevents the error |
| `PdfService.JoinedPrefix` | app/services/pdf_service.py:60-66 | the text gathered after the first m pages is a prefix of the final text: pages appear in order |
| `PdfService.PageSectionAt` | app/services/pdf_service.py:61-66 | each page with non-empty text appears as "\n--- Page k ---\n" (k = index + 1) followed by its text, right after the earlier pages' sections |
| `PdfService.ExtractSucceeds` | app/services/pdf_service.py:54-75 | success iff there is at least one page, every page was extracted and one has non-empty text; the result is then non-empty stripped text and the page count (at least 1, empty pages included) |
| `PdfService.NoExtractableTextIff` | app/services/pdf_service.py:63-73 | the "could not extract text" error occurs iff every page was extracted with empty text |
| `PdfService.NoPagesIff` | app/services/pdf_service.py:54-57 | the "no pages" error occurs iff the parsed document has zero pages |
| `PdfService.FaultsComeFromTheLibrary` | app/services/pdf_service.py:77-82 | every non-validation failure is a non-`ValueError` library failure carried with the "Failed to process PDF: " prefix |
| `Storage.WithoutAt` | app/services/storage_service.py:143 | deleting a key from the key order cuts it out at its position and keeps the other keys in order |
| `Storage.WithoutAbsent` | app/services/storage_service.py:142-152 | deleting an absent key leaves the key order unchanged |
| `Storage.WithoutKeys` | app/services/storage_service.py:142-143 | after a deletion the key order has no repeats and holds exactly the other keys |
| `Storage.LastAfterRemoval` | app/services/storage_service.py:145-150 | after deleting a key, the last remaining key is the one stored just before it if it was the newest, otherwise the old newest key |
| `Storage.RemovalConsistent` | app/services/storage_service.py:142-150 | deleting a stored key, with the current id moved to the last remaining key when it named the deleted one, keeps the store invariant |
| `Storage.StorageService.constructor` | app/services/storage_service.py:54-61 | a new store is empty, has no current document and satisfies the invariant |
| `Storage.StorageService.StoreDocument` | app/services/storage_service.py:63-100 | adds exactly one entry under the fresh id with filename, content and page count as given and character count = length of content; makes it current; other entries unchanged; invariant kept |
| `Storage.StorageService.GetDocument` | app/services/storage_service.py:102-112 | returns the document stored under the id iff the id is stored; changes nothing |
| `Storage.StorageService.GetCurrentDocument` | app/services/storage_service.py:114-126 | returns the document the current id names, and none iff no current id is set; changes nothing |
| `Storage.StorageService.HasDocuments` | app/services/storage_service.py:128-130 | true iff some document is stored; when false there is no current document |
| `Storage.StorageService.DeleteDocument` | app/services/storage_service.py:132-152 | returns true iff the id was stored; removes only that entry; if it was current, current becomes the last remaining key or none, else current is unchanged; invariant kept |
| `Storage.StorageService.ClearAll` | app/services/storage_service.py:154-157 | afterwards the store is empty and has no current document |
| `AiService.ValidateApiKey` | app/services/ai_service.py:126-135 | true iff the key has a non-whitespace character and is not the placeholder "your_groq_api_key_here" |
| `AiService.CheckInputs` | app/services/ai_service.py:57-66 | blank document is reported first; then blank question; then a question over 1000 characters (exactly 1000 passes); passes iff none applies |
| `AiService.BuildMessages` | app/services/ai_service.py:89-124 | exactly two messages, system then user; the user message is the header, the document verbatim, the `---` / `QUESTION: ` lead, the question verbatim and the closing instruction |
| `AiService.PromptsCarryFallback` | app/services/ai_service.py:99-119 | both the system and the user message contain "The document does not contain this information." |
| `AiService.AnswerQuestion` | app/services/ai_service.py:43-87 | validation failures come exactly from the input checks; a success is the backend's completion stripped; any backend failure becomes a fault prefixed "Groq API error: " |
| `AiService.ValidationPrecedesCall` | app/services/ai_service.py:57-73 | when the input checks fail, the result is the same validation error whatever the backend does |
| `DocumentRoutes.UploadName` | app/routes/documents.py:68 | a missing or empty client file name becomes "unknown.pdf"; any other name is kept |
| `DocumentRoutes.UploadError` | app/routes/documents.py:93-112 | validation errors map to 400 VALIDATION_ERROR with the reason; anything else to 500 PROCESSING_ERROR prefixed "Failed to process document: " |
| `DocumentRoutes.AskError` | app/routes/documents.py:186-205 | answer-generator validation errors map to 400 VALIDATION_ERROR, other failures to 500 AI_SERVICE_ERROR with the message unchanged |
| `DocumentRoutes.UploadDocument` | app/routes/documents.py:62-112 | validate, then extract, then store, with "unknown.pdf" as the default name for both; on any failure the store is unchanged; on success the new document is current and the body echoes its id, name, page count and character count |
| `DocumentRoutes.AskQuestion` | app/routes/documents.py:142-205 | an invalid key gives 500 CONFIGURATION_ERROR even with no document; no current document gives 400 NO_DOCUMENT whatever the backend does; otherwise the answer generator's outcome is mapped; never writes the store; a success echoes the question and the current document's id |

## Left out

- PDF parsing itself (PyPDF2): replaced by the `PdfReading` input described above.
- The Groq client, its lazy creation and the network call: replaced by the `backend` function. The model name, `max_tokens=1024` and `temperature=0.1` are carried in the request.
- Reading the upload body (`await file.read()`): the bytes are an input. A failure while reading would be a 500 `PROCESSING_ERROR`, which is not modelled.
- `uuid.uuid4()` and `datetime.utcnow()`: they are inputs. Uniqueness of generated ids is the precondition of `StoreDocument`, not a property of a generator.
- Exact error message texts of the validation errors: each is a `Reason` value. The "File too large" message formats the size as a float. The fixed NO_DOCUMENT and CONFIGURATION_ERROR texts are kept verbatim.
- `PdfService.ValidateFile`: Python's full Unicode `lower()` is modelled as ASCII lower-casing. For the test against ".pdf" the two decide the same, because no non-ASCII character lower-cases to '.', 'p', 'd' or 'f'.
- `Text.Strip`: whitespace is the set of characters Python's `str.isspace` accepts, listed by code point; Unicode database details beyond that list are not modelled.
- `DocumentRoutes.AskQuestion`: the request schema's 1..1000 length limit is a precondition. The schema rejects other lengths before the handler runs, so the `QuestionTooLong` path of `AiService.CheckInputs` cannot be reached through this handler.
- The application object, CORS, the catch-all 500 handler, the root and health payloads and startup logging are not part of this model. Neither is settings loading from the environment.
- Concurrency: the store is modelled as sequential, one operation at a time.
