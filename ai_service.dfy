/**
 * The answer generator: input checks, the grounding prompt and the
 * credential check. The chat-completion backend is a parameter: a total
 * function from the request sent to what came back.
 */
module AiService {
  import opened Wrappers
  import opened Text
  import opened Errors

  const MaxQuestionLength: nat := 1000
  const PlaceholderKey := "your_groq_api_key_here"
  const GroqErrorPrefix := "Groq API error: "
  const MaxTokens: nat := 1024
  const Temperature: real := 0.1

  /** The sentence the model must answer with when the document lacks the answer. */
  const FallbackPhrase := "The document does not contain this information."

  const SystemPromptHead :=
    "You are a precise document analysis assistant. Your ONLY job is to answer questions based strictly on the provided document content.\n\n"
    + "CRITICAL RULES YOU MUST FOLLOW:\n"
    + "1. ONLY use information that is explicitly stated in the document\n"
    + "2. DO NOT use any external knowledge or make assumptions\n"
    + "3. DO NOT infer or guess information that isn't clearly written\n"
    + "4. If the document does not contain the answer, you MUST respond with exactly: "
  const SystemPromptTail :=
    "\n5. Quote or paraphrase directly from the document when possible\n"
    + "6. Be concise and accurate\n\n"
    + "Remember: It's better to say you don't know than to make up information."

  /** The fixed system instruction. */
  const SystemPrompt := SystemPromptHead + "\"" + FallbackPhrase + "\"" + SystemPromptTail

  /** The parts of the user message around the document and the question. */
  const DocumentHeader := "DOCUMENT CONTENT:\n---\n"
  const QuestionLead := "\n---\n\nQUESTION: "
  const ClosingHead :=
    "\n\nBased ONLY on the document content above, please answer the question. "
    + "If the answer cannot be found in the document, respond with "
  const Closing := ClosingHead + "\"" + FallbackPhrase + "\" "

  datatype Role = System | User
  datatype ChatMessage = ChatMessage(role: Role, content: string)

  /** What is sent to the chat-completion API. */
  datatype ChatRequest = ChatRequest(model: string, messages: seq<ChatMessage>, maxTokens: nat, temperature: real)

  /** What the chat-completion API gave back: the first choice's text, or the failure it raised. */
  datatype Completion = Completed(text: string) | BackendFailed(message: string)

  /**
   * `validate_api_key`: a key is usable when it has a non-whitespace
   * character and is not the placeholder shipped in the sample settings.
   */
  function ValidateApiKey(key: string): (ok: bool)
    ensures ok <==> (exists i :: 0 <= i < |key| && !IsSpace(key[i])) && key != PlaceholderKey
  {
    key != [] && Strip(key) != [] && key != PlaceholderKey
  }

  /**
   * The input checks of `answer_question`, in order: empty document, empty
   * question, over-long question. `Pass` means the call goes ahead.
   */
  function CheckInputs(document: string, question: string): (r: Outcome<Reason>)
    ensures r == Fail(EmptyDocumentContent) <==> IsBlank(document)
    ensures r == Fail(EmptyQuestion) <==> !IsBlank(document) && IsBlank(question)
    ensures r == Fail(QuestionTooLong) <==>
              !IsBlank(document) && !IsBlank(question) && |question| > MaxQuestionLength
    ensures r == Pass <==>
              !IsBlank(document) && !IsBlank(question) && |question| <= MaxQuestionLength
  {
    if document == [] || Strip(document) == [] then Fail(EmptyDocumentContent)
    else if question == [] || Strip(question) == [] then Fail(EmptyQuestion)
    else if |question| > 1000 then Fail(QuestionTooLong)
    else Pass
  }

  /**
   * `_build_messages`: the system instruction, then a user message holding
   * the document verbatim between `---` lines and the question verbatim
   * after `QUESTION: `.
   */
  function BuildMessages(document: string, question: string): (msgs: seq<ChatMessage>)
    ensures |msgs| == 2
    ensures msgs[0] == ChatMessage(System, SystemPrompt)
    ensures msgs[1].role == User
    ensures var u := msgs[1].content;
            var d := |DocumentHeader|;
            var q := d + |document| + |QuestionLead|;
            && |u| == q + |question| + |Closing|
            && u[..d] == DocumentHeader
            && u[d..d + |document|] == document
            && u[d + |document|..q] == QuestionLead
            && u[q..q + |question|] == question
            && u[q + |question|..] == Closing
  {
    var user := DocumentHeader + document + QuestionLead + question + Closing;
    FiveParts(DocumentHeader, document, QuestionLead, question, Closing);
    [ChatMessage(System, SystemPrompt), ChatMessage(User, user)]
  }

  /** Where each of five concatenated parts sits in the result. */
  lemma FiveParts(a: string, b: string, c: string, d: string, e: string)
    ensures var u := a + b + c + d + e;
            var q := |a| + |b| + |c|;
            && |u| == q + |d| + |e|
            && u[..|a|] == a
            && u[|a|..|a| + |b|] == b
            && u[|a| + |b|..q] == c
            && u[q..q + |d|] == d
            && u[q + |d|..] == e
  {
    var u := a + b + c + d + e;
    var q := |a| + |b| + |c|;
    assert u == (a + b + c) + (d + e);
    assert u[q..q + |d|] == (d + e)[..|d|];
    assert u[q + |d|..] == (d + e)[|d|..];
    assert u[..q] == a + b + c;
    assert u[..|a|] == (a + b + c)[..|a|];
    assert u[|a|..|a| + |b|] == (a + b + c)[|a|..|a| + |b|];
    assert u[|a| + |b|..q] == (a + b + c)[|a| + |b|..];
  }

  /** Both messages tell the model the exact fallback sentence. */
  lemma PromptsCarryFallback(document: string, question: string)
    ensures var msgs := BuildMessages(document, question);
            Contains(msgs[0].content, FallbackPhrase) && Contains(msgs[1].content, FallbackPhrase)
  {
    var quote := "\"";
    OccursAtEnd(SystemPromptHead + quote, FallbackPhrase);
    OccursExtendRight(SystemPromptHead + quote + FallbackPhrase, FallbackPhrase, |SystemPromptHead + quote|, quote);
    OccursExtendRight(SystemPromptHead + quote + FallbackPhrase + quote, FallbackPhrase, |SystemPromptHead + quote|,
                      SystemPromptTail);
    var front := DocumentHeader + document + QuestionLead + question;
    OccursAtEnd(ClosingHead + quote, FallbackPhrase);
    OccursExtendRight(ClosingHead + quote + FallbackPhrase, FallbackPhrase, |ClosingHead + quote|, "\" ");
    OccursExtendLeft(front, Closing, FallbackPhrase, |ClosingHead + quote|);
  }

  /** The request `answer_question` sends for a document and a question. */
  function RequestFor(modelName: string, document: string, question: string): ChatRequest
  {
    ChatRequest(modelName, BuildMessages(document, question), MaxTokens, Temperature)
  }

  /**
   * `answer_question`: rejects bad input before anything is sent; otherwise
   * returns the completion with surrounding whitespace removed, or wraps the
   * backend's failure with a fixed prefix.
   */
  function AnswerQuestion(modelName: string, document: string, question: string,
                          backend: ChatRequest -> Completion): (r: Result<string, Failure>)
    ensures CheckInputs(document, question).Fail? ==>
              r == Failure(Invalid(CheckInputs(document, question).error))
    ensures r.Failure? && r.error.Invalid? ==> CheckInputs(document, question).Fail?
    ensures r.Success? ==>
              var reply := backend(RequestFor(modelName, document, question));
              reply.Completed? && r.value == Strip(reply.text)
    ensures r.Failure? && r.error.Fault? ==>
              var reply := backend(RequestFor(modelName, document, question));
              reply.BackendFailed? && r.error.message == GroqErrorPrefix + reply.message
  {
    match CheckInputs(document, question)
    case Fail(reason) => Failure(Invalid(reason))
    case Pass =>
      var messages := BuildMessages(document, question);
      match backend(ChatRequest(modelName, messages, 1024, 0.1))
      case Completed(text) => Success(Strip(text))
      case BackendFailed(message) => Failure(Fault(GroqErrorPrefix + message))
  }

  /** When the input checks fail, the backend plays no part in the result: no call is made. */
  lemma ValidationPrecedesCall(modelName: string, document: string, question: string,
                               backend1: ChatRequest -> Completion, backend2: ChatRequest -> Completion)
    requires CheckInputs(document, question).Fail?
    ensures AnswerQuestion(modelName, document, question, backend1) ==
            AnswerQuestion(modelName, document, question, backend2)
    ensures AnswerQuestion(modelName, document, question, backend1).error.Invalid?
  {
  }
}
