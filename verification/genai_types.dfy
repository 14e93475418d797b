/** The part of the generation SDK's response shape that the gateway reads.
    Every property the gateway reaches through `?.` or `??` is optional here,
    so that each `undefined` the code guards against is a value of the model.
 */
module GenAi {
  import opened Wrappers

  /** Inline binary content: a MIME type and base64 text, both optional in
      the SDK's type. */
  datatype Blob = Blob(mimeType: Option<string>, data: Option<string>)

  /** One unit of content: inline image data and/or text. */
  datatype Part = Part(inlineData: Option<Blob>, text: Option<string>)

  datatype Content = Content(parts: Option<seq<Part>>)

  /** One proposed answer, with the reason generation stopped. */
  datatype Candidate = Candidate(content: Option<Content>, finishReason: Option<string>)

  /** Top-level signal that the request was refused. */
  datatype PromptFeedback = PromptFeedback(blockReason: Option<string>, blockReasonMessage: Option<string>)

  /** The response to one `generateContent` call. `text` stands for the SDK's
      `text` accessor, taken as an opaque optional string. */
  datatype Response = Response(
    promptFeedback: Option<PromptFeedback>,
    candidates: Option<seq<Candidate>>,
    text: Option<string>)

  /** JavaScript truthiness of an optional string: present and non-empty. */
  predicate Truthy(s: Option<string>) {
    s.Some? && s.value != ""
  }

  /** `candidate.content?.parts`, with a missing list read as empty. */
  function PartsOf(c: Candidate): seq<Part> {
    if c.content.Some? && c.content.value.parts.Some? then c.content.value.parts.value else []
  }

  /** `response.candidates ?? []`. */
  function CandidatesOf(r: Response): seq<Candidate> {
    r.candidates.GetOr([])
  }
}
