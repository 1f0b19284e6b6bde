/** What the two servers' HTTP endpoints share: the reply of an exchange,
    the fixed error bodies, the `/classify` decision, and `/generate-text`,
    which both servers implement identically. A request is modelled as one
    pass through the handler: whether the model was requested
    (`get_llm_instance()` was called), the prompt it was given, and the
    reply. */
module Endpoints {
  import opened Wrappers
  import opened SeqFacts
  import opened PyStr
  import opened Json
  import opened Extraction
  import opened ChatMl

  // Long messages are written as sums of short literals; the text is the
  // program's, piece by piece.

  const ModelNotLoaded: string :=
    "Model not loaded. Check "
    + "server logs for errors."

  /** System turn of every classification prompt. */
  const SecuritySystemMessage: string :=
    "You are a security "
    + "classification assistant. "
    + "First, think step-by-step "
    + "about the user's request. "
    + "Then, provide your final "
    + "answer in the requested JSON "
    + "format."

  /** System turn of every text generation prompt. */
  const WritingSystemMessage: string :=
    "You are a helpful writing "
    + "assistant. Generate clear, "
    + "coherent, and useful text "
    + "based on the user's request. "
    + "Keep responses concise but "
    + "informative."

  const AnalysisFailed: string := "ANALYSIS_FAILED"
  const ClassifyFailureReason: string :=
    "Classification failed. Could "
    + "not parse a valid JSON "
    + "response from the model after "
    + "processing. Check server logs "
    + "for details."
  /** `raw_response` of a failure in which the model produced nothing. */
  const NoResponse: string := "No response generated."

  /** A successful response body, or a raised `HTTPException` with its
      status code and detail. */
  datatype Reply = Ok(body: Json) | HttpError(status: int, detail: Json)

  /** The HTTP status a reply is sent with. */
  function Status(r: Reply): int {
    if r.Ok? then 200 else r.status
  }

  /** One request: its reply, whether the model was requested, and the
      prompt the model was given, if any. */
  datatype Exchange = Exchange(reply: Reply, modelRequested: bool, sentPrompt: Option<string>)

  /** The 500 reply of a request whose model failed to load. */
  const ModelMissing: Reply := HttpError(500, JString(ModelNotLoaded))

  /** The `detail` of the 503 fallback: a fixed classification, the given
      reasoning, and the stripped completion when there was one. A dict
      display is built as its keys are assigned, left to right. */
  function FailureDetail(reasoning: string, responseText: Option<string>): (d: Json)
    ensures d.JObject? && Keys(d.members) == ["classification", "reasoning", "raw_response"]
    ensures Field(d, "classification") == Some(JString(AnalysisFailed))
    ensures Field(d, "reasoning") == Some(JString(reasoning))
    ensures Field(d, "raw_response") ==
      Some(JString(if responseText.Some? then responseText.value else NoResponse))
  {
    var raw := if responseText.Some? then responseText.value else NoResponse;
    var m2 := Put(Put([], "classification", JString(AnalysisFailed)), "reasoning", JString(reasoning));
    assert Keys(m2) == ["classification", "reasoning"];
    JObject(Put(m2, "raw_response", JString(raw)))
  }

  /** The reply of a classification once the model has been called: the
      value parsed from the completion's candidate, or the 503 fallback with
      `reasoning` when no candidate parses or the call raised. */
  function ClassifyReply(gen: Generation, parse: string -> Option<Json>, reasoning: string): (r: Reply)
    ensures r.Ok? <==> Succeeds(gen, parse)
    ensures Status(r) == 200 <==> Succeeds(gen, parse)
    ensures Status(r) == 503 <==> !Succeeds(gen, parse)
    ensures r.Ok? ==> ParsesTo(gen, parse, r.body)
    ensures Status(r) == 503 ==> r.detail == FailureDetail(reasoning, ResponseText(gen))
  {
    var a := Analyze(gen, parse);
    AnalyzeParsed(gen, parse);
    match a.parsed
    case Some(j) => Ok(j)
    case None => HttpError(503, FailureDetail(reasoning, a.responseText))
  }

  /** `/classify` around a given user turn: 500 when the model is not
      loaded, before any generation; otherwise the model is prompted once
      with the classification envelope and the reply is chosen from its
      completion. */
  function Classify(loaded: bool, user: string, generate: string -> Generation,
                    parse: string -> Option<Json>, reasoning: string): (x: Exchange)
    ensures x.modelRequested
    ensures x.sentPrompt == if loaded then Some(ClassificationPrompt(SecuritySystemMessage, user)) else None
    ensures !loaded ==> x.reply == ModelMissing
    ensures loaded ==> x.reply == ClassifyReply(generate(x.sentPrompt.value), parse, reasoning)
  {
    if !loaded then Exchange(ModelMissing, true, None)
    else
      var prompt := ClassificationPrompt(SecuritySystemMessage, user);
      Exchange(ClassifyReply(generate(prompt), parse, reasoning), true, Some(prompt))
  }

  /** A classification ends in 500 exactly when the model is not loaded,
      and otherwise in the parsed value or the 503 fallback. */
  lemma ClassifyStatuses(loaded: bool, user: string, generate: string -> Generation,
                         parse: string -> Option<Json>, reasoning: string)
    ensures var s := Status(Classify(loaded, user, generate, parse, reasoning).reply);
      (s == 500 <==> !loaded) && (loaded ==> s == 200 || s == 503)
  {
    if loaded {
      var gen := generate(ClassificationPrompt(SecuritySystemMessage, user));
      assert Succeeds(gen, parse) || !Succeeds(gen, parse);
    }
  }

  const WriteAbout: string := "Write about: "
  const ContextMarker: string := "\n\nContext: "
  const Closing: string :=
    "\n\nPlease provide a "
    + "well-written "
    + "response that addresses the "
    + "request:"

  /** The user turn of `/generate-text`: the request, the context segment
      when a context is given, and the closing instruction. */
  function GenerationUserPrompt(prompt: string, context: string): (u: string)
    ensures StartsWith(u, WriteAbout + prompt)
    ensures EndsWith(u, Closing)
    ensures StartsWith(u[|WriteAbout + prompt|..], ContextMarker) <==> context != ""
  {
    var opening := WriteAbout + prompt;
    var middle := if context != "" then ContextMarker + context else "";
    var u := opening + middle + Closing;
    assert u[|opening|..] == middle + Closing;
    assert context != "" ==> (middle + Closing)[2] == ContextMarker[2] == 'C';
    assert Closing[2] == 'P';
    assert context == "" ==> (middle + Closing)[2] == Closing[2];
    assert context != "" ==> (middle + Closing)[..|ContextMarker|] == ContextMarker;
    assert u[..|opening|] == opening;
    assert u[|u| - |Closing|..] == Closing;
    u
  }

  /** Reads the context back out of a generation user turn, given the
      request it was built for (which the reply echoes). */
  function ContextOf(u: string, prompt: string): (r: Option<string>)
    ensures r.Some? ==> GenerationUserPrompt(prompt, r.value) == u
  {
    var opening := WriteAbout + prompt;
    if |opening| + |Closing| <= |u| && StartsWith(u, opening) && EndsWith(u, Closing) then
      var middle := u[|opening|..|u| - |Closing|];
      assert u == opening + middle + Closing;
      if middle == [] then Some("")
      else if |ContextMarker| < |middle| && StartsWith(middle, ContextMarker) then
        assert middle == ContextMarker + middle[|ContextMarker|..];
        Some(middle[|ContextMarker|..])
      else None
    else None
  }

  /** Given the request, the context is recovered exactly. */
  lemma GenerationContextRoundTrip(prompt: string, context: string)
    ensures ContextOf(GenerationUserPrompt(prompt, context), prompt) == Some(context)
  {
    var opening := WriteAbout + prompt;
    var u := GenerationUserPrompt(prompt, context);
    var middle := if context != "" then ContextMarker + context else "";
    assert u == opening + middle + Closing;
    assert u[|opening|..|u| - |Closing|] == middle;
    if context != "" {
      assert middle[..|ContextMarker|] == ContextMarker;
      assert middle[|ContextMarker|..] == context;
    }
  }

  /** Without the request the context is not recoverable: a request that
      itself contains the context marker gives the same user turn as a
      shorter request with a context. */
  lemma GenerationPromptAmbiguous(prompt: string, context: string)
    requires context != ""
    ensures GenerationUserPrompt(prompt + ContextMarker + context, "") == GenerationUserPrompt(prompt, context)
  {
    var longer := prompt + ContextMarker + context;
    ConcatAssoc(WriteAbout, prompt + ContextMarker, context);
    ConcatAssoc(WriteAbout, prompt, ContextMarker);
    ConcatAssoc(WriteAbout + prompt, ContextMarker, context);
    assert WriteAbout + longer + "" == WriteAbout + longer;
  }

  /** The canned text of a failed generation, which embeds the request. */
  function FallbackText(prompt: string): string {
    "I'd be happy to help you "
    + "write about "
    + prompt
    + ". Here's a starting point "
    + "that you can expand upon and "
    + "customize to fit your "
    + "specific needs."
  }

  /** The three members both generation bodies start with, in order. */
  function GenerationMembers(prompt: string, text: string, success: bool): (ms: seq<Member>)
    ensures Keys(ms) == ["generatedText", "prompt", "success"]
    ensures Lookup(ms, "generatedText") == Some(JString(text))
    ensures Lookup(ms, "prompt") == Some(JString(prompt))
    ensures Lookup(ms, "success") == Some(JBool(success))
    ensures Lookup(ms, "error") == None
  {
    var m2 := Put(Put([], "generatedText", JString(text)), "prompt", JString(prompt));
    assert Keys(m2) == ["generatedText", "prompt"];
    Put(m2, "success", JBool(success))
  }

  /** The reply body of a generation that completed. */
  function GeneratedBody(prompt: string, text: string): (b: Json)
    ensures b.JObject? && Keys(b.members) == ["generatedText", "prompt", "success"]
    ensures Field(b, "generatedText") == Some(JString(text))
    ensures Field(b, "prompt") == Some(JString(prompt))
    ensures Field(b, "success") == Some(JBool(true))
    ensures Field(b, "error") == None
  {
    JObject(GenerationMembers(prompt, text, true))
  }

  /** The reply body of a generation whose call raised `message`. */
  function FallbackBody(prompt: string, message: string): (b: Json)
    ensures b.JObject? && Keys(b.members) == ["generatedText", "prompt", "success", "error"]
    ensures Field(b, "generatedText") == Some(JString(FallbackText(prompt)))
    ensures Field(b, "prompt") == Some(JString(prompt))
    ensures Field(b, "success") == Some(JBool(false))
    ensures Field(b, "error") == Some(JString(message))
  {
    var ms := GenerationMembers(prompt, FallbackText(prompt), false);
    assert Keys(ms) + ["error"] == ["generatedText", "prompt", "success", "error"];
    JObject(Put(ms, "error", JString(message)))
  }

  /** `/generate-text`: 500 when the model is not loaded; otherwise always
      a reply body echoing the request, holding the stripped completion and
      `success: true`, or, when the call raised, the canned text,
      `success: false` and the exception's message. */
  function GenerateText(loaded: bool, prompt: string, context: string,
                        generate: string -> Generation): (x: Exchange)
    ensures x.modelRequested
    ensures Status(x.reply) == 500 <==> !loaded
    ensures !loaded ==> x.reply == ModelMissing && x.sentPrompt == None
    ensures loaded ==> x.reply.Ok?
    ensures loaded ==> x.sentPrompt == Some(GenerationPrompt(WritingSystemMessage, GenerationUserPrompt(prompt, context)))
    ensures var gen := generate(GenerationPrompt(WritingSystemMessage, GenerationUserPrompt(prompt, context)));
      x.reply.Ok? ==>
        x.reply.body == (if gen.Completion? then GeneratedBody(prompt, Strip(gen.text)) else FallbackBody(prompt, gen.message))
    ensures var gen := generate(GenerationPrompt(WritingSystemMessage, GenerationUserPrompt(prompt, context)));
      x.reply.Ok? ==>
        && Field(x.reply.body, "prompt") == Some(JString(prompt))
        && Field(x.reply.body, "success") == Some(JBool(gen.Completion?))
        && Field(x.reply.body, "generatedText") ==
             Some(JString(if gen.Completion? then Strip(gen.text) else FallbackText(prompt)))
        && Field(x.reply.body, "error") == (if gen.Raised? then Some(JString(gen.message)) else None)
  {
    if !loaded then Exchange(ModelMissing, true, None)
    else
      var full := GenerationPrompt(WritingSystemMessage, GenerationUserPrompt(prompt, context));
      var body := match generate(full)
        case Completion(raw) => GeneratedBody(prompt, Strip(raw))
        case Raised(message) => FallbackBody(prompt, message);
      Exchange(Ok(body), true, Some(full))
  }
}
