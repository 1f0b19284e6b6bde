/** The text-only server: `/classify` and `/generate-text`. Its template is
    a literal in the program; here it is a parameter. Its `/generate-text`
    is the shared one, and its `/classify` differs from the other server's
    only in how the template meets the document. */
module ClassificationServer {
  import opened Wrappers
  import opened PyStr
  import opened Json
  import opened Extraction
  import opened ChatMl
  import opened Endpoints
  import LlmServer

  /** The user turn of a classification: the template immediately followed
      by the document, with no separator. */
  function CreateSecurityAnalysisPrompt(template: string, content: string): (u: string)
    ensures StartsWith(u, template)
    ensures EndsWith(u, content)
    ensures |u| == |template| + |content|
  {
    var u := template + content;
    assert u[..|template|] == template;
    assert u[|u| - |content|..] == content;
    u
  }

  /** The two servers build the same user turn when this one's template
      carries the line break the other one inserts. */
  lemma PromptsAgreeUpToSeparator(template: string, content: string)
    ensures CreateSecurityAnalysisPrompt(template + "\n", content)
              == LlmServer.CreateSecurityAnalysisPrompt(template, content)
  {
  }

  /** `/classify` of this server: 500 before any generation when the model
      is not loaded; otherwise the document reaches the model verbatim,
      right after the template, and the reply is the parsed candidate or
      the 503 fallback. */
  function ClassifyDocument(loaded: bool, template: string, content: string,
                            generate: string -> Generation, parse: string -> Option<Json>): (x: Exchange)
    ensures x.modelRequested
    ensures !loaded ==> x.reply == ModelMissing
    ensures x.sentPrompt.Some? <==> loaded
    ensures loaded ==> x.reply == ClassifyReply(generate(x.sentPrompt.value), parse, ClassifyFailureReason)
    ensures x.sentPrompt.Some? ==>
      UserTurnOf(x.sentPrompt.value, SecuritySystemMessage, Thinking) == Some(template + content)
    ensures Status(x.reply) == 503 ==> Field(x.reply.detail, "reasoning") == Some(JString(ClassifyFailureReason))
  {
    var x := Classify(loaded, CreateSecurityAnalysisPrompt(template, content), generate, parse, ClassifyFailureReason);
    UserTurnRoundTrip(SecuritySystemMessage, template + content, Thinking);
    x
  }

  /** Both servers answer `/classify` alike, given templates that agree up
      to the separator. */
  lemma ClassifyAgreesWithLlmServer(loaded: bool, template: string, content: string,
                                    generate: string -> Generation, parse: string -> Option<Json>)
    ensures ClassifyDocument(loaded, template + "\n", content, generate, parse)
              == LlmServer.ClassifyDocument(loaded, template, content, generate, parse)
  {
    PromptsAgreeUpToSeparator(template, content);
  }
}
