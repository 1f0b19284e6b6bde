/** The PDF-capable server: `/classify` on text, `/classify-pdf` on an
    uploaded file, and the shared `/generate-text`. The security analysis
    template is read from a file at run time; here it is a parameter. */
module LlmServer {
  import opened Wrappers
  import opened PyStr
  import opened Json
  import opened Extraction
  import opened ChatMl
  import opened PdfExtraction
  import opened Endpoints

  const UnsupportedFile: string := "Only PDF files are supported"
  const Unextractable: string :=
    "Could not extract text from "
    + "PDF file. The file may be "
    + "corrupted, password "
    + "protected, or contain only "
    + "images."
  const PdfFailureReason: string :=
    "PDF classification failed. "
    + "Could not parse a valid JSON "
    + "response from the model after "
    + "processing. Check server logs "
    + "for details."
  const MetadataKey: string := "pdf_metadata"

  /** The user turn of a classification: the template, a line break, then
      the document, verbatim. */
  function CreateSecurityAnalysisPrompt(template: string, content: string): (u: string)
    ensures StartsWith(u, template + "\n")
    ensures EndsWith(u, content)
    ensures |u| == |template| + 1 + |content|
  {
    var u := template + "\n" + content;
    assert u[..|template + "\n"|] == template + "\n";
    assert u[|u| - |content|..] == content;
    u
  }

  /** `/classify` of this server: the document reaches the model verbatim,
      after the template and a line break; failures carry the text
      classification reasoning. */
  function ClassifyDocument(loaded: bool, template: string, content: string,
                            generate: string -> Generation, parse: string -> Option<Json>): (x: Exchange)
    ensures x.modelRequested
    ensures !loaded ==> x.reply == ModelMissing
    ensures x.sentPrompt.Some? <==> loaded
    ensures loaded ==> x.reply == ClassifyReply(generate(x.sentPrompt.value), parse, ClassifyFailureReason)
    ensures x.sentPrompt.Some? ==>
      UserTurnOf(x.sentPrompt.value, SecuritySystemMessage, Thinking) == Some(template + "\n" + content)
    ensures Status(x.reply) == 503 ==> Field(x.reply.detail, "reasoning") == Some(JString(ClassifyFailureReason))
  {
    var x := Classify(loaded, CreateSecurityAnalysisPrompt(template, content), generate, parse, ClassifyFailureReason);
    UserTurnRoundTrip(SecuritySystemMessage, template + "\n" + content, Thinking);
    x
  }

  /** `filename.lower().endswith('.pdf')`. */
  predicate HasPdfSuffix(filename: string) {
    EndsWith(Lower(filename), ".pdf")
  }

  /** The suffix test ignores case, and only case: it accepts exactly the
      names whose last four characters are `.`, `p`, `d`, `f` in either
      case. */
  lemma PdfSuffixCaseInsensitive(filename: string)
    ensures HasPdfSuffix(filename) <==>
      var n := |filename|;
      && n >= 4
      && filename[n - 4] == '.'
      && (filename[n - 3] == 'p' || filename[n - 3] == 'P')
      && (filename[n - 2] == 'd' || filename[n - 2] == 'D')
      && (filename[n - 1] == 'f' || filename[n - 1] == 'F')
  {
    var n, low := |filename|, Lower(filename);
    if n >= 4 {
      var tail := low[n - 4..];
      assert tail[0] == LowerChar(filename[n - 4]);
      assert tail[1] == LowerChar(filename[n - 3]);
      assert tail[2] == LowerChar(filename[n - 2]);
      assert tail[3] == LowerChar(filename[n - 1]);
      assert tail == ".pdf" <==> tail[0] == '.' && tail[1] == 'p' && tail[2] == 'd' && tail[3] == 'f';
    }
  }

  /** The extraction result the endpoint refuses with 422: nothing, or the
      reader-failure message (or any text that starts like it). */
  predicate Rejected(text: string) {
    text == [] || StartsWith(text, "Failed to extract")
  }

  /** The first three members of `pdf_metadata`: what the upload was. */
  function UploadMembers(filename: string, fileSize: nat, textLength: nat): (ms: seq<Member>)
    ensures Keys(ms) == ["filename", "file_size_bytes", "extracted_text_length"]
    ensures Lookup(ms, "filename") == Some(JString(filename))
    ensures Lookup(ms, "file_size_bytes") == Some(JInt(fileSize))
    ensures Lookup(ms, "extracted_text_length") == Some(JInt(textLength))
  {
    var m2 := Put(Put([], "filename", JString(filename)), "file_size_bytes", JInt(fileSize));
    assert Keys(m2) == ["filename", "file_size_bytes"];
    Put(m2, "extracted_text_length", JInt(textLength))
  }

  /** The `pdf_metadata` object added to a successful PDF classification. */
  function PdfMetadata(filename: string, fileSize: nat, textLength: nat): (m: Json)
    ensures m.JObject? && Keys(m.members)
              == ["filename", "file_size_bytes", "extracted_text_length", "extraction_successful"]
    ensures Field(m, "filename") == Some(JString(filename))
    ensures Field(m, "file_size_bytes") == Some(JInt(fileSize))
    ensures Field(m, "extracted_text_length") == Some(JInt(textLength))
    ensures Field(m, "extraction_successful") == Some(JBool(true))
  {
    var ms := UploadMembers(filename, fileSize, textLength);
    assert "extraction_successful" !in Keys(ms);
    assert Keys(ms) + ["extraction_successful"]
             == ["filename", "file_size_bytes", "extracted_text_length", "extraction_successful"];
    JObject(Put(ms, "extraction_successful", JBool(true)))
  }

  /** The prompt `/classify-pdf` sends for an extracted text. */
  function PdfPrompt(template: string, text: string): (p: string)
    ensures UserTurnOf(p, SecuritySystemMessage, Thinking) == Some(template + "\n" + text)
  {
    UserTurnRoundTrip(SecuritySystemMessage, template + "\n" + text, Thinking);
    ClassificationPrompt(SecuritySystemMessage, CreateSecurityAnalysisPrompt(template, text))
  }

  /** The model's reply parses to a JSON object. */
  ghost predicate ParsesToObject(gen: Generation, parse: string -> Option<Json>) {
    exists ms :: ParsesTo(gen, parse, JObject(ms))
  }

  /** The reply of `/classify-pdf` once the model has been called: the
      parsed object with `pdf_metadata` set to a description of the upload
      (replacing any such key the model produced, every other key kept in
      place), or the 503 fallback when no candidate parses, the call raised,
      or the parsed value is not an object (item assignment on it raises). */
  function PdfReply(filename: string, fileSize: nat, textLength: nat,
                    gen: Generation, parse: string -> Option<Json>): (r: Reply)
    ensures r.Ok? <==> ParsesToObject(gen, parse)
    ensures Status(r) == 503 <==> !ParsesToObject(gen, parse)
    ensures r.Ok? ==> exists ms :: (ParsesTo(gen, parse, JObject(ms))
      && r.body == JObject(Put(ms, MetadataKey, PdfMetadata(filename, fileSize, textLength))))
    ensures Status(r) == 503 ==> r.detail == FailureDetail(PdfFailureReason, ResponseText(gen))
  {
    var a := Analyze(gen, parse);
    AnalyzeParsed(gen, parse);
    if a.parsed.Some? && a.parsed.value.JObject? then
      var ms := a.parsed.value.members;
      assert ParsesTo(gen, parse, JObject(ms));
      Ok(JObject(Put(ms, MetadataKey, PdfMetadata(filename, fileSize, textLength))))
    else
      // No candidate, a parse error, a raised call, or a parsed value that
      // is not an object (item assignment on it raises).
      assert !ParsesToObject(gen, parse);
      HttpError(503, FailureDetail(PdfFailureReason, a.responseText))
  }

  /** `/classify-pdf`. `reader` stands for the PDF library applied to the
      uploaded bytes. In order: 400 for a name without the `.pdf` suffix,
      before the model is requested; 500 when the model is not loaded; 422
      when the extracted text is empty or a failure message; otherwise the
      model is prompted with the text and the reply is chosen from its
      completion. */
  function ClassifyPdfDocument(filename: string, content: seq<bv8>, loaded: bool, template: string,
                               reader: seq<bv8> -> PdfDocument, generate: string -> Generation,
                               parse: string -> Option<Json>): (x: Exchange)
    ensures x.modelRequested <==> HasPdfSuffix(filename)
    ensures Status(x.reply) == 400 <==> !HasPdfSuffix(filename)
    ensures Status(x.reply) == 500 <==> HasPdfSuffix(filename) && !loaded
    ensures !HasPdfSuffix(filename) ==> x.reply == HttpError(400, JString(UnsupportedFile))
    ensures HasPdfSuffix(filename) && !loaded ==> x.reply == ModelMissing
    ensures Status(x.reply) == 422 ==> x.reply == HttpError(422, JString(Unextractable))
    ensures var text := PdfText(reader(content));
      && (Status(x.reply) == 422 <==> HasPdfSuffix(filename) && loaded && Rejected(text))
      && (x.sentPrompt.Some? <==> HasPdfSuffix(filename) && loaded && !Rejected(text))
      && (x.sentPrompt.Some? ==> x.sentPrompt.value == PdfPrompt(template, text))
      && (x.sentPrompt.Some? ==>
            x.reply == PdfReply(filename, |content|, |text|, generate(x.sentPrompt.value), parse))
  {
    if !HasPdfSuffix(filename) then Exchange(HttpError(400, JString(UnsupportedFile)), false, None)
    else if !loaded then Exchange(ModelMissing, true, None)
    else
      var text := PdfText(reader(content));
      if Rejected(text) then Exchange(HttpError(422, JString(Unextractable)), true, None)
      else
        var prompt := PdfPrompt(template, text);
        var reply := PdfReply(filename, |content|, |text|, generate(prompt), parse);
        assert Status(reply) == 200 || Status(reply) == 503;
        Exchange(reply, true, Some(prompt))
  }

  /** A readable PDF with no text on any page is not refused: the blank
      sentinel is classified by the model as if it were the document. */
  lemma BlankPdfReachesModel(filename: string, content: seq<bv8>, template: string,
                             reader: seq<bv8> -> PdfDocument, generate: string -> Generation,
                             parse: string -> Option<Json>)
    requires HasPdfSuffix(filename)
    requires reader(content).Pages? && NoText(reader(content).pages)
    ensures ClassifyPdfDocument(filename, content, true, template, reader, generate, parse).sentPrompt
              == Some(PdfPrompt(template, NoTextSentinel))
  {
    BlankDocumentSentinel(reader(content).pages);
    SentinelAccepted();
  }

  /** The sentinel is neither empty nor a failure message. */
  lemma SentinelAccepted()
    ensures !Rejected(NoTextSentinel)
  {
    assert NoTextSentinel[0] == 'N';
  }

  /** A PDF the library cannot read is refused with 422, and the model is
      never prompted. */
  lemma UnreadablePdfRejected(filename: string, content: seq<bv8>, template: string,
                              reader: seq<bv8> -> PdfDocument, generate: string -> Generation,
                              parse: string -> Option<Json>)
    requires HasPdfSuffix(filename)
    requires reader(content).Unreadable?
    ensures var x := ClassifyPdfDocument(filename, content, true, template, reader, generate, parse);
      Status(x.reply) == 422 && x.sentPrompt == None
  {
    UnreadableMessage(reader(content).error);
  }

  /** A PDF whose only text is null characters is refused with 422: the
      blank test in the page loop passes, and the cleanup then empties it. */
  lemma NullTextPdfRejected(filename: string, content: seq<bv8>, template: string,
                            reader: seq<bv8> -> PdfDocument, generate: string -> Generation,
                            parse: string -> Option<Json>)
    requires HasPdfSuffix(filename)
    requires reader(content).Pages?
    requires !NoText(reader(content).pages) && OnlyNullText(reader(content).pages)
    ensures Status(ClassifyPdfDocument(filename, content, true, template, reader, generate, parse).reply) == 422
  {
    NullOnlyText(reader(content).pages);
  }
}
