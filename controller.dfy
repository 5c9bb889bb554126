/**
 * The request handler `analyzeResume`: guards on the upload and the job
 * description, text extraction by declared type, scoring, the API-key check,
 * suggestion generation, best-effort persistence and the response.
 *
 * The file system, the PDF and DOCX libraries, the chat service, the JSON
 * parser and the database are collaborators given as functions in
 * `Collaborators`; an exception one of them throws is its `Threw` outcome.
 */
module Controller {
  import opened Wrappers
  import opened Text
  import opened AtsScore
  import opened TagStrip
  import opened Suggestions

  const PdfMime := "application/pdf"
  const DocxMime := "application/vnd.openxmlformats-officedocument.wordprocessingml.document"

  const FileRequired := "Resume file is required."
  const JobRequired := "Job description is required."
  const UnsupportedType := "Unsupported file type. Use PDF or DOCX."
  const KeyMissing := "OpenAI API Key is missing. Please add it to server/.env"
  const DefaultServerError := "Server error during analysis."

  type Bytes = seq<bv8>

  /** The upload as the multipart middleware describes it; its bytes are on disk. */
  datatype UploadedFile = UploadedFile(originalName: string, mimetype: string, destination: string, filename: string)

  /** The request: the optional file and the optional `jobDescription` form field. */
  datatype AnalysisRequest = AnalysisRequest(file: Option<UploadedFile>, jobDescription: Option<string>)

  /** A call that returns a value or throws an error with a message. */
  datatype Attempt<T> = Returned(value: T) | Threw(message: string)

  /** What `Resume.create` gives: the new record's id, or an error (which is swallowed). */
  datatype SaveOutcome = Created(id: string) | SaveFailed

  /** The document handed to `Resume.create`. */
  datatype AnalysisRecord = AnalysisRecord(
    originalFilename: string, jobDescription: string, parsedContent: string,
    atsScore: Score, matchSummary: string, recommendations: seq<string>)

  /** The handler's environment. */
  datatype Collaborators = Collaborators(
    readFile: UploadedFile -> Attempt<Bytes>,       // fs.readFileSync of destination/filename
    pdfText: Bytes -> Attempt<string>,              // pdf-parse: the text layer
    docxHtml: Bytes -> Attempt<string>,             // mammoth.convertToHtml: the HTML
    apiKey: string,                                 // OPENAI_API_KEY, "" when unset
    chat: ChatRequest -> ChatReply,                 // the chat-completion service
    parseJson: string -> Option<seq<string>>,       // JSON.parse, None when it throws
    createRecord: AnalysisRecord -> SaveOutcome)    // Resume.create

  datatype Body =
    | ErrorBody(error: string)
    | Analysis(atsScore: Score, matchSummary: string, recommendations: seq<string>, resumeId: Option<string>)

  datatype Response = Response(status: nat, body: Body)

  /** The steps of the handler that call into the core or a collaborator, in the order reached. */
  datatype Stage = ReadFile | ExtractPdf | ExtractDocx | Scoring | Recommending | Saving

  /** JavaScript truthiness of the form field: absent and empty are both false. */
  predicate Truthy(field: Option<string>)
  {
    field.Some? && field.value != []
  }

  predicate IsSupported(mimetype: string)
  {
    mimetype == PdfMime || mimetype == DocxMime
  }

  /** The 500 response of the outer `catch`: the error's message, or a default when it has none. */
  function ServerError(message: string): (r: Response)
    ensures r.status == 500 && r.body.ErrorBody? && r.body.error != []
    ensures message != [] ==> r.body.error == message
    ensures message == [] ==> r.body.error == DefaultServerError
  {
    Response(500, ErrorBody(if message == [] then DefaultServerError else message))
  }

  /** The text of the resume: the PDF text layer, or the converted HTML with its tags stripped. */
  function ExtractText(mimetype: string, buffer: Bytes, env: Collaborators): (r: Attempt<string>)
    requires IsSupported(mimetype)
    ensures mimetype == PdfMime ==> r == env.pdfText(buffer)
    ensures mimetype == DocxMime ==> r == match env.docxHtml(buffer)
      case Returned(html) => Returned(StripTags(html))
      case Threw(message) => Threw(message)
    // A corollary of the clause above and the contract of StripTags, kept for readers.
    ensures mimetype == DocxMime && env.docxHtml(buffer).Returned? ==> r.Returned? && NoTagLeft(r.value)
    ensures r.Threw? <==> (if mimetype == PdfMime then env.pdfText(buffer) else env.docxHtml(buffer)).Threw?
  {
    if mimetype == PdfMime then env.pdfText(buffer)
    else match env.docxHtml(buffer)
      case Returned(html) => Returned(StripTags(html))
      case Threw(message) => Threw(message)
  }

  /** "Matched X of Y keywords". */
  function MatchSummary(matched: nat, total: nat): string
  {
    "Matched " + Decimal(matched) + " of " + Decimal(total) + " keywords"
  }

  /** The summary determines both counts: no two different (matched, total) pairs read the same. */
  lemma MatchSummaryInjective(m1: nat, t1: nat, m2: nat, t2: nat)
    requires MatchSummary(m1, t1) == MatchSummary(m2, t2)
    ensures m1 == m2 && t1 == t2
  {
    var s := MatchSummary(m1, t1);
    var d1, d2 := Decimal(m1), Decimal(m2);
    var e1, e2 := Decimal(t1), Decimal(t2);
    assert s == "Matched " + d1 + " of " + e1 + " keywords";
    assert s == "Matched " + d2 + " of " + e2 + " keywords";
    assert forall i :: 0 <= i < |d1| ==> s[8 + i] == d1[i];
    assert forall i :: 0 <= i < |d2| ==> s[8 + i] == d2[i];
    assert s[8 + |d1|] == ' ' && s[8 + |d2|] == ' ';
    assert d1 == s[8..8 + |d1|] == d2;
    assert |e1| == |e2|;
    var k := 8 + |d1| + 4;
    assert forall i :: 0 <= i < |e1| ==> s[k + i] == e1[i] && s[k + i] == e2[i];
    assert e1 == e2;
    DecimalRoundTrip(m1);
    DecimalRoundTrip(m2);
    DecimalRoundTrip(t1);
    DecimalRoundTrip(t2);
  }

  /** The two form-level guards pass: a file and a non-empty job description. */
  predicate Validated(req: AnalysisRequest)
  {
    req.file.Some? && Truthy(req.jobDescription)
  }

  /** ... and the uploaded file can be read back. */
  predicate Readable(req: AnalysisRequest, env: Collaborators)
  {
    Validated(req) && env.readFile(req.file.value).Returned?
  }

  /** ... and its declared type is supported and its text extracts. */
  predicate Extracted(req: AnalysisRequest, env: Collaborators)
  {
    && Readable(req, env)
    && IsSupported(req.file.value.mimetype)
    && ExtractText(req.file.value.mimetype, env.readFile(req.file.value).value, env).Returned?
  }

  /** ... and the API key is set: the handler reaches the chat service and the database. */
  predicate Proceeds(req: AnalysisRequest, env: Collaborators)
  {
    Extracted(req, env) && env.apiKey != []
  }

  /** The extraction stage that the declared type selects. */
  function ExtractStage(mimetype: string): Stage
  {
    if mimetype == PdfMime then ExtractPdf else ExtractDocx
  }

  /** What one request produces: the response sent, the stages reached, and the record handed to the database, if any. */
  datatype Handled = Handled(response: Response, trace: seq<Stage>, record: Option<AnalysisRecord>)

  /** The outcome of `analyzeResume` for a request in an environment. */
  function Handle(req: AnalysisRequest, env: Collaborators): (h: Handled)
    ensures h.response.status in {200, 400, 500}
    ensures h.record.Some? <==> h.response.status == 200
  {
    if req.file.None? then Handled(Response(400, ErrorBody(FileRequired)), [], None)
    else if !Truthy(req.jobDescription) then Handled(Response(400, ErrorBody(JobRequired)), [], None)
    else
      var file := req.file.value;
      var job := req.jobDescription.value;
      match env.readFile(file)
      case Threw(message) => Handled(ServerError(message), [ReadFile], None)
      case Returned(buffer) =>
        if !IsSupported(file.mimetype) then Handled(Response(400, ErrorBody(UnsupportedType)), [ReadFile], None)
        else
          var stage := ExtractStage(file.mimetype);
          match ExtractText(file.mimetype, buffer, env)
          case Threw(message) => Handled(ServerError(message), [ReadFile, stage], None)
          case Returned(text) => Respond(file, job, text, stage, env)
  }

  /** From the extracted text on: scoring, the key check, suggestions, best-effort persistence, the response. */
  function Respond(file: UploadedFile, job: string, text: string, stage: Stage, env: Collaborators): (h: Handled)
    ensures h.response.status in {200, 500}
    ensures h.record.Some? <==> h.response.status == 200
  {
    var result := CalculateAtsScore(text, job);
    if env.apiKey == [] then Handled(Response(500, ErrorBody(KeyMissing)), [ReadFile, stage, Scoring], None)
    else
      var recommendations := SuggestionsFrom(env.chat(ChatRequest(ChatModel, Prompt(text, job), ChatTemperature)), env.parseJson);
      var summary := MatchSummary(result.matchCount, result.totalKeywords);
      var record := AnalysisRecord(file.originalName, job, text, result.score, summary, recommendations);
      var resumeId := match env.createRecord(record)
        case Created(id) => Some(id)
        case SaveFailed => None;
      Handled(Response(200, Analysis(result.score, summary, recommendations, resumeId)),
              [ReadFile, stage, Scoring, Recommending, Saving], Some(record))
  }

  /**
   * The client-input guards fire in order (missing file, then missing job
   * description, then unsupported type) and every 400 is sent before any
   * extraction or scoring; only reading the upload back precedes the type check.
   */
  lemma GuardsComeFirst(req: AnalysisRequest, env: Collaborators)
    ensures var h := Handle(req, env);
      && (req.file.None? ==> h.response == Response(400, ErrorBody(FileRequired)) && h.trace == [])
      && (req.file.Some? && !Truthy(req.jobDescription) ==> h.response == Response(400, ErrorBody(JobRequired)) && h.trace == [])
      && (Readable(req, env) && !IsSupported(req.file.value.mimetype)
          ==> h.response == Response(400, ErrorBody(UnsupportedType)) && h.trace == [ReadFile])
      && (h.response.status == 400 <==> !Validated(req) || (Readable(req, env) && !IsSupported(req.file.value.mimetype)))
      && (h.response.status == 400 ==> h.trace <= [ReadFile])
  {
  }

  /** An upload that cannot be read back, or whose text does not extract, is a 500 carrying the thrown message. */
  lemma ThrownErrorsAreServerErrors(req: AnalysisRequest, env: Collaborators)
    ensures var h := Handle(req, env);
      && (Validated(req) && !Readable(req, env)
          ==> h.response == ServerError(env.readFile(req.file.value).message) && h.trace == [ReadFile])
      && (Readable(req, env) && IsSupported(req.file.value.mimetype) && !Extracted(req, env)
          ==> h.response == ServerError(ExtractText(req.file.value.mimetype, env.readFile(req.file.value).value, env).message)
              && h.trace == [ReadFile, ExtractStage(req.file.value.mimetype)])
  {
  }

  /** A missing API key is a 500 decided after scoring and before the chat service or the database is called. */
  lemma KeyCheckedAfterScoring(req: AnalysisRequest, env: Collaborators)
    requires Extracted(req, env) && env.apiKey == []
    ensures Handle(req, env).response == Response(500, ErrorBody(KeyMissing))
    ensures Handle(req, env).trace == [ReadFile, ExtractStage(req.file.value.mimetype), Scoring]
  {
  }

  /** The request succeeds exactly when every guard passes, whatever the chat service and the database do. */
  lemma SuccessIffGuardsPass(req: AnalysisRequest, env: Collaborators)
    ensures Handle(req, env).response.status == 200 <==> Proceeds(req, env)
  {
  }

  /** A successful response carries the score, the summary and the suggestions computed from the extracted text. */
  lemma SuccessContents(req: AnalysisRequest, env: Collaborators)
    requires Proceeds(req, env)
    ensures var h := Handle(req, env);
      var file := req.file.value;
      var job := req.jobDescription.value;
      var text := ExtractText(file.mimetype, env.readFile(file).value, env).value;
      var result := CalculateAtsScore(text, job);
      && h.response.body.Analysis?
      && h.response.body.atsScore == result.score
      && h.response.body.matchSummary == MatchSummary(|result.matches|, result.totalKeywords)
      && h.response.body.recommendations
         == SuggestionsFrom(env.chat(ChatRequest(ChatModel, Prompt(text, job), ChatTemperature)), env.parseJson)
      && h.trace == [ReadFile, ExtractStage(file.mimetype), Scoring, Recommending, Saving]
  {
  }

  /** A failed save still gives a successful response, with no record id; a successful one returns the new id. */
  lemma SaveFailureIsSwallowed(req: AnalysisRequest, env: Collaborators)
    requires Proceeds(req, env)
    ensures var h := Handle(req, env);
      && h.record.Some?
      && h.response.status == 200
      && h.response.body.resumeId == (match env.createRecord(h.record.value)
                                       case Created(id) => Some(id)
                                       case SaveFailed => None)
  {
  }

  /** What is persisted is what is sent: the same score, summary and suggestions. */
  lemma PersistedRecordMatchesResponse(req: AnalysisRequest, env: Collaborators)
    ensures var h := Handle(req, env);
      h.record.Some? ==>
        && h.response.body.Analysis?
        && h.record.value.atsScore == h.response.body.atsScore
        && h.record.value.matchSummary == h.response.body.matchSummary
        && h.record.value.recommendations == h.response.body.recommendations
        && h.record.value.jobDescription == req.jobDescription.value
  {
  }

  /**
   * `analyzeResume(req, res)`, step by step: early returns for the guards, the
   * locals `resumeText` and `resumeId` assigned as the handler goes.
   */
  method AnalyzeResume(req: AnalysisRequest, env: Collaborators)
    returns (response: Response, trace: seq<Stage>, record: Option<AnalysisRecord>)
    ensures Handled(response, trace, record) == Handle(req, env)
  {
    trace, record := [], None;
    if req.file.None? {
      return Response(400, ErrorBody(FileRequired)), trace, record;
    }
    if !Truthy(req.jobDescription) {
      return Response(400, ErrorBody(JobRequired)), trace, record;
    }
    var file := req.file.value;
    var jobDescription := req.jobDescription.value;

    trace := [ReadFile];
    var read := env.readFile(file);
    if read.Threw? {
      return ServerError(read.message), trace, record;
    }
    var buffer := read.value;

    var resumeText := "";
    if file.mimetype == PdfMime {
      trace := [ReadFile, ExtractPdf];
      var pdf := env.pdfText(buffer);
      if pdf.Threw? {
        return ServerError(pdf.message), trace, record;
      }
      resumeText := pdf.value;
    } else if file.mimetype == DocxMime {
      trace := [ReadFile, ExtractDocx];
      var html := env.docxHtml(buffer);
      if html.Threw? {
        return ServerError(html.message), trace, record;
      }
      resumeText := StripTags(html.value);
    } else {
      return Response(400, ErrorBody(UnsupportedType)), trace, record;
    }
    assert ExtractText(file.mimetype, buffer, env) == Returned(resumeText);
    response, trace, record := ScoreAndRespond(file, jobDescription, resumeText, ExtractStage(file.mimetype), env);
  }

  /**
   * The rest of `analyzeResume` once `resumeText` is known: scoring, the key
   * check, suggestions, the best-effort save that may set `resumeId`, and the
   * response.
   */
  method ScoreAndRespond(file: UploadedFile, jobDescription: string, resumeText: string, stage: Stage, env: Collaborators)
    returns (response: Response, trace: seq<Stage>, record: Option<AnalysisRecord>)
    ensures Handled(response, trace, record) == Respond(file, jobDescription, resumeText, stage, env)
  {
    trace, record := [ReadFile, stage, Scoring], None;
    var result := CalculateAtsScore(resumeText, jobDescription);

    if env.apiKey == [] {
      return Response(500, ErrorBody(KeyMissing)), trace, record;
    }

    trace := trace + [Recommending];
    var recommendations := GenerateRecommendations(resumeText, jobDescription, env.chat, env.parseJson);

    var resumeId: Option<string> := None;
    trace := trace + [Saving];
    var saved := AnalysisRecord(file.originalName, jobDescription, resumeText, result.score,
                                MatchSummary(|result.matches|, result.totalKeywords), recommendations);
    record := Some(saved);
    match env.createRecord(saved) {
      case Created(id) =>
        resumeId := Some(id);
      case SaveFailed =>
    }

    response := Response(200, Analysis(result.score, MatchSummary(|result.matches|, result.totalKeywords), recommendations, resumeId));
  }
}
