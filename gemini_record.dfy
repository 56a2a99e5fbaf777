/** The serverless conversion endpoint (functions/api/gemini-record.js): which response a request
    gets. The request body, as far as JSON parsing got, and the answer of the generative-language
    service are inputs; the endpoint decides whether to call the service and with which prompt,
    and how to turn the service's answer into a response. */
module GeminiRecord {
  import opened Wrappers
  import opened Text

  /** The fields of the request body the endpoint reads; a field that is absent or not a string
      is `None`. */
  datatype Body = Body(kind: Option<string>, helpDescription: Option<string>, coreLearning: Option<string>,
                       learningProcess: Option<seq<string>>)

  /** `method`, the configured key, and the body (`None` when it is not JSON). */
  datatype Request = Request(httpMethod: string, apiKey: Option<string>, body: Option<Body>)

  /** The prompt sent to the service: the help description, or the core learning with the
      attitude text. */
  datatype Prompt = HelpPrompt(description: string) | LearningPrompt(coreLearning: string, attitude: string)

  /** One candidate of the service's answer: the texts of its parts, `None` where the content or
      its parts are missing; a part without text is `None`. */
  datatype Candidate = Candidate(parts: Option<seq<Option<string>>>)

  /** What the call to the service gave: an exception, or an answer with its status and
      candidates (`None` when there are none at all). */
  datatype Upstream = Threw | Answer(status: int, candidates: Option<seq<Candidate>>)

  /** `response.ok`: a status from 200 to 299. */
  predicate IsOk(status: int) {
    200 <= status <= 299
  }

  datatype ResponseBody = NoBody | ErrorBody(error: string) | Converted(text: string)

  datatype Response = Response(status: int, body: ResponseBody)

  /** Either a response straight away, or a call to the service with this prompt. */
  datatype Step = Respond(response: Response) | Call(prompt: Prompt)

  const MethodNotAllowed := "Method not allowed"
  const NoKey := "API key not configured"
  const NoHelpDescription := "helpDescription is required"
  const NoCoreLearning := "coreLearning is required"
  const InvalidType := "Invalid type. Use \"help\" or \"learning\""
  const ServiceError := "Gemini API error"
  const EmptyAnswer := "Empty response from AI"
  const InternalError := "Internal server error"
  const NoProcess := "없음"

  /** `parts.join(', ')`. */
  function JoinComma(parts: seq<string>): string {
    if parts == [] then ""
    else if |parts| == 1 then parts[0]
    else JoinComma(parts[..|parts| - 1]) + ", " + parts[|parts| - 1]
  }

  /** The attitude line: the selected processes joined by ", ", or "없음" when none. */
  function AttitudeText(learningProcess: Option<seq<string>>): (r: string)
    ensures learningProcess.None? || learningProcess.value == [] ==> r == NoProcess
    ensures learningProcess.Some? && |learningProcess.value| == 1 ==> r == learningProcess.value[0]
  {
    if learningProcess.Some? && |learningProcess.value| > 0 then JoinComma(learningProcess.value) else NoProcess
  }

  /** Joining one more process adds ", " and that process at the end, and the joined text
      begins with the first process. */
  lemma {:induction false} JoinCommaSnoc(parts: seq<string>, x: string)
    requires parts != []
    ensures JoinComma(parts + [x]) == JoinComma(parts) + ", " + x
    ensures StartsWith(JoinComma(parts + [x]), parts[0])
  {
    var all := parts + [x];
    assert all[..|all| - 1] == parts;
    JoinCommaStarts(parts);
    var j := JoinComma(parts);
    assert (j + ", " + x)[..|j|] == j;
  }

  lemma {:induction false} JoinCommaStarts(parts: seq<string>)
    requires parts != []
    ensures StartsWith(JoinComma(parts), parts[0])
  {
    if |parts| > 1 {
      var init := parts[..|parts| - 1];
      JoinCommaStarts(init);
      var j := JoinComma(init);
      assert init[0] == parts[0];
      assert (j + ", " + parts[|parts| - 1])[..|parts[0]|] == j[..|parts[0]|];
    }
  }

  /** The first stage of onRequest, up to the call to the service. */
  function Admit(req: Request): (s: Step)
    ensures req.httpMethod == "OPTIONS" ==> s == Respond(Response(200, NoBody))
    ensures req.httpMethod != "OPTIONS" && req.httpMethod != "POST" ==> s == Respond(Response(405, ErrorBody(MethodNotAllowed)))
    ensures req.httpMethod == "POST" && !Truthy(req.apiKey) ==> s == Respond(Response(500, ErrorBody(NoKey)))
    ensures s.Call? <==>
      && req.httpMethod == "POST" && Truthy(req.apiKey) && req.body.Some?
      && ((req.body.value.kind == Some("help") && Truthy(req.body.value.helpDescription))
          || (req.body.value.kind == Some("learning") && Truthy(req.body.value.coreLearning)))
    ensures s.Respond? && req.httpMethod != "OPTIONS" ==> s.response.status in {400, 405, 500}
  {
    if req.httpMethod == "OPTIONS" then Respond(Response(200, NoBody))
    else if req.httpMethod != "POST" then Respond(Response(405, ErrorBody(MethodNotAllowed)))
    else if !Truthy(req.apiKey) then Respond(Response(500, ErrorBody(NoKey)))
    else if req.body.None? then Respond(Response(500, ErrorBody(InternalError)))
    else
      var b := req.body.value;
      if b.kind == Some("help") then
        if !Truthy(b.helpDescription) then Respond(Response(400, ErrorBody(NoHelpDescription)))
        else Call(HelpPrompt(b.helpDescription.value))
      else if b.kind == Some("learning") then
        if !Truthy(b.coreLearning) then Respond(Response(400, ErrorBody(NoCoreLearning)))
        else Call(LearningPrompt(b.coreLearning.value, AttitudeText(b.learningProcess)))
      else Respond(Response(400, ErrorBody(InvalidType)))
  }

  /** The second stage: the service's answer turned into the response. */
  function Finish(up: Upstream): (r: Response)
    ensures up.Answer? && !IsOk(up.status) ==> r.status == up.status && r.body == ErrorBody(ServiceError)
    ensures r.status == 200 <==> r.body.Converted?
    ensures r.body.Converted? <==>
      && up.Answer? && IsOk(up.status) && up.candidates.Some? && |up.candidates.value| > 0
      && up.candidates.value[0].parts.Some? && |up.candidates.value[0].parts.value| > 0
      && up.candidates.value[0].parts.value[0].Some?
    ensures r.body.Converted? ==> r.body.text == Trim(up.candidates.value[0].parts.value[0].value)
  {
    match up
    case Threw => Response(500, ErrorBody(InternalError))
    case Answer(status, candidates) =>
      if !IsOk(status) then Response(status, ErrorBody(ServiceError))
      else if candidates.Some? && |candidates.value| > 0 && candidates.value[0].parts.Some? && |candidates.value[0].parts.value| > 0 then
        var part := candidates.value[0].parts.value[0];
        if part.Some? then Response(200, Converted(Trim(part.value)))
        // `.text.trim()` on a missing text throws
        else Response(500, ErrorBody(InternalError))
      else Response(500, ErrorBody(EmptyAnswer))
  }

  /** onRequest: the first stage, and the second when the service is called. */
  function OnRequest(req: Request, up: Upstream): (r: Response)
    ensures r.status == 200 ==> req.httpMethod in {"OPTIONS", "POST"}
    ensures r.status == 200 && req.httpMethod == "POST" ==> Truthy(req.apiKey) && r.body.Converted?
  {
    match Admit(req)
    case Respond(response) => response
    case Call(_) => Finish(up)
  }

  /** The OPTIONS preflight and a wrong method are answered before anything else, and a missing
      key before the body is looked at: neither the key, the body nor the service changes the
      answer. */
  lemma EarlyAnswers(req: Request, other: Request, up: Upstream, up2: Upstream)
    requires req.httpMethod == other.httpMethod
    requires req.httpMethod != "POST" || (!Truthy(req.apiKey) && !Truthy(other.apiKey))
    ensures OnRequest(req, up) == OnRequest(other, up2)
  {
  }

  /** A request that reaches the service ends in its status when the service fails, and in 200
      with the trimmed first text when it answers with one. */
  lemma ServiceOutcomes(req: Request, status: int, text: string, rest: seq<Candidate>)
    requires Admit(req).Call?
    ensures !IsOk(status) ==> OnRequest(req, Answer(status, None)).status == status
    ensures IsOk(status) ==> OnRequest(req, Answer(status, Some([Candidate(Some([Some(text)]))] + rest))) == Response(200, Converted(Trim(text)))
    ensures IsOk(status) ==> OnRequest(req, Answer(status, None)) == Response(500, ErrorBody(EmptyAnswer))
    ensures OnRequest(req, Threw).status == 500
  {
  }

  /** The learning prompt carries the attitude text. */
  lemma LearningPromptAttitude(core: string, processes: seq<string>, key: string)
    requires core != "" && key != ""
    ensures var req := Request("POST", Some(key), Some(Body(Some("learning"), None, Some(core), Some(processes))));
      Admit(req) == Call(LearningPrompt(core, if processes == [] then NoProcess else JoinComma(processes)))
  {
  }
}
