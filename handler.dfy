/** lambda_handler: read the request, check the clinical text, generate,
    extract, enrich, rank and cut, and map every raised exception to a 500
    response carrying its text. */
module Handler {
  import opened Wrappers
  import opened Text
  import opened Json
  import opened Icd10
  import opened InputValidator
  import opened PromptBuilder
  import opened Gateway
  import opened Extractor
  import opened Ranking

  /** The `body` entry of the invocation event: absent, null, or a text. */
  datatype Event = NoBody | NullBody | Body(text: string)

  /** The fields of the response body that the model keeps. */
  datatype Response =
    | BadRequest(error: string)
    | Ok(clinicalText: string, suggested: seq<EnrichedCode>, total: nat)
    | ServerError(error: string)
  {
    function Status(): int {
      match this
      case BadRequest(_) => 400
      case Ok(_, _, _) => 200
      case ServerError(_) => 500
    }
  }

  /** The response together with the generator calls made for it. */
  datatype HandlerResult = HandlerResult(response: Response, attempts: seq<Attempt>)

  /** The two request fields lambda_handler reads. */
  datatype Request = Request(clinicalText: Value, topK: Value)

  const DefaultBody: string := "{}"
  const DefaultTopK: Value := JInt(5)
  const MissingTextMessage: string := "Missing clinical_text"
  const InvalidInputPrefix: string := "Invalid input: "
  /** The TypeError json.loads raises when given None. */
  const NullBodyMessage: string := "the JSON object must be str, bytes or bytearray, not NoneType"

  /** `event.get('body', '{}')`: the text handed to json.loads, if it is one. */
  function BodyText(event: Event): (t: Option<string>)
    ensures t.None? <==> event.NullBody?
    ensures event.NoBody? ==> t == Some(DefaultBody)
    ensures event.Body? ==> t == Some(event.text)
  {
    match event
    case NoBody => Some(DefaultBody)
    case NullBody => None
    case Body(text) => Some(text)
  }

  /** `json.loads(...)` of the body, then `body.get(...)` for the two
      fields (an AttributeError when the body is not a dict). */
  function ReadRequest(event: Event, parse: Parser): (r: Result<Request, string>)
    ensures event.NullBody? ==> r == Failure(NullBodyMessage)
    ensures BodyText(event).Some? && parse(BodyText(event).value).Failure? ==>
              r == Failure(parse(BodyText(event).value).error)
    ensures BodyText(event).Some? && parse(BodyText(event).value).Success? ==>
              var v := parse(BodyText(event).value).value;
              (!v.JObject? ==> r == Failure(NoAttribute(v, "get"))) &&
              (v.JObject? ==> r == Success(Request(Get(v.fields, "clinical_text", JString("")),
                                                   Get(v.fields, "top_k", DefaultTopK))))
  {
    match BodyText(event)
    case None => Failure(NullBodyMessage)
    case Some(text) =>
      match parse(text)
      case Failure(e) => Failure(e)
      case Success(JObject(f)) => Success(Request(Get(f, "clinical_text", JString("")), Get(f, "top_k", DefaultTopK)))
      case Success(v) => Failure(NoAttribute(v, "get"))
  }

  /** str(top_k) as the f-string renders it; `render` stands for the
      rendering of floats, lists and dicts. */
  function TopKText(topK: Value, render: Value -> string): (t: string)
    ensures topK.JInt? ==> ParseInt(t) == Some(topK.i)
    ensures topK.JString? ==> t == topK.s
    ensures topK.JFloat? || topK.JArray? || topK.JObject? ==> t == render(topK)
  {
    match topK
    case JInt(i) => IntRoundTrip(i); IntToString(i)
    case JBool(b) => if b then "True" else "False"
    case JNull => "None"
    case JString(s) => s
    case _ => render(topK)
  }

  /** Everything after generation: extraction, enrichment, ranking and the
      cut to top_k; the first exception raised becomes the 500 response. */
  function Finish(reply: Result<string, string>, text: string, topK: Value, parse: Parser): (r: Response)
    ensures reply.Failure? ==> r == ServerError(reply.error)
    ensures r.BadRequest? == false
    ensures r.Ok? ==> r.clinicalText == text
  {
    match reply
    case Failure(e) => ServerError(e)
    case Success(answer) =>
      match Extract(answer, parse)
      case Failure(e) => ServerError(e)
      case Success(codes) =>
        match Suggestions(codes)
        case Failure(e) => ServerError(e)
        case Success(items) =>
          match EnrichAll(items)
          case Failure(e) => ServerError(e)
          case Success(validated) =>
            match Rank(validated)
            case Failure(e) => ServerError(e)
            case Success(ranked) =>
              match SliceLimit(topK)
              case Failure(e) => ServerError(e)
              case Success(lim) => Ok(text, Take(ranked, lim), |validated|)
  }

  /** The whole handler as a function of the event, the environment
      settings, json.loads, the two generators and the rendering of odd
      top_k values. */
  function HandleRequest(event: Event, settings: Settings, parse: Parser, primary: GenerateFn,
                         fallback: GenerateFn, render: Value -> string): (r: HandlerResult)
    ensures ReadRequest(event, parse).Failure? ==>
              r == HandlerResult(ServerError(ReadRequest(event, parse).error), [])
  {
    match ReadRequest(event, parse)
    case Failure(e) => HandlerResult(ServerError(e), [])
    case Success(req) =>
      if !Truthy(req.clinicalText) then HandlerResult(BadRequest(MissingTextMessage), [])
      else if !req.clinicalText.JString? then HandlerResult(ServerError(NoAttribute(req.clinicalText, "strip")), [])
      else
        var text := req.clinicalText.s;
        var verdict := ValidateClinicalText(text);
        if !verdict.0 then HandlerResult(ServerError(InvalidInputPrefix + verdict.1.value), [])
        else Respond(text, req.topK, settings, parse, primary, fallback, render)
  }

  /** What follows validation: generate from the built prompt, then finish
      on the reply. */
  function Respond(text: string, topK: Value, settings: Settings, parse: Parser, primary: GenerateFn,
                   fallback: GenerateFn, render: Value -> string): (r: HandlerResult)
  {
    var g := Generate(BuildPrompt(text, TopKText(topK, render)), settings, primary, fallback);
    HandlerResult(Finish(g.text, text, topK, parse), g.attempts)
  }

  /** lambda_handler itself: the append loop and the in-place sort on the
      list of validated codes. */
  method LambdaHandler(event: Event, settings: Settings, parse: Parser, primary: GenerateFn,
                       fallback: GenerateFn, render: Value -> string) returns (out: HandlerResult)
    ensures out == HandleRequest(event, settings, parse, primary, fallback, render)
  {
    var read := ReadRequest(event, parse);
    if read.Failure? { return HandlerResult(ServerError(read.error), []); }
    var req := read.value;
    if !Truthy(req.clinicalText) { return HandlerResult(BadRequest(MissingTextMessage), []); }
    if !req.clinicalText.JString? {
      return HandlerResult(ServerError(NoAttribute(req.clinicalText, "strip")), []);
    }
    var text := req.clinicalText.s;
    var verdict := ValidateClinicalText(text);
    if !verdict.0 { return HandlerResult(ServerError(InvalidInputPrefix + verdict.1.value), []); }
    var g := Generate(BuildPrompt(text, TopKText(req.topK, render)), settings, primary, fallback);
    var response := FinishReply(g.text, text, req.topK, parse);
    return HandlerResult(response, g.attempts);
  }

  /** The try block after generation: extraction, the append loop, the
      in-place sort and the cut, stopping at the first exception. */
  method FinishReply(reply: Result<string, string>, text: string, topK: Value, parse: Parser)
    returns (response: Response)
    ensures response == Finish(reply, text, topK, parse)
  {
    if reply.Failure? { return ServerError(reply.error); }
    var codes := Extract(reply.value, parse);
    if codes.Failure? { return ServerError(codes.error); }
    var items := Suggestions(codes.value);
    if items.Failure? { return ServerError(items.error); }
    var validated := EnrichSuggestions(items.value);
    if validated.Failure? { return ServerError(validated.error); }
    var list := validated.value;
    if !Orderable(list) { return ServerError(UnorderableMessage); }
    var a := new EnrichedCode[|list|](i requires 0 <= i < |list| => list[i]);
    assert a[..] == list;
    SortInPlace(a);
    var ranked := a[..];
    var lim := SliceLimit(topK);
    if lim.Failure? { return ServerError(lim.error); }
    return Ok(text, Take(ranked, lim.value), |list|);
  }

  // ---- what the handler promises ----

  /** The 400 response is given exactly when the clinical text is missing
      or falsy, and then no generator is called. */
  lemma BadRequestIffMissing(event: Event, settings: Settings, parse: Parser, primary: GenerateFn,
                             fallback: GenerateFn, render: Value -> string)
    ensures HandleRequest(event, settings, parse, primary, fallback, render).response.BadRequest? <==>
            ReadRequest(event, parse).Success? && !Truthy(ReadRequest(event, parse).value.clinicalText)
    ensures HandleRequest(event, settings, parse, primary, fallback, render).response.BadRequest? ==>
            HandleRequest(event, settings, parse, primary, fallback, render) ==
            HandlerResult(BadRequest(MissingTextMessage), [])
  {
    var r := HandleRequest(event, settings, parse, primary, fallback, render);
    match ReadRequest(event, parse)
    case Failure(_) =>
    case Success(req) =>
      if Truthy(req.clinicalText) && req.clinicalText.JString? && ValidateClinicalText(req.clinicalText.s).0 {
        var text := req.clinicalText.s;
        var g := Generate(BuildPrompt(text, TopKText(req.topK, render)), settings, primary, fallback);
        assert r.response == Finish(g.text, text, req.topK, parse);
      }
  }

  /** Text that fails validation is answered with a 500 carrying the
      validator's message, before any generator is called. */
  lemma InvalidTextNoCalls(event: Event, settings: Settings, parse: Parser, primary: GenerateFn,
                           fallback: GenerateFn, render: Value -> string, text: string, topK: Value)
    requires ReadRequest(event, parse) == Success(Request(JString(text), topK))
    requires text != "" && !ValidateClinicalText(text).0
    ensures HandleRequest(event, settings, parse, primary, fallback, render) ==
            HandlerResult(ServerError(InvalidInputPrefix + ValidateClinicalText(text).1.value), [])
  {
    assert Truthy(JString(text));
  }

  /** A truthy clinical_text that is not a string fails at `.strip()` with
      the AttributeError, before any generator is called. */
  lemma NonStringTextFails(event: Event, settings: Settings, parse: Parser, primary: GenerateFn,
                           fallback: GenerateFn, render: Value -> string, req: Request)
    requires ReadRequest(event, parse) == Success(req)
    requires Truthy(req.clinicalText) && !req.clinicalText.JString?
    ensures HandleRequest(event, settings, parse, primary, fallback, render) ==
            HandlerResult(ServerError(NoAttribute(req.clinicalText, "strip")), [])
  {
  }

  /** Generators are called exactly when the request held a string that
      passed validation; then the primary is called with the built prompt. */
  lemma CallsIffValid(event: Event, settings: Settings, parse: Parser, primary: GenerateFn,
                      fallback: GenerateFn, render: Value -> string)
    ensures var r := HandleRequest(event, settings, parse, primary, fallback, render);
            var read := ReadRequest(event, parse);
            (r.attempts != [] <==>
               read.Success? && read.value.clinicalText.JString? && ValidateClinicalText(read.value.clinicalText.s).0) &&
            (r.attempts != [] ==>
               r.attempts[0].prompt == BuildPrompt(read.value.clinicalText.s, TopKText(read.value.topK, render)) &&
               r.attempts[0].generator == Primary)
  {
    var read := ReadRequest(event, parse);
    if read.Success? && read.value.clinicalText.JString? && ValidateClinicalText(read.value.clinicalText.s).0 {
      var text := read.value.clinicalText.s;
      assert |Strip(text)| >= MinLength;
      assert Truthy(read.value.clinicalText);
    }
  }

  /** A 500 after generation carries the error of the first stage that
      failed: generation, extraction, iteration, enrichment, sort or slice. */
  lemma FinishFails(reply: Result<string, string>, text: string, topK: Value, parse: Parser)
    requires Finish(reply, text, topK, parse).ServerError?
    ensures var e := Finish(reply, text, topK, parse).error;
            if reply.Failure? then e == reply.error else
            var codes := Extract(reply.value, parse);
            if codes.Failure? then e == codes.error else
            var items := Suggestions(codes.value);
            if items.Failure? then e == items.error else
            var validated := EnrichAll(items.value);
            if validated.Failure? then e == validated.error else
            if Rank(validated.value).Failure? then e == Rank(validated.value).error else
            SliceLimit(topK).Failure? && e == SliceLimit(topK).error
  {
  }

  /** A 200 comes exactly when every stage after generation succeeds; the
      answer is never a 400, so every other outcome is a 500. */
  lemma FinishOkIff(reply: Result<string, string>, text: string, topK: Value, parse: Parser)
    ensures Finish(reply, text, topK, parse).Ok? <==>
            reply.Success? &&
            var codes := Extract(reply.value, parse);
            codes.Success? &&
            var items := Suggestions(codes.value);
            items.Success? &&
            var validated := EnrichAll(items.value);
            validated.Success? && Rank(validated.value).Success? && SliceLimit(topK).Success?
    ensures Finish(reply, text, topK, parse).Ok? || Finish(reply, text, topK, parse).ServerError?
  {
  }

  /** A successful response lists suggestions in descending confidence, no
      more than were produced, each with the shape check's verdict on its
      code; a non-negative integer top_k cuts the list to that length. */
  lemma {:induction false} FinishOk(reply: Result<string, string>, text: string, topK: Value, parse: Parser)
    requires Finish(reply, text, topK, parse).Ok?
    ensures var r := Finish(reply, text, topK, parse);
            Descending(r.suggested) && |r.suggested| <= r.total &&
            FlagsAgree(r.suggested) &&
            (topK.JInt? && topK.i >= 0 ==> |r.suggested| == (if topK.i <= r.total then topK.i else r.total))
  {
    var r := Finish(reply, text, topK, parse);
    var enriched := Suggestions(Extract(reply.value, parse).value).value;
    var validated := EnrichAll(enriched).value;
    var ranked := Rank(validated).value;
    var lim := SliceLimit(topK).value;
    assert r == Ok(text, Take(ranked, lim), |validated|);
    RankSorts(validated);
    TakeKeepsBest(ranked, lim);
    EnrichedFlags(enriched);
    RankKeepsFlags(validated);
    TakeKeepsFlags(ranked, lim);
  }

  /** A successful response counts every validated record and lists the
      ranked records cut to top_k: nothing is invented, dropped from the
      middle or reordered after ranking. */
  lemma FinishRanks(reply: Result<string, string>, text: string, topK: Value, parse: Parser)
    requires Finish(reply, text, topK, parse).Ok?
    ensures reply.Success? && Extract(reply.value, parse).Success?
    ensures Suggestions(Extract(reply.value, parse).value).Success?
    ensures var validated := EnrichAll(Suggestions(Extract(reply.value, parse).value).value);
            var r := Finish(reply, text, topK, parse);
            validated.Success? && Rank(validated.value).Success? && SliceLimit(topK).Success? &&
            r.total == |validated.value| && r.suggested == Take(Rank(validated.value).value, SliceLimit(topK).value)
  {
  }

  /** The success guarantees of lambda_handler, for any request. */
  lemma SuccessShape(event: Event, settings: Settings, parse: Parser, primary: GenerateFn,
                     fallback: GenerateFn, render: Value -> string)
    requires HandleRequest(event, settings, parse, primary, fallback, render).response.Ok?
    ensures var r := HandleRequest(event, settings, parse, primary, fallback, render).response;
            var req := ReadRequest(event, parse).value;
            ReadRequest(event, parse).Success? && req.clinicalText == JString(r.clinicalText) &&
            Descending(r.suggested) && |r.suggested| <= r.total &&
            FlagsAgree(r.suggested) &&
            (req.topK.JInt? && req.topK.i >= 0 ==> |r.suggested| == (if req.topK.i <= r.total then req.topK.i else r.total))
  {
    var req := ReadRequest(event, parse).value;
    var text := req.clinicalText.s;
    var g := Generate(BuildPrompt(text, TopKText(req.topK, render)), settings, primary, fallback);
    FinishOk(g.text, text, req.topK, parse);
  }

  /** A suggestion the pipeline can rank: a dict with a string code and a
      numeric confidence. */
  predicate WellFormedItem(item: Value) {
    item.JObject? && Get(item.fields, "code", JString("")).JString? &&
    IsNumber(Get(item.fields, "confidence", DefaultConfidence))
  }

  /** A 200 response echoing the text, counting all the validated records
      and listing the first min(k, n) of their stable descending sort. */
  predicate RankedAnswer(r: Response, text: string, validated: seq<EnrichedCode>, k: int) {
    r.Ok? && r.clinicalText == text && r.total == |validated| &&
    r.suggested == Take(SortByConfidence(validated), Upto(k)) &&
    |r.suggested| == (if k <= |validated| then k else |validated|) && Descending(r.suggested)
  }

  /** The path of a good request: valid text, a generated reply that
      decodes to a list of well-formed suggestions, and top_k = k >= 0 give a
      200 response with all of them counted and the best min(k, n) listed. */
  lemma SuccessPath(event: Event, settings: Settings, parse: Parser, primary: GenerateFn,
                    fallback: GenerateFn, render: Value -> string, text: string, k: int,
                    reply: string, items: seq<Value>)
    requires ReadRequest(event, parse) == Success(Request(JString(text), JInt(k))) && k >= 0
    requires ValidateClinicalText(text).0
    requires Generate(BuildPrompt(text, IntToString(k)), settings, primary, fallback).text == Success(reply)
    requires parse(reply) == Success(JArray(items))
    requires forall i :: 0 <= i < |items| ==> WellFormedItem(items[i])
    ensures EnrichAll(items).Success? && |EnrichAll(items).value| == |items|
    ensures RankedAnswer(HandleRequest(event, settings, parse, primary, fallback, render).response, text,
                         EnrichAll(items).value, k)
  {
    HandleValid(event, settings, parse, primary, fallback, render, text, JInt(k));
    RespondPath(text, k, settings, parse, primary, fallback, render, reply, items);
  }

  /** The same path from the validated text on. */
  lemma RespondPath(text: string, k: int, settings: Settings, parse: Parser, primary: GenerateFn,
                    fallback: GenerateFn, render: Value -> string, reply: string, items: seq<Value>)
    requires k >= 0
    requires Generate(BuildPrompt(text, IntToString(k)), settings, primary, fallback).text == Success(reply)
    requires parse(reply) == Success(JArray(items))
    requires forall i :: 0 <= i < |items| ==> WellFormedItem(items[i])
    ensures EnrichAll(items).Success? && |EnrichAll(items).value| == |items|
    ensures RankedAnswer(Respond(text, JInt(k), settings, parse, primary, fallback, render).response, text,
                         EnrichAll(items).value, k)
  {
    IntTopKText(k, render);
    var g := Generate(BuildPrompt(text, TopKText(JInt(k), render)), settings, primary, fallback);
    FinishPath(g.text, text, k, parse, items);
  }

  /** An integer top_k is spliced into the prompt as its decimal text. */
  lemma IntTopKText(k: int, render: Value -> string)
    ensures TopKText(JInt(k), render) == IntToString(k)
  {
  }

  /** Once the text passes validation the response is what the chain makes
      of the generated reply. */
  lemma HandleValid(event: Event, settings: Settings, parse: Parser, primary: GenerateFn,
                    fallback: GenerateFn, render: Value -> string, text: string, topK: Value)
    requires ReadRequest(event, parse) == Success(Request(JString(text), topK))
    requires ValidateClinicalText(text).0
    ensures HandleRequest(event, settings, parse, primary, fallback, render) ==
            Respond(text, topK, settings, parse, primary, fallback, render)
  {
    assert text != "" by { assert |Strip(text)| >= MinLength; }
    assert Truthy(JString(text));
  }

  /** The post-generation chain on a reply that decodes to well-formed
      suggestions. */
  lemma FinishPath(reply: Result<string, string>, text: string, k: int, parse: Parser, items: seq<Value>)
    requires k >= 0 && reply.Success? && parse(reply.value) == Success(JArray(items))
    requires forall i :: 0 <= i < |items| ==> WellFormedItem(items[i])
    ensures EnrichAll(items).Success? && |EnrichAll(items).value| == |items|
    ensures RankedAnswer(Finish(reply, text, JInt(k), parse), text, EnrichAll(items).value, k)
  {
    assert Extract(reply.value, parse) == Success(JArray(items));
    EnrichAllSucceeds(items);
    var validated := EnrichAll(items).value;
    assert Orderable(validated) by {
      forall i | 0 <= i < |validated| ensures IsNumber(validated[i].confidence) {
        assert Success(validated[i]) == EnrichItem(items[i]);
      }
    }
    FinishOk(reply, text, JInt(k), parse);
    FinishRanks(reply, text, JInt(k), parse);
  }

  /** Without top_k, five suggestions are asked for and at most five are kept. */
  lemma DefaultTopKIsFive(event: Event, parse: Parser, render: Value -> string)
    requires BodyText(event).Some? && parse(BodyText(event).value).Success?
    requires parse(BodyText(event).value).value.JObject?
    requires "top_k" !in parse(BodyText(event).value).value.fields
    ensures ReadRequest(event, parse).value.topK == JInt(5)
    ensures TopKText(JInt(5), render) == "5"
    ensures forall s: seq<EnrichedCode> :: |Take(s, SliceLimit(JInt(5)).value)| <= 5
  {
  }
}
