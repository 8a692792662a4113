/**
 The adapter end to end: a client that decodes what the adapter wrote gets exactly the
 dispatcher's response, for every well-formed request and whatever follows it.
 */
module FnEndToEnd {
  import opened Options
  import opened Text
  import opened Utf8
  import opened Numerals
  import opened Json
  import opened Dispatch
  import opened HttpReader
  import opened HeaderFields
  import opened HttpSyntax
  import opened HttpGrammar
  import opened HttpFraming
  import opened HttpFailures
  import opened HttpRefusals
  import opened HttpWriter
  import opened HttpClient
  import opened RequestId
  import opened RequestTarget
  import opened FnAdapter
  import opened FnMeaning

  // ---- one response ----

  const TRANSPORT_NAMES := {"content-length", "connection", "fn-http-status", "fn-fdk-version"}

  /**
   What an Fn client makes of the bytes: the outer status and, from `fn-http-status`, the
   remaining headers and the JSON body, the function's response. Nothing may be left over.
   */
  function Recover(s: bytes, codec: Codec): Option<(nat, FunctionResponse)> {
    match ReadResponse(s)
    case Failed(_) => None
    case Done(r, rest) =>
      if rest != [] || "fn-http-status" !in r.headers then None
      else
        match (ParseUsize(r.headers["fn-http-status"], 10), codec.parse(r.body))
        case (Some(status), Some(value)) =>
          Some((r.status, FunctionResponse(status, r.headers - TRANSPORT_NAMES, value)))
        case _ => None
  }

  /** The shape of every response the adapter builds. */
  ghost predicate WellMade(response: FunctionResponse) {
    && CleanHeaders(response.headers) && |response.headers| <= 4
    && "content-type" in response.headers
    && response.headers.Keys !! TRANSPORT_NAMES
    && response.statusCode <= USIZE_MAX
    && forall n :: n in response.headers ==> |Encode(FieldText(Field(n, response.headers[n])))| <= 8000
  }

  lemma TransportFieldsAreClean(status: nat)
    requires status <= USIZE_MAX
    ensures CleanName("fn-http-status") && CleanValue(Decimal(status))
    ensures CleanName("fn-fdk-version") && CleanValue(ADAPTER_VERSION)
    ensures |Encode(FieldText(Field("fn-http-status", Decimal(status))))| <= 8000
    ensures |Encode(FieldText(Field("fn-fdk-version", ADAPTER_VERSION)))| <= 8000
  {
    hide Numeral, Encode, FieldText, CleanValue, CleanName;
    NumeralIsClean(status, 10);
    DecimalShort(status);
    TransportNamesAreClean();
    WordIsClean(ADAPTER_VERSION);
    WordIsClean(Decimal(status));
    ShortFieldFits("fn-http-status", Decimal(status));
    ShortFieldFits("fn-fdk-version", ADAPTER_VERSION);
  }

  lemma TransportNamesAreClean()
    ensures CleanName("fn-http-status") && CleanName("fn-fdk-version")
  {}

  lemma StandardNamesAreClean()
    ensures CleanName("cache-control") && CleanName("content-type") && CleanName("x-request-id") && CleanName("allow")
  {}

  lemma ShortFieldFits(name: string, value: string)
    requires |name| + |value| <= 500
    ensures |Encode(FieldText(Field(name, value)))| <= 8000
  {
    hide Encode;
    EncodeLength(FieldText(Field(name, value)));
  }

  lemma FnHeadersOf(response: FunctionResponse)
    requires "content-type" in response.headers && response.headers.Keys !! TRANSPORT_NAMES
    ensures FnHeaders(response)
         == response.headers["fn-http-status" := Decimal(response.statusCode)]["fn-fdk-version" := ADAPTER_VERSION]
  {
    assert response.headers - {"content-length", "connection"} == response.headers;
  }

  lemma FnHeadersReadable(outer: nat, response: FunctionResponse, length: nat)
    requires WellMade(response) && outer <= USIZE_MAX && length <= USIZE_MAX
    ensures CleanHeaders(FnHeaders(response)) && Bounded(outer, FnHeaders(response), length)
    ensures "content-length" !in FnHeaders(response) && "connection" !in FnHeaders(response)
  {
    hide Encode, Numeral, CleanName, CleanValue, FnHeaders, FieldText, Bounded;
    FnHeadersOf(response);
    TransportFieldsAreClean(response.statusCode);
    SmallIsReadable(outer, FnHeaders(response), length);
  }

  /** The written bytes decode to the outer status and the response, exactly. */
  lemma DeliveryRoundTrip(outer: nat, response: FunctionResponse, codec: Codec)
    requires WellMade(response) && codec.Lossless(response.body) && outer <= USIZE_MAX
    ensures Recover(FnResponseBytes(outer, response, codec), codec) == Some((outer, response))
  {
    hide ReadResponse, ResponseBytes, ParseUsize, Numeral, FnHeaders, Bounded, CleanHeaders, Encode, FieldText;
    var body := codec.Print(response.body);
    FnHeadersReadable(outer, response, |body|);
    FnHeadersOf(response);
    CleanResponseReads(outer, FnHeaders(response), body, []);
    var written := FnResponseBytes(outer, response, codec);
    assert written + [] == written;
    ParseOfNumeral(response.statusCode, 10);
    var sent := SentHeaders(FnHeaders(response), |body|);
    assert sent - TRANSPORT_NAMES == response.headers;
  }

  /** The bytes a client gets, transport headers and all; a body that cannot be printed is replaced. */
  lemma SentAsSaid(outer: nat, response: FunctionResponse, codec: Codec)
    requires WellMade(response) && outer <= USIZE_MAX && |codec.Print(response.body)| <= ISIZE_MAX
    ensures var body := match codec.render(response.body)
                        case Some(text) => text
                        case None => Encode("{\"error\":\"serialization_failed\"}");
            ReadResponse(FnResponseBytes(outer, response, codec))
              == Done(Response(
                        outer,
                        response.headers["fn-http-status" := Decimal(response.statusCode)]
                                        ["fn-fdk-version" := "scintilla-rust/0.3.0"]
                                        ["content-length" := Decimal(|body|)]["connection" := "close"],
                        body), [])
  {
    hide ReadResponse, ResponseBytes, Numeral, FnHeaders, Bounded, CleanHeaders, Encode, FieldText;
    var body := codec.Print(response.body);
    FnHeadersReadable(outer, response, |body|);
    FnHeadersOf(response);
    CleanResponseReads(outer, FnHeaders(response), body, []);
    assert FnResponseBytes(outer, response, codec) + [] == FnResponseBytes(outer, response, codec);
  }

  // ---- every answer is well made ----

  /** What a route must declare for its 405 answers to survive the trip. */
  predicate SpecDeliverable(spec: RouteSpec) {
    CleanValue(spec.method') && |Encode(spec.method')| <= 7000
  }

  lemma PlainFieldFits(name: string, value: string)
    requires |Encode(name)| <= 100 && |Encode(value)| <= 7000
    ensures |Encode(FieldText(Field(name, value)))| <= 8000
  {
    hide Encode;
    EncodeConcat(name + ": ", value);
    EncodeConcat(name, ": ");
    EncodeLength(": ");
  }

  lemma StandardFields(requestId: string)
    requires IsRequestId(requestId)
    ensures CleanName("cache-control") && CleanName("content-type") && CleanName("x-request-id") && CleanName("allow")
    ensures CleanValue("no-store") && CleanValue("application/json") && CleanValue(requestId)
    ensures |Encode(FieldText(Field("cache-control", "no-store")))| <= 8000
    ensures |Encode(FieldText(Field("content-type", "application/json")))| <= 8000
    ensures |Encode(FieldText(Field("x-request-id", requestId)))| <= 8000
  {
    hide Encode, FieldText, CleanValue, CleanName;
    StandardNamesAreClean();
    WordIsClean("no-store");
    WordIsClean("application/json");
    WordIsClean(requestId);
    ShortFieldFits("cache-control", "no-store");
    ShortFieldFits("content-type", "application/json");
    ShortFieldFits("x-request-id", requestId);
  }

  lemma BaseIsWellMade(statusCode: nat, requestId: string, body: Value)
    requires IsRequestId(requestId) && statusCode <= USIZE_MAX
    ensures WellMade(FunctionResponse(statusCode, PlainHeaders(requestId), body))
  {
    hide Encode, CleanName, CleanValue, FieldText;
    StandardFields(requestId);
  }

  /** One more clean entry under a name that the transport does not use keeps an answer well made. */
  lemma OneMoreHeader(statusCode: nat, base: Headers, body: Value, name: string, value: string)
    requires WellMade(FunctionResponse(statusCode, base, body)) && |base| <= 3
    requires CleanName(name) && CleanValue(value) && |Encode(FieldText(Field(name, value)))| <= 8000
    requires name !in TRANSPORT_NAMES
    ensures WellMade(FunctionResponse(statusCode, base[name := value], body))
  {
    hide Encode, CleanName, CleanValue, FieldText;
    assert base[name := value].Keys == base.Keys + {name};
  }

  lemma AllowIsWellMade(statusCode: nat, requestId: string, body: Value, allow: string)
    requires IsRequestId(requestId) && statusCode <= USIZE_MAX
    requires CleanValue(allow) && |Encode(allow)| <= 7000
    ensures WellMade(FunctionResponse(statusCode, PlainHeaders(requestId)["allow" := allow], body))
  {
    hide Encode, CleanName, CleanValue, FieldText, WellMade, PlainHeaders, IsRequestId;
    StandardFields(requestId);
    AllowFits(allow);
    BaseIsWellMade(statusCode, requestId, body);
    ThreePlainHeaders(requestId);
    AllowIsNotTransport();
    OneMoreHeader(statusCode, PlainHeaders(requestId), body, "allow", allow);
  }

  lemma AllowIsNotTransport()
    ensures "allow" !in TRANSPORT_NAMES
  {}

  lemma ThreePlainHeaders(requestId: string)
    ensures |PlainHeaders(requestId)| <= 3
  {
    assert PlainHeaders(requestId).Keys == {"cache-control", "content-type", "x-request-id"};
  }

  lemma AllowFits(allow: string)
    requires |Encode(allow)| <= 7000
    ensures |Encode(FieldText(Field("allow", allow)))| <= 8000
  {
    EncodeLength("allow");
    hide Encode;
    PlainFieldFits("allow", allow);
  }

  lemma DispatchIsWellMade(request: FunctionRequest, spec: RouteSpec)
    requires IsRequestId(request.requestId) && SpecDeliverable(spec)
    ensures WellMade(DispatchRequest(request, spec))
  {
    hide WellMade, HasRequiredValue, Lower, Encode, CleanValue;
    var response := DispatchRequest(request, spec);
    if response.statusCode == 405 {
      AllowIsWellMade(405, request.requestId, response.body, spec.method');
      assert response.headers == PlainHeaders(request.requestId)["allow" := spec.method'];
    } else {
      BaseIsWellMade(response.statusCode, request.requestId, response.body);
      assert response.headers == PlainHeaders(request.requestId);
    }
  }

  lemma AnswerIsWellMade(request: ParsedRequest, spec: RouteSpec, codec: Codec, freshId: string)
    requires IsRequestId(freshId) && SpecDeliverable(spec)
    ensures WellMade(Answer(request, spec, codec, freshId))
  {
    hide WellMade, DecodePayload, DispatchRequest, RequestMethod, RequestPathOf, ContentType, SpecDeliverable,
         SuppliedId;
    var (decoded, normalized) := Normalize(request, spec, codec, freshId);
    if decoded.Payload? {
      DispatchIsWellMade(normalized, spec);
    } else {
      BaseIsWellMade(400, normalized.requestId, ErrorBody(decoded.code));
    }
  }

  lemma HandledIsWellMade(input: bytes, spec: RouteSpec, codec: Codec, freshId: string)
    requires IsRequestId(freshId) && SpecDeliverable(spec)
    ensures var handled := Handle(input, spec, codec, freshId);
            handled.Answered? ==> WellMade(handled.response)
  {
    hide WellMade, Answer, SpecDeliverable, ReadRequest;
    var r := ReadRequest(input, spec.maxEventBytes);
    if r.Failed? {
      BaseIsWellMade(413, freshId, TooLargeBody(spec));
      BaseIsWellMade(500, freshId, ErrorBody("fn_request_read_failed"));
      if r.error.BadRequest? {
        BaseIsWellMade(400, freshId, ErrorBody(r.error.code));
      }
    } else if r.value.Some? {
      AnswerIsWellMade(r.value.value, spec, codec, freshId);
    }
  }

  // ---- whole connections ----

  /**
   For every well-formed message, followed by anything, the client recovers outer status 200
   and exactly the answer to what the message says: its status, headers and body.
   */
  lemma EndToEnd(m: Message, tail: bytes, spec: RouteSpec, codec: Codec, freshId: string) returns (u: Caller)
    requires WellFormed(m, spec.maxEventBytes)
    requires IsRequestId(freshId) && SpecDeliverable(spec)
    requires codec.Lossless(Answer(Denote(m), spec, codec, freshId).body)
    ensures var output := Written(Handle(Render(m) + tail, spec, codec, freshId), codec);
            Recover(output, codec) == Some((200, Answer(Denote(m), spec, codec, freshId)))
    ensures Understood(Denote(m), spec, codec, freshId, u)
    ensures AnswersWell(Answer(Denote(m), spec, codec, freshId), u, |BodyOf(m.body)|, spec)
  {
    assert Denote(m).body == BodyOf(m.body);
    hide ValidHead, FramedAs, HeadersOf, BodyOf, Render, Handle, Written, Answer, Recover, SpecDeliverable, Understood,
         AnswersWell, Denote;
    MessageDelivered(m, tail, spec, codec, freshId);
    u := Understand(Denote(m), spec, codec, freshId);
    AnsweredAsUnderstood(Denote(m), spec, codec, freshId, u);
  }

  lemma MessageDelivered(m: Message, tail: bytes, spec: RouteSpec, codec: Codec, freshId: string)
    requires WellFormed(m, spec.maxEventBytes)
    requires IsRequestId(freshId) && SpecDeliverable(spec)
    requires codec.Lossless(Answer(Denote(m), spec, codec, freshId).body)
    ensures var output := Written(Handle(Render(m) + tail, spec, codec, freshId), codec);
            Recover(output, codec) == Some((200, Answer(Denote(m), spec, codec, freshId)))
  {
    hide ValidHead, FramedAs, HeadersOf, BodyOf, Render, ReadRequest, Answer, Recover, FnResponseBytes, SpecDeliverable,
         WellMade;
    var request := Denote(m);
    ReaderComplete(m, tail, spec.maxEventBytes);
    AnswerIsWellMade(request, spec, codec, freshId);
    DeliveryRoundTrip(200, Answer(request, spec, codec, freshId), codec);
  }

  /**
   Every connection is classified: nothing is written exactly when nothing was sent;
   otherwise exactly one complete response is, under 502 exactly when reading failed with
   an I/O error and under 200 in every other case.
   */
  lemma TotalClassification(input: bytes, spec: RouteSpec, codec: Codec, freshId: string)
    requires spec.maxEventBytes <= ISIZE_MAX
    requires IsRequestId(freshId) && SpecDeliverable(spec)
    requires var handled := Handle(input, spec, codec, freshId);
             handled.Answered? ==> codec.Lossless(handled.response.body)
    ensures var handled := Handle(input, spec, codec, freshId);
            var output := Written(handled, codec);
            && !handled.Crashed?
            && (output == [] <==> input == [])
            && (input != [] ==> handled.Answered? && Recover(output, codec) == Some((handled.outer, handled.response)))
            && (input != [] ==>
                  handled.outer == if ReadRequest(input, spec.maxEventBytes) == Failed(Io) then 502 else 200)
  {
    hide ReadRequest, Answer, Recover, FnResponseBytes, SpecDeliverable, WellMade;
    RequestDoesNotPanic(input, spec.maxEventBytes);
    SilentIffEmpty(input, spec.maxEventBytes);
    HandledIsWellMade(input, spec, codec, freshId);
    var handled := Handle(input, spec, codec, freshId);
    if handled.Answered? {
      DeliveryRoundTrip(handled.outer, handled.response, codec);
      EmptyRecoversNothing(codec);
    }
  }

  /** What the adapter answers when it could not read a request. */
  function FailureAnswer(error: ReadError, spec: RouteSpec, freshId: string): (nat, FunctionResponse) {
    match error
    case Io =>
      (502, FunctionResponse(500, PlainHeaders(freshId), Object(map["error" := Value.Text("fn_request_read_failed")])))
    case BadRequest(code) =>
      (200, FunctionResponse(400, PlainHeaders(freshId), Object(map["error" := Value.Text(code)])))
    case TooLarge =>
      (200, FunctionResponse(413, PlainHeaders(freshId),
                             Object(map["error" := Value.Text("event_too_large"),
                                        "max_bytes" := Number(spec.maxEventBytes as real)])))
    case Panic => (0, FunctionResponse(0, map[], Null))
  }

  /** What was wrong with the input, of all the things that can be. */
  ghost predicate WentWrong(input: bytes, max: nat, error: ReadError) {
    if error == Io then exists b, after :: BreaksAs(input, max, b, after) else Refusal(input, max, error)
  }

  /**
   For every input that is no request, the client recovers the answer to what is wrong with
   it: 502 and 500 for a broken stream, 413 with the limit, or 400 with the code.
   */
  lemma FailuresAnswered(input: bytes, spec: RouteSpec, codec: Codec, freshId: string, error: ReadError)
    requires WentWrong(input, spec.maxEventBytes, error) && error != Panic
    requires IsRequestId(freshId) && SpecDeliverable(spec)
    requires codec.Lossless(FailureAnswer(error, spec, freshId).1.body)
    ensures Recover(Written(Handle(input, spec, codec, freshId), codec), codec)
         == Some(FailureAnswer(error, spec, freshId))
  {
    hide ReadRequest, Recover, FnResponseBytes, SpecDeliverable, WellMade, Refusal, BreaksAs;
    if error == Io {
      IoExact(input, spec.maxEventBytes);
    } else {
      RefusalExact(input, spec.maxEventBytes, error);
    }
    HandledIsWellMade(input, spec, codec, freshId);
    var answer := FailureAnswer(error, spec, freshId);
    FailureHandled(input, spec, codec, freshId, error);
    hide Handle, FailureAnswer;
    DeliveryRoundTrip(answer.0, answer.1, codec);
  }

  /** The adapter's process dies exactly when the reader panics. */
  lemma CrashesIff(input: bytes, spec: RouteSpec, codec: Codec, freshId: string)
    ensures Handle(input, spec, codec, freshId).Crashed? <==> Refusal(input, spec.maxEventBytes, Panic)
  {
    hide ReadRequest, Refusal, Answer;
    RefusalExact(input, spec.maxEventBytes, Panic);
  }

  lemma FailureHandled(input: bytes, spec: RouteSpec, codec: Codec, freshId: string, error: ReadError)
    requires ReadRequest(input, spec.maxEventBytes) == Failed(error) && error != Panic
    ensures var answer := FailureAnswer(error, spec, freshId);
            Handle(input, spec, codec, freshId) == Answered(answer.0, answer.1) && answer.0 <= USIZE_MAX
  {
    hide ReadRequest;
  }

  lemma SilentIffEmpty(input: bytes, max: nat)
    ensures ReadRequest(input, max).Done? && ReadRequest(input, max).value.None? <==> input == []
  {
    hide ReadHeaders, ReadBody, ValidRequestLine, Encode, Decode;
  }

  lemma EmptyRecoversNothing(codec: Codec)
    ensures Recover([], codec) == None
  {}

  // ---- framing independence ----

  const FRAMING_NAMES := {"transfer-encoding", "content-length"}

  ghost predicate AgreeOffFraming(a: Headers, b: Headers) {
    forall n :: n !in FRAMING_NAMES ==> (n in a <==> n in b) && (n in a ==> a[n] == b[n])
  }

  lemma {:induction false} FirstHeaderAgrees(a: Headers, b: Headers, names: seq<string>)
    requires AgreeOffFraming(a, b) && forall n :: n in names ==> n !in FRAMING_NAMES
    ensures FirstHeader(a, names) == FirstHeader(b, names)
  {
    if names == [] {
    } else {
      assert names[0] in names;
      FirstHeaderAgrees(a, b, names[1..]);
    }
  }

  lemma {:induction false} MissingHeaderAgrees(a: Headers, b: Headers, attributes: seq<string>)
    requires AgreeOffFraming(a, b) && forall x :: x in attributes ==> x in EVENT_ATTRIBUTES
    ensures MissingHeader(a, attributes) == MissingHeader(b, attributes)
  {
    hide FirstHeader, AgreeOffFraming;
    if attributes == [] {
    } else {
      assert attributes[0] in attributes;
      EventNames(attributes[0]);
      FirstHeaderAgrees(a, b, BinaryNames(attributes[0]));
      MissingHeaderAgrees(a, b, attributes[1..]);
    }
  }

  lemma EventNames(attribute: string)
    ensures forall n :: n in BinaryNames(attribute) ==> n !in FRAMING_NAMES
  {
    assert ("ce-" + attribute)[0] == 'c' && ("ce-" + attribute)[1] == 'e';
    assert ("fn-http-h-ce-" + attribute)[0] == 'f';
  }

  lemma RoutingAgrees(a: Headers, b: Headers, spec: RouteSpec)
    requires AgreeOffFraming(a, b)
    ensures SuppliedId(a) == SuppliedId(b) && ContentType(a) == ContentType(b)
    ensures RequestMethod(a, spec) == RequestMethod(b, spec) && RequestPathOf(a, spec) == RequestPathOf(b, spec)
  {
    hide FirstHeader, AgreeOffFraming, SanitizeRequestId, RequestPath, Lower;
    RoutingNames();
    FirstHeaderAgrees(a, b, ID_NAMES);
    FirstHeaderAgrees(a, b, ["fn-http-method"]);
    FirstHeaderAgrees(a, b, ["fn-http-request-url"]);
    FirstHeaderAgrees(a, b, ["content-type", "fn-http-h-content-type"]);
  }

  lemma RoutingNames()
    ensures forall n :: n in ID_NAMES ==> n !in FRAMING_NAMES
    ensures forall n :: n in ["fn-http-method"] ==> n !in FRAMING_NAMES
    ensures forall n :: n in ["fn-http-request-url"] ==> n !in FRAMING_NAMES
    ensures forall n :: n in ["content-type", "fn-http-h-content-type"] ==> n !in FRAMING_NAMES
  {}

  lemma EventErrorAgrees(a: Headers, b: Headers)
    requires AgreeOffFraming(a, b)
    ensures BinaryEventError(a) == BinaryEventError(b)
  {
    hide FirstHeader, AgreeOffFraming, MissingHeader, BinaryNames;
    EventNames("specversion");
    FirstHeaderAgrees(a, b, BinaryNames("specversion"));
    MissingHeaderAgrees(a, b, EVENT_ATTRIBUTES);
  }

  lemma NormalizeAgrees(
    a: ParsedRequest, b: ParsedRequest, spec: RouteSpec, codec: Codec, freshA: string, freshB: string)
    requires a.body == b.body && AgreeOffFraming(a.headers, b.headers)
    requires freshA == freshB || SuppliedId(a.headers).Some?
    ensures Normalize(a, spec, codec, freshA) == Normalize(b, spec, codec, freshB)
  {
    hide AgreeOffFraming, StructuredEventError, BinaryEventError, SuppliedId, ContentType, RequestMethod, RequestPathOf;
    RoutingAgrees(a.headers, b.headers, spec);
    EventErrorAgrees(a.headers, b.headers);
  }

  /**
   How a body was framed leaves no trace: two messages with the same body and the same other
   headers, one naming a usable request id, get byte-identical responses, even though the
   clock would have generated different ids.
   */
  lemma FramingIndependence(
    a: Message, b: Message, tailA: bytes, tailB: bytes, spec: RouteSpec, codec: Codec, freshA: string, freshB: string)
    requires WellFormed(a, spec.maxEventBytes) && WellFormed(b, spec.maxEventBytes)
    requires BodyOf(a.body) == BodyOf(b.body) && AgreeOffFraming(HeadersOf(a), HeadersOf(b))
    requires SuppliedId(HeadersOf(a)).Some?
    ensures Written(Handle(Render(a) + tailA, spec, codec, freshA), codec)
         == Written(Handle(Render(b) + tailB, spec, codec, freshB), codec)
  {
    hide ValidHead, FramedAs, Render, ReadRequest, Normalize, FnResponseBytes, HeadersOf, BodyOf, AgreeOffFraming,
         SuppliedId, DispatchRequest, ErrorResponse;
    ReaderComplete(a, tailA, spec.maxEventBytes);
    ReaderComplete(b, tailB, spec.maxEventBytes);
    NormalizeAgrees(Denote(a), Denote(b), spec, codec, freshA, freshB);
  }

  // ---- who is accepted ----

  /** Nothing is wrong with the request: its payload decodes, and route, method and value are right. */
  ghost predicate Acceptable(said: ParsedRequest, spec: RouteSpec, codec: Codec, freshId: string) {
    exists u :: Understood(said, spec, codec, freshId, u) && NothingWrong(u, spec)
  }

  predicate NothingWrong(u: Caller, spec: RouteSpec) {
    && u.decoded.Payload? && u.path == spec.path && Lower(u.method') == Lower(spec.method')
    && Supplied(u.decoded.value, spec.requiredField)
  }

  lemma AnswerAcceptsIff(said: ParsedRequest, spec: RouteSpec, codec: Codec, freshId: string)
    requires |said.body| <= spec.maxEventBytes
    ensures Answer(said, spec, codec, freshId).statusCode == 202 <==> Acceptable(said, spec, codec, freshId)
  {
    hide Understood, Answer, Lower, Supplied;
    var u := Understand(said, spec, codec, freshId);
    AnsweredAsUnderstood(said, spec, codec, freshId, u);
  }

  ghost predicate AcceptableMessage(m: Message, spec: RouteSpec, codec: Codec, freshId: string) {
    WellFormed(m, spec.maxEventBytes) && Acceptable(Denote(m), spec, codec, freshId)
  }

  ghost predicate ReadAsAcceptable(input: bytes, spec: RouteSpec, codec: Codec, freshId: string) {
    match ReadRequest(input, spec.maxEventBytes)
    case Done(Some(request), _) => Acceptable(request, spec, codec, freshId)
    case _ => false
  }

  /** An acceptable message at the start of the input is the request that is read. */
  lemma OnlyIfRead(input: bytes, spec: RouteSpec, codec: Codec, freshId: string)
    ensures (exists m, rest :: AcceptableMessage(m, spec, codec, freshId) && input == Render(m) + rest) ==>
              ReadAsAcceptable(input, spec, codec, freshId)
  {
    hide ReadRequest, Render, ValidHead, FramedAs, Denote, Acceptable, BodyOf;
    if m, rest :| AcceptableMessage(m, spec, codec, freshId) && input == Render(m) + rest {
      ReaderComplete(m, rest, spec.maxEventBytes);
    }
  }

  /** The function's status as the client recovers it, whatever was sent. */
  function ClientStatus(input: bytes, spec: RouteSpec, codec: Codec, freshId: string): Option<nat> {
    match Recover(Written(Handle(input, spec, codec, freshId), codec), codec)
    case Some((_, response)) => Some(response.statusCode)
    case None => None
  }

  /**
   For every input whatsoever, the client recovers status 202 if and only if the input begins
   with a well-formed message with nothing wrong with it.
   */
  lemma AcceptedIffAcceptable(input: bytes, spec: RouteSpec, codec: Codec, freshId: string)
    requires spec.maxEventBytes <= ISIZE_MAX && IsRequestId(freshId) && SpecDeliverable(spec)
    requires var handled := Handle(input, spec, codec, freshId);
             handled.Answered? ==> codec.Lossless(handled.response.body)
    ensures ClientStatus(input, spec, codec, freshId) == Some(202)
       <==> exists m, rest :: AcceptableMessage(m, spec, codec, freshId) && input == Render(m) + rest
  {
    hide ReadRequest, Render, AcceptableMessage;
    RecoveredIfRead(input, spec, codec, freshId);
    OnlyIfRead(input, spec, codec, freshId);
    if ReadAsAcceptable(input, spec, codec, freshId) {
      var m, rest := AcceptableFound(input, spec, codec, freshId);
    }
  }

  lemma RecoveredIfRead(input: bytes, spec: RouteSpec, codec: Codec, freshId: string)
    requires spec.maxEventBytes <= ISIZE_MAX && IsRequestId(freshId) && SpecDeliverable(spec)
    requires var handled := Handle(input, spec, codec, freshId);
             handled.Answered? ==> codec.Lossless(handled.response.body)
    ensures ClientStatus(input, spec, codec, freshId) == Some(202) <==> ReadAsAcceptable(input, spec, codec, freshId)
  {
    hide Recover, Written, ReadRequest, Acceptable, SpecDeliverable, Answer;
    TotalClassification(input, spec, codec, freshId);
    SilentIffEmpty(input, spec.maxEventBytes);
    EmptyRecoversNothing(codec);
    var r := ReadRequest(input, spec.maxEventBytes);
    if r.Done? && r.value.Some? {
      FitsItsLimit(input, spec.maxEventBytes);
      AnswerAcceptsIff(r.value.value, spec, codec, freshId);
    }
  }

  lemma AcceptableFound(input: bytes, spec: RouteSpec, codec: Codec, freshId: string) returns (m: Message, rest: bytes)
    requires ReadAsAcceptable(input, spec, codec, freshId)
    ensures AcceptableMessage(m, spec, codec, freshId) && input == Render(m) + rest
  {
    m := ReaderSound(input, spec.maxEventBytes);
    hide ReadRequest, Render, ValidHead, FramedAs, Denote, Acceptable, BodyOf;
    rest := ReadRequest(input, spec.maxEventBytes).rest;
  }

  // ---- the invocation a platform sends ----

  /** The body's length in a header, or the body in chunks. */
  datatype Framing = ByLength | InChunks(pieces: seq<Piece>, trailers: seq<Line>)

  /** Any fields, with the one that announces the body somewhere among them. */
  datatype Invocation = Invocation(
    start: string, before: seq<Field>, after: seq<Field>, framing: Framing, body: bytes)

  function FramingField(inv: Invocation): Field {
    match inv.framing
    case ByLength => Field("content-length", Decimal(|inv.body|))
    case InChunks(_, _) => Field("transfer-encoding", "chunked")
  }

  function FramedBody(inv: Invocation): Body {
    match inv.framing
    case ByLength => Fixed(inv.body)
    case InChunks(pieces, trailers) => EncodeChunked(pieces, trailers)
  }

  function AllFields(inv: Invocation): seq<Field> {
    inv.before + [FramingField(inv)] + inv.after
  }

  function InvocationMessage(inv: Invocation): Message {
    Message(Line(inv.start, CrLf), FieldLines(AllFields(inv)), CrLf, FramedBody(inv))
  }

  /** What the caller said, apart from how the body is framed. */
  function CallerHeaders(inv: Invocation): Headers {
    Merged(Lowered(inv.before + inv.after))
  }

  predicate OffFraming(fields: seq<Field>) {
    forall f :: f in fields ==> Sendable(f) && Lower(f.name) !in FRAMING_NAMES
  }

  ghost predicate SendableInvocation(inv: Invocation) {
    && SpellsStart(inv.start) && ValidLine(Line(inv.start, CrLf))
    && OffFraming(inv.before + inv.after) && |inv.before| + 1 + |inv.after| < MAX_HEADER_LINES
    && |Encode(inv.start)| + TextBytes(FieldLines(AllFields(inv))) <= MAX_HEADER_BYTES
    && |inv.body| <= ISIZE_MAX
    && match inv.framing
       case ByLength => true
       case InChunks(pieces, trailers) =>
         && (forall p :: p in pieces ==> ValidPiece(p)) && PieceData(pieces) == inv.body
         && (forall l :: l in trailers ==> ValidTrailer(l))
  }

  lemma {:induction false} LoweredAt(fields: seq<Field>)
    ensures |Lowered(fields)| == |fields|
    ensures forall i :: 0 <= i < |fields| ==> Lowered(fields)[i] == Field(Lower(fields[i].name), fields[i].value)
  {
    hide Lower;
    if fields == [] {
    } else {
      LoweredAt(fields[1..]);
    }
  }

  lemma LoweredConcat(a: seq<Field>, b: seq<Field>)
    ensures Lowered(a + b) == Lowered(a) + Lowered(b)
  {
    hide Lower, Lowered;
    LoweredAt(a);
    LoweredAt(b);
    LoweredAt(a + b);
  }

  lemma FramingFieldIs(inv: Invocation)
    requires |inv.body| <= ISIZE_MAX
    ensures Sendable(FramingField(inv)) && Lowered([FramingField(inv)]) == [FramingField(inv)]
    ensures FramingField(inv).name in FRAMING_NAMES
  {
    hide Numeral, Encode;
    LengthField(|inv.body|);
    CodingField(Field("transfer-encoding", "chunked"));
    LoweredAt([FramingField(inv)]);
  }

  /** The framing field adds its own entry to what the caller said. */
  lemma InvocationMerges(inv: Invocation)
    requires OffFraming(inv.before + inv.after) && |inv.body| <= ISIZE_MAX
    ensures Merged(Lowered(AllFields(inv))) == CallerHeaders(inv)[FramingField(inv).name := FramingField(inv).value]
    ensures CallerHeaders(inv).Keys !! FRAMING_NAMES
  {
    hide Lower, Lowered, Merged, FramingField;
    FramingFieldIs(inv);
    var f := FramingField(inv);
    LoweredConcat(inv.before, [f]);
    LoweredConcat(inv.before + [f], inv.after);
    LoweredConcat(inv.before, inv.after);
    LoweredNames(inv.before + inv.after);
    MergedInsert(Lowered(inv.before), f, Lowered(inv.after));
  }

  lemma LoweredNames(fields: seq<Field>)
    requires OffFraming(fields)
    ensures Names(Lowered(fields)) !! FRAMING_NAMES && Merged(Lowered(fields)).Keys == Names(Lowered(fields))
  {
    hide Lower, Lowered, Sendable;
    LoweredAt(fields);
    forall n | n in Names(Lowered(fields))
      ensures n !in FRAMING_NAMES
    {
      var f :| f in Lowered(fields) && f.name == n;
      var i :| 0 <= i < |fields| && Lowered(fields)[i] == f;
      assert fields[i] in fields;
    }
  }

  lemma InvocationIsFramed(inv: Invocation, headers: Headers)
    requires SendableInvocation(inv) && headers.Keys !! FRAMING_NAMES
    ensures FramedAs(FramedBody(inv), headers[FramingField(inv).name := FramingField(inv).value])
    ensures BodyOf(FramedBody(inv)) == inv.body
  {
    hide SpellsNumber, ValidChunked, Numeral, Encode, SpellsStart, Sendable, ValidLine, EncodeChunked, TextBytes,
         FieldLines;
    match inv.framing
    case ByLength =>
      NumeralSpells(|inv.body|, 10);
    case InChunks(pieces, trailers) =>
      EncodedIsValid(pieces, trailers);
      PlainlyChunked(headers["transfer-encoding" := "chunked"]);
  }

  lemma AllSendable(inv: Invocation)
    requires OffFraming(inv.before + inv.after) && |inv.body| <= ISIZE_MAX
    ensures forall f :: f in AllFields(inv) ==> Sendable(f)
  {
    hide Sendable, FramingField;
    FramingFieldIs(inv);
    assert forall f :: f in AllFields(inv) ==> f in inv.before + inv.after || f == FramingField(inv);
  }

  lemma InvocationWellFormed(inv: Invocation, max: nat)
    requires SendableInvocation(inv) && |inv.body| <= max
    ensures WellFormed(InvocationMessage(inv), max)
    ensures Denote(InvocationMessage(inv)).body == inv.body
    ensures AgreeOffFraming(Denote(InvocationMessage(inv)).headers, CallerHeaders(inv))
  {
    hide Encode, Sendable, Merged, Lowered, ValidFieldLine, SpellsStart, ValidLine, FieldsOf, TextBytes, FieldLines,
         FramedAs, FramingField, FramedBody, BodyOf, ValidPiece, ValidTrailer;
    AllSendable(inv);
    FieldLinesAreValid(AllFields(inv));
    InvocationMerges(inv);
    FramingFieldIs(inv);
    InvocationIsFramed(inv, CallerHeaders(inv));
  }

  /**
   An invocation with any fields the adapter can read, its body sent by length or in chunks:
   the client recovers, under outer status 200, the answer to what the caller's headers and
   body say, whichever way the body was framed.
   */
  lemma InvocationAnswered(inv: Invocation, tail: bytes, spec: RouteSpec, codec: Codec, freshId: string)
    returns (u: Caller, response: FunctionResponse)
    requires SendableInvocation(inv) && |inv.body| <= spec.maxEventBytes
    requires IsRequestId(freshId) && SpecDeliverable(spec)
    requires codec.Lossless(Answer(ParsedRequest(CallerHeaders(inv), inv.body), spec, codec, freshId).body)
    ensures var handled := Handle(Render(InvocationMessage(inv)) + tail, spec, codec, freshId);
            Recover(Written(handled, codec), codec) == Some((200, response))
    ensures Understood(ParsedRequest(CallerHeaders(inv), inv.body), spec, codec, freshId, u)
    ensures AnswersWell(response, u, |inv.body|, spec)
  {
    hide ValidHead, FramedAs, BodyOf, Render, Handle, Written, Recover, SpecDeliverable, CallerHeaders,
         InvocationMessage, Normalize, IsRequestId, Denote, AgreeOffFraming, SendableInvocation, DispatchRequest,
         AnswersWell, Understood;
    InvocationWellFormed(inv, spec.maxEventBytes);
    var m := InvocationMessage(inv);
    var said := ParsedRequest(CallerHeaders(inv), inv.body);
    NormalizeAgrees(Denote(m), said, spec, codec, freshId, freshId);
    var meant := EndToEnd(m, tail, spec, codec, freshId);
    u := Understand(said, spec, codec, freshId);
    AnsweredAsUnderstood(said, spec, codec, freshId, u);
    response := Answer(said, spec, codec, freshId);
  }
}
