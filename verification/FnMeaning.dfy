/**
 What a parsed request means to the adapter, said on the entries of its header map and of its
 JSON body.  The adapter's lookups, decoder and routing are proved to compute exactly this.
 */
module FnMeaning {
  import opened Options
  import opened Text
  import opened Utf8
  import opened Numerals
  import opened Json
  import opened Dispatch
  import opened HttpReader
  import opened RequestId
  import opened RequestTarget
  import opened FnAdapter

  // ---- headers ----

  /** Absent, or nothing but white space. */
  predicate Nothing(headers: Headers, name: string) {
    name in headers ==> AllWhite(headers[name])
  }

  ghost predicate SaidAt(headers: Headers, names: seq<string>, i: nat, value: string)
    requires i < |names|
  {
    && names[i] in headers && TrimsTo(headers[names[i]], value) && value != ""
    && forall j :: 0 <= j < i ==> Nothing(headers, names[j])
  }

  /** The first of these headers that says anything says `value`; or none of them does. */
  ghost predicate Said(headers: Headers, names: seq<string>, value: Option<string>) {
    match value
    case None => forall n :: n in names ==> Nothing(headers, n)
    case Some(v) => exists i :: 0 <= i < |names| && SaidAt(headers, names, i, v)
  }

  lemma BlankIff(text: string)
    ensures Trim(text) == "" <==> AllWhite(text)
  {
    hide Trim, AllWhite;
    TrimIs(text, "");
    BlankPads(text);
  }

  lemma BlankPads(text: string)
    ensures TrimsTo(text, "") <==> AllWhite(text)
  {
    if AllWhite(text) {
      assert text + "" + "" == text;
      assert Padded(text, text, "", "");
    }
    if TrimsTo(text, "") {
      var before, after :| Padded(text, before, "", after);
      assert forall c :: c in text ==> c in before || c in after;
    }
  }

  lemma NothingIff(headers: Headers, name: string)
    ensures Nothing(headers, name) <==> Blank(headers, name)
  {
    hide Trim, AllWhite;
    if name in headers {
      BlankIff(headers[name]);
    }
  }

  lemma FoundIsSaid(headers: Headers, names: seq<string>)
    ensures Said(headers, names, FirstHeader(headers, names))
  {
    hide FirstHeader, Trim, AllWhite, TrimsTo, Nothing;
    forall n: string
      ensures Nothing(headers, n) <==> Blank(headers, n)
    {
      NothingIff(headers, n);
    }
    var found := FirstHeader(headers, names);
    if found.Some? {
      var i :| 0 <= i < |names| && FirstAt(headers, names, i) && TrimsTo(headers[names[i]], found.value);
      assert SaidAt(headers, names, i, found.value);
    }
  }

  /** The lookup finds what is said, and nothing else. */
  lemma SaidIff(headers: Headers, names: seq<string>, value: Option<string>)
    ensures FirstHeader(headers, names) == value <==> Said(headers, names, value)
  {
    hide FirstHeader, Trim, Said;
    FoundIsSaid(headers, names);
    if Said(headers, names, value) {
      if value.Some? {
        SaidOnce(headers, names, value.value, FirstHeader(headers, names));
      } else if FirstHeader(headers, names).Some? {
        SaidOnce(headers, names, FirstHeader(headers, names).value, value);
      }
    }
  }

  lemma SaidIsNotBlank(headers: Headers, names: seq<string>, i: nat, value: string)
    requires i < |names| && SaidAt(headers, names, i, value)
    ensures !Blank(headers, names[i])
  {
    hide Trim, TrimsTo;
    TrimIs(headers[names[i]], value);
  }

  /** Only one value can be the first that is said. */
  lemma SaidOnce(headers: Headers, names: seq<string>, value: string, other: Option<string>)
    requires Said(headers, names, Some(value)) && Said(headers, names, other)
    ensures other == Some(value)
  {
    hide Trim, TrimsTo, Blank, Nothing;
    var i :| 0 <= i < |names| && SaidAt(headers, names, i, value);
    SaidIsNotBlank(headers, names, i, value);
    NothingIff(headers, names[i]);
    assert names[i] in names;
    if other.Some? {
      var j :| 0 <= j < |names| && SaidAt(headers, names, j, other.value);
      SaidIsNotBlank(headers, names, j, other.value);
      NothingIff(headers, names[j]);
      TrimIs(headers[names[i]], value);
      TrimIs(headers[names[j]], other.value);
    }
  }

  /** The method the request names, or the route's own. */
  ghost predicate MethodIs(headers: Headers, spec: RouteSpec, method': string) {
    Said(headers, ["fn-http-method"], Some(method'))
    || (Said(headers, ["fn-http-method"], None) && method' == spec.method')
  }

  /** The path of the URL the request names, or the route's own. */
  ghost predicate PathIs(headers: Headers, spec: RouteSpec, path: string) {
    (exists url :: Said(headers, ["fn-http-request-url"], Some(url)) && path == RequestPath(url))
    || (Said(headers, ["fn-http-request-url"], None) && path == spec.path)
  }

  ghost predicate TypeIs(headers: Headers, contentType: string) {
    (exists text ::
       Said(headers, ["content-type", "fn-http-h-content-type"], Some(text)) && contentType == Lower(text))
    || (Said(headers, ["content-type", "fn-http-h-content-type"], None) && contentType == "")
  }

  /** Where an id is looked for, in order. */
  const ID_HEADERS :=
    ["fn-call-id", "ce-id", "fn-http-h-ce-id", "x-request-id", "fn-http-h-x-request-id",
     "traceparent", "fn-http-h-traceparent"]

  /** What is left of the first id that is said; a fresh one if nothing is said or left. */
  ghost predicate IdIs(headers: Headers, freshId: string, id: string) {
    || (exists text :: Said(headers, ID_HEADERS, Some(text)) && SanitizeRequestId(text) == Some(id))
    || (id == freshId
        && (Said(headers, ID_HEADERS, None)
            || exists text :: Said(headers, ID_HEADERS, Some(text)) && SanitizeRequestId(text) == None))
  }

  lemma MethodIff(headers: Headers, spec: RouteSpec, method': string)
    ensures RequestMethod(headers, spec) == method' <==> MethodIs(headers, spec, method')
  {
    hide FirstHeader, Said;
    SaidIff(headers, ["fn-http-method"], Some(method'));
    SaidIff(headers, ["fn-http-method"], None);
  }

  lemma PathIff(headers: Headers, spec: RouteSpec, path: string)
    ensures RequestPathOf(headers, spec) == path <==> PathIs(headers, spec, path)
  {
    hide FirstHeader, Said, RequestPath;
    forall url
      ensures FirstHeader(headers, ["fn-http-request-url"]) == Some(url)
         <==> Said(headers, ["fn-http-request-url"], Some(url))
    {
      SaidIff(headers, ["fn-http-request-url"], Some(url));
    }
    SaidIff(headers, ["fn-http-request-url"], None);
  }

  lemma TypeIff(headers: Headers, contentType: string)
    ensures ContentType(headers) == contentType <==> TypeIs(headers, contentType)
  {
    hide FirstHeader, Said, Lower;
    var names := ["content-type", "fn-http-h-content-type"];
    forall text
      ensures FirstHeader(headers, names) == Some(text) <==> Said(headers, names, Some(text))
    {
      SaidIff(headers, names, Some(text));
    }
    SaidIff(headers, names, None);
    assert Lower("") == "";
  }

  lemma IdIff(headers: Headers, freshId: string, id: string)
    ensures GetOr(SuppliedId(headers), freshId) == id <==> IdIs(headers, freshId, id)
  {
    hide FirstHeader, Said, SanitizeRequestId;
    forall text
      ensures FirstHeader(headers, ID_NAMES) == Some(text) <==> Said(headers, ID_HEADERS, Some(text))
    {
      SaidIff(headers, ID_NAMES, Some(text));
    }
    SaidIff(headers, ID_NAMES, None);
  }

  // ---- structured events ----

  predicate HasText(event: Value, attribute: string, text: string) {
    event.Object? && attribute in event.fields && event.fields[attribute] == Text(text)
  }

  /** A text that is not blank stands under this name. */
  ghost predicate Stated(event: Value, attribute: string) {
    exists text :: HasText(event, attribute, text) && !AllWhite(text)
  }

  ghost predicate SoundEvent(event: Value) {
    HasText(event, "specversion", "1.0") && Stated(event, "id") && Stated(event, "source") && Stated(event, "type")
  }

  /** The first thing wrong with an event. */
  ghost predicate EventDefect(event: Value, code: string) {
    if !HasText(event, "specversion", "1.0") then code == "unsupported_cloud_event_version"
    else if !Stated(event, "id") then code == "missing_cloud_event_id"
    else if !Stated(event, "source") then code == "missing_cloud_event_source"
    else !Stated(event, "type") && code == "missing_cloud_event_type"
  }

  /** What an event carries; an empty object if it carries nothing. */
  predicate Carries(event: Value, data: Value)
    requires event.Object?
  {
    data == if "data" in event.fields then event.fields["data"] else Object(map[])
  }

  lemma MissingTextIff(event: Value, first: string, rest: seq<string>)
    ensures MissingAttribute(event, [first] + rest)
         == if Stated(event, first) then MissingAttribute(event, rest) else Some(first)
    ensures MissingAttribute(event, []) == None
  {
    assert ([first] + rest)[1..] == rest;
    hide Trim, AllWhite;
    match event.GetText(first)
    case Some(text) => BlankIff(text);
    case None =>
  }

  lemma EventAttributesMissing(event: Value)
    ensures MissingAttribute(event, EVENT_ATTRIBUTES)
         == if !Stated(event, "id") then Some("id")
            else if !Stated(event, "source") then Some("source")
            else if !Stated(event, "type") then Some("type")
            else None
  {
    hide Stated;
    MissingTextIff(event, "id", ["source", "type"]);
    MissingTextIff(event, "source", ["type"]);
    MissingTextIff(event, "type", []);
    assert EVENT_ATTRIBUTES == ["id"] + ["source", "type"] && ["source", "type"] == ["source"] + ["type"];
    assert ["type"] == ["type"] + [];
  }

  lemma Codes()
    ensures "missing_cloud_event_" + "id" == "missing_cloud_event_id"
    ensures "missing_cloud_event_" + "source" == "missing_cloud_event_source"
    ensures "missing_cloud_event_" + "type" == "missing_cloud_event_type"
  {}

  lemma EventErrorIff(event: Value)
    ensures StructuredEventError(event).None? <==> SoundEvent(event)
    ensures forall code :: StructuredEventError(event) == Some(code) <==> !SoundEvent(event) && EventDefect(event, code)
  {
    hide MissingAttribute, Stated;
    EventAttributesMissing(event);
    Codes();
  }

  lemma DataIff(event: Value, data: Value)
    requires event.Object?
    ensures DataOf(event) == data <==> Carries(event, data)
  {}

  // ---- binary events ----

  ghost predicate Missing(headers: Headers, plain: string, relayed: string) {
    Said(headers, [plain, relayed], None)
  }

  /** No event at all, or one of version 1.0 with all its attributes. */
  ghost predicate SoundHeaders(headers: Headers) {
    || Missing(headers, "ce-specversion", "fn-http-h-ce-specversion")
    || (&& Said(headers, ["ce-specversion", "fn-http-h-ce-specversion"], Some("1.0"))
        && !Missing(headers, "ce-id", "fn-http-h-ce-id") && !Missing(headers, "ce-source", "fn-http-h-ce-source")
        && !Missing(headers, "ce-type", "fn-http-h-ce-type"))
  }

  /** The first thing wrong with an event's headers. */
  ghost predicate HeadersDefect(headers: Headers, code: string) {
    if !Said(headers, ["ce-specversion", "fn-http-h-ce-specversion"], Some("1.0")) then
      code == "unsupported_cloud_event_version"
    else if Missing(headers, "ce-id", "fn-http-h-ce-id") then code == "missing_cloud_event_id"
    else if Missing(headers, "ce-source", "fn-http-h-ce-source") then code == "missing_cloud_event_source"
    else Missing(headers, "ce-type", "fn-http-h-ce-type") && code == "missing_cloud_event_type"
  }

  lemma HeaderNames()
    ensures BinaryNames("specversion") == ["ce-specversion", "fn-http-h-ce-specversion"]
    ensures BinaryNames("id") == ["ce-id", "fn-http-h-ce-id"]
    ensures BinaryNames("source") == ["ce-source", "fn-http-h-ce-source"]
    ensures BinaryNames("type") == ["ce-type", "fn-http-h-ce-type"]
  {
    assert "ce-" + "specversion" == "ce-specversion" && "fn-http-h-ce-" + "specversion" == "fn-http-h-ce-specversion";
    assert "ce-" + "id" == "ce-id" && "fn-http-h-ce-" + "id" == "fn-http-h-ce-id";
    assert "ce-" + "source" == "ce-source" && "fn-http-h-ce-" + "source" == "fn-http-h-ce-source";
    assert "ce-" + "type" == "ce-type" && "fn-http-h-ce-" + "type" == "fn-http-h-ce-type";
  }

  lemma MissingHeaderStep(headers: Headers, first: string, rest: seq<string>)
    ensures MissingHeader(headers, [first] + rest)
         == if Said(headers, BinaryNames(first), None) then Some(first) else MissingHeader(headers, rest)
    ensures MissingHeader(headers, []) == None
  {
    hide FirstHeader, Said, BinaryNames;
    SaidIff(headers, BinaryNames(first), None);
    assert ([first] + rest)[1..] == rest;
  }

  lemma EventHeadersMissing(headers: Headers)
    ensures MissingHeader(headers, EVENT_ATTRIBUTES)
         == if Missing(headers, "ce-id", "fn-http-h-ce-id") then Some("id")
            else if Missing(headers, "ce-source", "fn-http-h-ce-source") then Some("source")
            else if Missing(headers, "ce-type", "fn-http-h-ce-type") then Some("type")
            else None
  {
    hide Said, BinaryNames;
    HeaderNames();
    MissingHeaderStep(headers, "id", ["source", "type"]);
    MissingHeaderStep(headers, "source", ["type"]);
    MissingHeaderStep(headers, "type", []);
    assert EVENT_ATTRIBUTES == ["id"] + ["source", "type"] && ["source", "type"] == ["source"] + ["type"];
    assert ["type"] == ["type"] + [];
  }

  lemma HeadersErrorIff(headers: Headers)
    ensures BinaryEventError(headers).None? <==> SoundHeaders(headers)
    ensures forall code ::
              BinaryEventError(headers) == Some(code) <==> !SoundHeaders(headers) && HeadersDefect(headers, code)
  {
    hide FirstHeader, Said, BinaryNames, MissingHeader, Missing;
    HeaderNames();
    EventHeadersMissing(headers);
    Codes();
    var names := ["ce-specversion", "fn-http-h-ce-specversion"];
    SaidIff(headers, names, None);
    SaidIff(headers, names, Some("1.0"));
    MissingIs(headers, "ce-specversion", "fn-http-h-ce-specversion");
  }

  lemma MissingIs(headers: Headers, plain: string, relayed: string)
    ensures Missing(headers, plain, relayed) <==> Said(headers, [plain, relayed], None)
  {}

  // ---- the payload ----

  /** What the adapter makes of a body under a content type. */
  ghost predicate DecodesTo(headers: Headers, contentType: string, body: bytes, codec: Codec, decoded: Decoded) {
    if body == [] then decoded == Payload(Object(map[]))
    else
      match codec.parse(body)
      case None => decoded == Rejected("invalid_json")
      case Some(value) =>
        if "application/cloudevents+json" <= contentType then
          match decoded
          case Payload(data) => SoundEvent(value) && Carries(value, data)
          case Rejected(code) => !SoundEvent(value) && EventDefect(value, code)
        else
          match decoded
          case Payload(data) => SoundHeaders(headers) && data == value
          case Rejected(code) => !SoundHeaders(headers) && HeadersDefect(headers, code)
  }

  /** The decoder accepts and refuses exactly as said, with that payload or that code. */
  lemma DecodesIff(headers: Headers, contentType: string, body: bytes, codec: Codec, decoded: Decoded)
    ensures DecodePayload(headers, contentType, body, codec) == decoded
       <==> DecodesTo(headers, contentType, body, codec, decoded)
  {
    hide StructuredEventError, BinaryEventError, DataOf, EventDefect, HeadersDefect, SoundHeaders, Stated;
    if body != [] && codec.parse(body).Some? {
      var value := codec.parse(body).value;
      EventErrorIff(value);
      HeadersErrorIff(headers);
      if value.Object? && decoded.Payload? {
        DataIff(value, decoded.value);
      }
    }
  }

  // ---- the required value ----

  predicate Hollow(value: Value) {
    match value
    case Null => true
    case Text(text) => AllWhite(text)
    case Array(items) => |items| == 0
    case Object(fields) => |fields| == 0
    case Bool(_) => false
    case Number(_) => false
  }

  /** The field is there and holds something. */
  predicate Supplied(body: Value, field: string) {
    body.Object? && field in body.fields && !Hollow(body.fields[field])
  }

  lemma SuppliedIff(body: Value, field: string)
    ensures HasRequiredValue(body, field) <==> Supplied(body, field)
  {
    hide Trim, AllWhite;
    if body.Object? && field in body.fields && body.fields[field].Text? {
      BlankIff(body.fields[field].text);
    }
  }

  // ---- the whole request ----

  /** What one request says to the adapter. */
  datatype Caller = Caller(method': string, path: string, contentType: string, id: string, decoded: Decoded)

  ghost predicate Understood(said: ParsedRequest, spec: RouteSpec, codec: Codec, freshId: string, u: Caller) {
    && MethodIs(said.headers, spec, u.method') && PathIs(said.headers, spec, u.path)
    && TypeIs(said.headers, u.contentType) && IdIs(said.headers, freshId, u.id)
    && DecodesTo(said.headers, u.contentType, said.body, codec, u.decoded)
  }

  /** The provider-neutral request holds what was understood, and nothing else can be understood. */
  lemma NormalizedIff(said: ParsedRequest, spec: RouteSpec, codec: Codec, freshId: string, u: Caller)
    ensures Understood(said, spec, codec, freshId, u)
       <==> && u.contentType == ContentType(said.headers)
            && var (decoded, normalized) := Normalize(said, spec, codec, freshId);
               && u.decoded == decoded && u.method' == normalized.method' && u.path == normalized.path
               && u.id == normalized.requestId
  {
    hide MethodIs, PathIs, TypeIs, IdIs, DecodesTo, RequestMethod, RequestPathOf, ContentType, SuppliedId,
         DecodePayload;
    MethodIff(said.headers, spec, u.method');
    PathIff(said.headers, spec, u.path);
    TypeIff(said.headers, u.contentType);
    IdIff(said.headers, freshId, u.id);
    DecodesIff(said.headers, u.contentType, said.body, codec, u.decoded);
  }

  /** Every request is understood in exactly one way. */
  lemma Understand(said: ParsedRequest, spec: RouteSpec, codec: Codec, freshId: string) returns (u: Caller)
    ensures Understood(said, spec, codec, freshId, u)
    ensures forall other :: Understood(said, spec, codec, freshId, other) ==> other == u
  {
    hide Understood, RequestMethod, RequestPathOf, ContentType, SuppliedId, DecodePayload;
    var (decoded, normalized) := Normalize(said, spec, codec, freshId);
    u := Caller(normalized.method', normalized.path, ContentType(said.headers), normalized.requestId, decoded);
    NormalizedIff(said, spec, codec, freshId, u);
    forall other | Understood(said, spec, codec, freshId, other)
      ensures other == u
    {
      NormalizedIff(said, spec, codec, freshId, other);
    }
  }

  // ---- the headers that are sent ----

  /** What `write_fn_response` sends for any response: its own headers, with these differences. */
  lemma FnHeadersExact(response: FunctionResponse)
    ensures var sent := FnHeaders(response);
            && sent.Keys == response.headers.Keys - {"content-length", "connection"}
                            + {"content-type", "fn-http-status", "fn-fdk-version"}
            && sent["fn-http-status"] == Decimal(response.statusCode)
            && sent["fn-fdk-version"] == "scintilla-rust/0.3.0"
            && sent["content-type"]
               == (if "content-type" in response.headers then response.headers["content-type"] else "application/json")
            && forall n :: n in response.headers.Keys - {"content-length", "connection", "content-type"}
                              - {"fn-http-status", "fn-fdk-version"} ==>
                 n in sent && sent[n] == response.headers[n]
  {
    hide Numeral;
  }

  // ---- the answer ----

  /** The headers every answer carries. */
  function PlainHeaders(requestId: string): Headers {
    map["cache-control" := "no-store", "content-type" := "application/json", "x-request-id" := requestId]
  }

  predicate RightRoute(u: Caller, size: nat, spec: RouteSpec) {
    u.decoded.Payload? && size <= spec.maxEventBytes && u.path == spec.path
  }

  predicate RightMethod(u: Caller, spec: RouteSpec) {
    Lower(u.method') == Lower(spec.method')
  }

  /** The status, the headers and the body of the answer, case by case. */
  predicate AnswersWell(response: FunctionResponse, u: Caller, size: nat, spec: RouteSpec) {
    && (response.statusCode == 400 <==> u.decoded.Rejected?)
    && (response.statusCode == 413 <==> u.decoded.Payload? && size > spec.maxEventBytes)
    && (response.statusCode == 404 <==> u.decoded.Payload? && size <= spec.maxEventBytes && u.path != spec.path)
    && (response.statusCode == 405 <==> RightRoute(u, size, spec) && !RightMethod(u, spec))
    && (response.statusCode == 422 <==>
          RightRoute(u, size, spec) && RightMethod(u, spec) && !Supplied(u.decoded.value, spec.requiredField))
    && (response.statusCode == 202 <==>
          RightRoute(u, size, spec) && RightMethod(u, spec) && Supplied(u.decoded.value, spec.requiredField))
    && response.headers == (if response.statusCode == 405 then PlainHeaders(u.id)["allow" := spec.method']
                            else PlainHeaders(u.id))
    && response.body == AnswerBody(response.statusCode, u, spec)
  }

  function AnswerBody(statusCode: nat, u: Caller, spec: RouteSpec): Value {
    if statusCode == 400 then Object(map["error" := Text(if u.decoded.Rejected? then u.decoded.code else "")])
    else if statusCode == 413 then
      Object(map["error" := Text("event_too_large"), "max_bytes" := Number(spec.maxEventBytes as real)])
    else if statusCode == 404 then Object(map["error" := Text("route_not_found")])
    else if statusCode == 405 then Object(map["error" := Text("method_not_allowed")])
    else if statusCode == 422 then
      Object(map["error" := Text("missing_required_field"), "field" := Text(spec.requiredField)])
    else
      Object(map["accepted" := Bool(true), "handler" := Text(spec.handler),
                 "request_id" := Text(u.id), "route" := Text(spec.path)])
  }

  /** The dispatcher's replies, for any request. */
  lemma DispatchReplies(request: FunctionRequest, spec: RouteSpec, contentType: string)
    ensures AnswersWell(
              DispatchRequest(request, spec),
              Caller(request.method', request.path, contentType, request.requestId, Payload(request.body)),
              request.eventBytes, spec)
  {
    hide HasRequiredValue, Supplied, Lower;
    SuppliedIff(request.body, spec.requiredField);
    RepliedHeaders(request, spec);
  }

  lemma RepliedHeaders(request: FunctionRequest, spec: RouteSpec)
    ensures var response := DispatchRequest(request, spec);
            response.headers == (if response.statusCode == 405
                                 then PlainHeaders(request.requestId)["allow" := spec.method']
                                 else PlainHeaders(request.requestId))
  {
    hide HasRequiredValue, Lower;
  }

  /** Every request is answered as what it was understood to say deserves. */
  lemma AnsweredAsUnderstood(said: ParsedRequest, spec: RouteSpec, codec: Codec, freshId: string, u: Caller)
    requires Understood(said, spec, codec, freshId, u)
    ensures AnswersWell(Answer(said, spec, codec, freshId), u, |said.body|, spec)
  {
    NormalizedIff(said, spec, codec, freshId, u);
    hide Understood, RequestMethod, RequestPathOf, ContentType, SuppliedId, DecodePayload, DispatchRequest, AnswersWell;
    var (decoded, normalized) := Normalize(said, spec, codec, freshId);
    if decoded.Payload? {
      DispatchReplies(normalized, spec, u.contentType);
      assert u == Caller(normalized.method', normalized.path, u.contentType, normalized.requestId,
                         Payload(normalized.body));
    } else {
      RejectionReplies(u, |said.body|, spec);
    }
  }

  lemma RejectionReplies(u: Caller, size: nat, spec: RouteSpec)
    requires u.decoded.Rejected?
    ensures AnswersWell(ErrorResponse(400, ErrorBody(u.decoded.code), u.id), u, size, spec)
  {
    hide Lower, Supplied;
  }
}
