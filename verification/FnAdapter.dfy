/**
 The Oracle/Fn adapter: from a parsed request to the provider-neutral one, and from the
 dispatcher's response to the bytes on the socket.
 */
module FnAdapter {
  import opened Options
  import opened Text
  import opened Utf8
  import opened Numerals
  import opened Json
  import opened Dispatch
  import opened HttpReader
  import opened HttpConnection
  import opened HttpWriter
  import opened RequestId
  import opened RequestTarget

  const ADAPTER_VERSION := "scintilla-rust/0.3.0"
  const CLOUD_EVENT_TYPE := "application/cloudevents+json"

  /** The first of `names` whose header is present and not blank, trimmed. */
  function FirstHeader(headers: Headers, names: seq<string>): (r: Option<string>)
    ensures r.Some? ==> Trimmed(r.value) && r.value != ""
    ensures r.None? <==> forall n :: n in names ==> Blank(headers, n)
    ensures r.Some? ==>
              exists i :: 0 <= i < |names| && FirstAt(headers, names, i) && TrimsTo(headers[names[i]], r.value)
  {
    if names == [] then None
    else if Blank(headers, names[0]) then
      var rest := FirstHeader(headers, names[1..]);
      FirstMovesOn(headers, names);
      rest
    else
      TrimPads(headers[names[0]]);
      assert FirstAt(headers, names, 0);
      Some(Trim(headers[names[0]]))
  }

  predicate Blank(headers: Headers, name: string) {
    name in headers ==> Trim(headers[name]) == ""
  }

  /** `names[i]` is the first candidate that is present and not blank. */
  predicate FirstAt(headers: Headers, names: seq<string>, i: nat)
    requires i < |names|
  {
    !Blank(headers, names[i]) && forall j :: 0 <= j < i ==> Blank(headers, names[j])
  }

  lemma FirstMovesOn(headers: Headers, names: seq<string>)
    requires names != [] && Blank(headers, names[0])
    ensures forall n :: n in names <==> n == names[0] || n in names[1..]
    ensures forall i :: 0 <= i < |names| - 1 && FirstAt(headers, names[1..], i) ==> FirstAt(headers, names, i + 1)
    ensures forall i :: 0 <= i < |names| - 1 ==> names[1..][i] == names[i + 1]
  {
    hide Blank;
    forall i | 0 <= i < |names| - 1 && FirstAt(headers, names[1..], i)
      ensures FirstAt(headers, names, i + 1)
    {
      forall j | 0 <= j < i + 1
        ensures Blank(headers, names[j])
      {
        if j > 0 {
          assert names[1..][j - 1] == names[j];
        }
      }
    }
  }

  datatype Decoded = Payload(value: Value) | Rejected(code: string)

  const EVENT_ATTRIBUTES := ["id", "source", "type"]

  /** The first attribute of a structured event that is not a non-blank text. */
  function MissingAttribute(event: Value, attributes: seq<string>): Option<string> {
    if attributes == [] then None
    else
      match event.GetText(attributes[0])
      case Some(text) =>
        if Trim(text) != "" then MissingAttribute(event, attributes[1..]) else Some(attributes[0])
      case None => Some(attributes[0])
  }

  function StructuredEventError(event: Value): Option<string> {
    if event.GetText("specversion") != Some("1.0") then Some("unsupported_cloud_event_version")
    else
      match MissingAttribute(event, EVENT_ATTRIBUTES)
      case Some(attribute) => Some("missing_cloud_event_" + attribute)
      case None => None
  }

  function DataOf(event: Value): Value {
    match event.Get("data")
    case Some(value) => value
    case None => EMPTY_OBJECT
  }

  function BinaryNames(attribute: string): seq<string> {
    ["ce-" + attribute, "fn-http-h-ce-" + attribute]
  }

  function MissingHeader(headers: Headers, attributes: seq<string>): Option<string> {
    if attributes == [] then None
    else if FirstHeader(headers, BinaryNames(attributes[0])).None? then Some(attributes[0])
    else MissingHeader(headers, attributes[1..])
  }

  function BinaryEventError(headers: Headers): Option<string> {
    match FirstHeader(headers, BinaryNames("specversion"))
    case None => None
    case Some(version) =>
      if version != "1.0" then Some("unsupported_cloud_event_version")
      else
        match MissingHeader(headers, EVENT_ATTRIBUTES)
        case Some(attribute) => Some("missing_cloud_event_" + attribute)
        case None => None
  }

  function DecodePayload(headers: Headers, contentType: string, body: bytes, codec: Codec): Decoded {
    if body == [] then Payload(EMPTY_OBJECT)
    else
      match codec.parse(body)
      case None => Rejected("invalid_json")
      case Some(value) =>
        if CLOUD_EVENT_TYPE <= contentType then
          match StructuredEventError(value)
          case Some(code) => Rejected(code)
          case None => Payload(DataOf(value))
        else
          match BinaryEventError(headers)
          case Some(code) => Rejected(code)
          case None => Payload(value)
  }

  const ID_NAMES :=
    ["fn-call-id", "ce-id", "fn-http-h-ce-id", "x-request-id", "fn-http-h-x-request-id",
     "traceparent", "fn-http-h-traceparent"]

  /** The id the caller supplied, if anything usable is left of it. */
  function SuppliedId(headers: Headers): (r: Option<string>)
    ensures r.Some? ==> IsRequestId(r.value)
  {
    match FirstHeader(headers, ID_NAMES)
    case None => None
    case Some(value) => SanitizeRequestId(value)
  }

  function GetOr(value: Option<string>, default: string): string {
    if value.Some? then value.value else default
  }

  function RequestMethod(headers: Headers, spec: RouteSpec): string {
    GetOr(FirstHeader(headers, ["fn-http-method"]), spec.method')
  }

  function RequestPathOf(headers: Headers, spec: RouteSpec): string {
    match FirstHeader(headers, ["fn-http-request-url"])
    case Some(url) => RequestPath(url)
    case None => spec.path
  }

  function ContentType(headers: Headers): string {
    Lower(GetOr(FirstHeader(headers, ["content-type", "fn-http-h-content-type"]), ""))
  }

  function ErrorResponse(statusCode: nat, body: Value, requestId: string): FunctionResponse {
    FunctionResponse(statusCode,
                     map["cache-control" := "no-store", "content-type" := "application/json",
                         "x-request-id" := requestId],
                     body)
  }

  /** The provider-neutral form of a parsed request, or the reason its payload has none. */
  function Normalize(request: ParsedRequest, spec: RouteSpec, codec: Codec, freshId: string)
    : (Decoded, FunctionRequest)
  {
    var headers := request.headers;
    var decoded := DecodePayload(headers, ContentType(headers), request.body, codec);
    (decoded,
     FunctionRequest(
       RequestMethod(headers, spec), RequestPathOf(headers, spec),
       if decoded.Payload? then decoded.value else EMPTY_OBJECT,
       GetOr(SuppliedId(headers), freshId), |request.body|))
  }

  function Answer(request: ParsedRequest, spec: RouteSpec, codec: Codec, freshId: string): FunctionResponse {
    var (decoded, normalized) := Normalize(request, spec, codec, freshId);
    match decoded
    case Rejected(code) => ErrorResponse(400, ErrorBody(code), normalized.requestId)
    case Payload(_) => DispatchRequest(normalized, spec)
  }

  /** What one connection ends in: nothing written, one response, or a panic. */
  datatype Handled = Silent | Answered(outer: nat, response: FunctionResponse) | Crashed

  function Handle(input: bytes, spec: RouteSpec, codec: Codec, freshId: string): Handled {
    match ReadRequest(input, spec.maxEventBytes)
    case Failed(TooLarge) => Answered(200, ErrorResponse(413, TooLargeBody(spec), freshId))
    case Failed(BadRequest(code)) => Answered(200, ErrorResponse(400, ErrorBody(code), freshId))
    case Failed(Io) => Answered(502, ErrorResponse(500, ErrorBody("fn_request_read_failed"), freshId))
    case Failed(Panic) => Crashed
    case Done(None, _) => Silent
    case Done(Some(request), _) => Answered(200, Answer(request, spec, codec, freshId))
  }

  /** The header map `write_fn_response` sends for a response. */
  function FnHeaders(response: FunctionResponse): Headers {
    var headers := response.headers - {"content-length", "connection"};
    var typed := if "content-type" in headers then headers else headers["content-type" := "application/json"];
    typed["fn-http-status" := Decimal(response.statusCode)]["fn-fdk-version" := ADAPTER_VERSION]
  }

  function FnResponseBytes(outer: nat, response: FunctionResponse, codec: Codec): bytes {
    ResponseBytes(outer, FnHeaders(response), codec.Print(response.body))
  }

  function Written(handled: Handled, codec: Codec): bytes {
    match handled
    case Answered(outer, response) => FnResponseBytes(outer, response, codec)
    case _ => []
  }

  method WriteFnResponse(stream: Connection, outer: nat, response: FunctionResponse, codec: Codec)
    modifies stream`output
    ensures stream.output == old(stream.output) + FnResponseBytes(outer, response, codec)
  {
    hide ResponseBytes;
    var body := codec.Print(response.body);
    var headers := response.headers;
    headers := headers - {"content-length"};
    headers := headers - {"connection"};
    assert headers == response.headers - {"content-length", "connection"};
    if "content-type" !in headers {
      headers := headers["content-type" := "application/json"];
    }
    headers := headers["fn-http-status" := Decimal(response.statusCode)];
    headers := headers["fn-fdk-version" := ADAPTER_VERSION];
    WriteHttpResponse(stream, outer, headers, body);
  }

  /**
   `handle_stream`: read one request, write at most one response. `freshId` is the id
   `generated_request_id` would return on this connection.
   */
  method HandleStream(stream: Connection, spec: RouteSpec, codec: Codec, freshId: string) returns (panicked: bool)
    requires stream.Valid()
    modifies stream
    ensures stream.Valid()
    ensures var handled := Handle(old(stream.Unread()), spec, codec, freshId);
            panicked == handled.Crashed? && stream.output == old(stream.output) + Written(handled, codec)
  {
    hide ReadRequest, FnResponseBytes, ErrorResponse, Answer;
    ghost var before := stream.output;
    assert before + [] == before;
    panicked := false;
    var result := stream.ReadRequest(spec.maxEventBytes);
    match result {
      case Err(TooLarge) =>
        WriteFnResponse(stream, 200, ErrorResponse(413, TooLargeBody(spec), freshId), codec);
      case Err(BadRequest(code)) =>
        WriteFnResponse(stream, 200, ErrorResponse(400, ErrorBody(code), freshId), codec);
      case Err(Io) =>
        WriteFnResponse(stream, 502, ErrorResponse(500, ErrorBody("fn_request_read_failed"), freshId), codec);
      case Err(Panic) =>
        panicked := true;
      case Ok(None) =>
      case Ok(Some(request)) =>
        WriteFnResponse(stream, 200, Answer(request, spec, codec, freshId), codec);
    }
  }
}
