/** The provider-neutral dispatcher that every adapter ends in. */
module Dispatch {
  import opened Options
  import opened Text
  import opened Json
  import opened HttpReader

  datatype RouteSpec = RouteSpec(
    handler: string, method': string, path: string, requiredField: string, maxEventBytes: nat)

  datatype FunctionRequest = FunctionRequest(
    method': string, path: string, body: Value, requestId: string, eventBytes: nat)

  datatype FunctionResponse = FunctionResponse(statusCode: nat, headers: Headers, body: Value)

  function ErrorBody(code: string): Value {
    Object(map["error" := Text(code)])
  }

  function TooLargeBody(spec: RouteSpec): Value {
    Object(map["error" := Text("event_too_large"), "max_bytes" := Number(spec.maxEventBytes as real)])
  }

  function FunctionReply(statusCode: nat, body: Value, allow: Option<string>): FunctionResponse {
    var headers: Headers := map["cache-control" := "no-store", "content-type" := "application/json"];
    FunctionResponse(statusCode, if allow.Some? then headers["allow" := allow.value] else headers, body)
  }

  function WithRequestId(response: FunctionResponse, requestId: string): FunctionResponse {
    response.(headers := response.headers["x-request-id" := requestId])
  }

  predicate HasRequiredValue(body: Value, field: string) {
    match body.Get(field)
    case None => false
    case Some(Null) => false
    case Some(Text(text)) => Trim(text) != ""
    case Some(Array(items)) => items != []
    case Some(Object(fields)) => fields != map[]
    case Some(_) => true
  }

  function DispatchRequest(request: FunctionRequest, spec: RouteSpec): FunctionResponse {
    var response :=
      if request.eventBytes > spec.maxEventBytes then FunctionReply(413, TooLargeBody(spec), None)
      else if request.path != spec.path then FunctionReply(404, ErrorBody("route_not_found"), None)
      else if Lower(request.method') != Lower(spec.method') then
        FunctionReply(405, ErrorBody("method_not_allowed"), Some(spec.method'))
      else if !HasRequiredValue(request.body, spec.requiredField) then
        FunctionReply(422, Object(map["error" := Text("missing_required_field"),
                                      "field" := Text(spec.requiredField)]), None)
      else
        FunctionReply(202, Object(map["accepted" := Bool(true),
                                      "handler" := Text(spec.handler),
                                      "request_id" := Text(request.requestId),
                                      "route" := Text(spec.path)]), None);
    WithRequestId(response, request.requestId)
  }
}
