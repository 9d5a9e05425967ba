/**
  The inspector's records of JSON-RPC traffic (src-tauri/src/inspector.rs): captured messages,
  inspector sessions, and the classification of a raw line as a request or a response.
  Identifiers and timestamps come from a UUID generator and the clock; they are parameters here.
*/
module Inspector {
  import opened Wrappers
  import opened Json

  datatype MessageDirection = Request | Response

  /** One captured JSON-RPC message. */
  datatype InspectorMessage = InspectorMessage(
    id: string,
    timestamp: string,
    direction: MessageDirection,
    serverName: string,
    payload: Json,
    methodName: Option<string>,
    durationMs: Option<nat>)

  /** An inspector session as returned to the frontend. */
  datatype InspectorSession = InspectorSession(
    serverName: string,
    startedAt: string,
    isActive: bool,
    messageCount: nat)

  /** The method name of a payload: its `method` member, when that member is a string. */
  function MethodName(payload: Json): (r: Option<string>)
    ensures r.Some? <==> payload.Object? && "method" in payload.members && payload.members["method"].Str?
    ensures r.Some? ==> r.value == payload.members["method"].s
  {
    match Get(payload, "method")
    case None => None
    case Some(m) => AsStr(m)
  }

  /** `InspectorMessage::new_request`: a request, named after its string-valued `method`. */
  function NewRequest(serverName: string, payload: Json, id: string, now: string): (m: InspectorMessage)
    ensures m.direction == Request && m.serverName == serverName && m.payload == payload
    ensures m.methodName.Some? <==> payload.Object? && "method" in payload.members && payload.members["method"].Str?
    ensures m.methodName.Some? ==> m.methodName.value == payload.members["method"].s
    ensures m.durationMs == None && m.id == id && m.timestamp == now
  {
    InspectorMessage(id, now, Request, serverName, payload, MethodName(payload), None)
  }

  /** `InspectorMessage::new_response`: a response, never named, whatever its payload holds. */
  function NewResponse(serverName: string, payload: Json, id: string, now: string): (m: InspectorMessage)
    ensures m.direction == Response && m.serverName == serverName && m.payload == payload
    ensures m.methodName == None && m.durationMs == None && m.id == id && m.timestamp == now
  {
    InspectorMessage(id, now, Response, serverName, payload, None, None)
  }

  /** `InspectorSession::new`: an active session with no messages yet. */
  function NewSession(serverName: string, now: string): (s: InspectorSession)
    ensures s.serverName == serverName && s.startedAt == now
    ensures s.isActive && s.messageCount == 0
  {
    InspectorSession(serverName, now, true, 0)
  }

  /**
    The classification step of `parse_jsonrpc_message` on an already parsed value: a value
    with a `method` member is a request; otherwise one with a `result` or an `error` member
    is a response; anything else, including every value that is not an object, is neither.
  */
  function Classify(v: Json): (r: Option<MessageDirection>)
    ensures r.Some? ==> v.Object? && ("method" in v.members || "result" in v.members || "error" in v.members)
  {
    if Get(v, "method").Some? then Some(Request)
    else if Get(v, "result").Some? || Get(v, "error").Some? then Some(Response)
    else None
  }

  /**
    `parse_jsonrpc_message`: parse the text (the JSON parser is a parameter, a partial
    function from text to values) and classify the value, which is handed back unchanged.
  */
  function ParseJsonRpcMessage(parse: string -> Option<Json>, raw: string): (r: Option<(MessageDirection, Json)>)
    ensures parse(raw).None? ==> r.None?
    ensures r.Some? ==> parse(raw) == Some(r.value.1)
    ensures r.Some? ==> Classify(r.value.1) == Some(r.value.0)
    ensures parse(raw).Some? && Classify(parse(raw).value).Some? ==> r.Some?
  {
    match parse(raw)
    case None => None
    case Some(v) =>
      match Classify(v)
      case None => None
      case Some(d) => Some((d, v))
  }

  /** A `method` member makes a request, whatever else the object holds. */
  lemma MethodMakesRequest(v: Json)
    requires v.Object? && "method" in v.members
    ensures Classify(v) == Some(Request)
  {
  }

  /** Without `method`, a value is a response exactly when it has `result` or `error`. */
  lemma ResponseIffResultOrError(v: Json)
    requires !(v.Object? && "method" in v.members)
    ensures Classify(v) == Some(Response) <==> v.Object? && ("result" in v.members || "error" in v.members)
    ensures Classify(v) == None <==> !(v.Object? && ("result" in v.members || "error" in v.members))
  {
  }

  /** A value that is not an object is never classified. */
  lemma NonObjectUnclassified(v: Json)
    requires !v.Object?
    ensures Classify(v) == None
  {
  }

  /**
    A request object in the sense of section 4 of the JSON-RPC 2.0 specification: `jsonrpc`
    is "2.0", `method` is a string, `params` (if any) is structured, `id` (absent for a
    notification) is a string, a number or null, and there are no other members.
  */
  predicate IsJsonRpcRequest(v: Json)
  {
    && v.Object?
    && v.members.Keys <= {"jsonrpc", "method", "params", "id"}
    && "jsonrpc" in v.members && v.members["jsonrpc"] == Str("2.0")
    && "method" in v.members && v.members["method"].Str?
    && ("params" in v.members ==> v.members["params"].Array? || v.members["params"].Object?)
    && ("id" in v.members ==> v.members["id"].Str? || v.members["id"].Number? || v.members["id"].Null?)
  }

  /**
    A response object in the sense of section 5 of the JSON-RPC 2.0 specification: `jsonrpc`
    is "2.0", exactly one of `result` and `error` is present, `id` is present, and there are
    no other members.
  */
  predicate IsJsonRpcResponse(v: Json)
  {
    && v.Object?
    && v.members.Keys <= {"jsonrpc", "result", "error", "id"}
    && "jsonrpc" in v.members && v.members["jsonrpc"] == Str("2.0")
    && (("result" in v.members) != ("error" in v.members))
    && "id" in v.members
  }

  /** Every JSON-RPC 2.0 request (notifications included) is classified as a request and named. */
  lemma RequestsClassifyAsRequests(v: Json, server: string, id: string, now: string)
    requires IsJsonRpcRequest(v)
    ensures Classify(v) == Some(Request)
    ensures NewRequest(server, v, id, now).methodName == Some(v.members["method"].s)
  {
  }

  /** Every JSON-RPC 2.0 response is classified as a response. */
  lemma ResponsesClassifyAsResponses(v: Json)
    requires IsJsonRpcResponse(v)
    ensures Classify(v) == Some(Response)
  {
    assert "method" !in v.members;
  }

  /**
    The two cases of the module's tests, `{"jsonrpc":"2.0","method":"tools/list","id":1}`
    and `{"jsonrpc":"2.0","result":{"tools":[]},"id":1}`, for any parser that reads them
    as those values.
  */
  lemma ParsesTestMessages(parse: string -> Option<Json>, request: string, response: string)
    requires parse(request) == Some(Object(map["jsonrpc" := Str("2.0"), "method" := Str("tools/list"), "id" := Number(1)]))
    requires parse(response) == Some(Object(map["jsonrpc" := Str("2.0"), "result" := Object(map["tools" := Array([])]), "id" := Number(1)]))
    ensures ParseJsonRpcMessage(parse, request).Some? && ParseJsonRpcMessage(parse, request).value.0 == Request
    ensures ParseJsonRpcMessage(parse, response).Some? && ParseJsonRpcMessage(parse, response).value.0 == Response
  {
    var resp := parse(response).value;
    assert "method" !in resp.members;
  }
}
