/** The JSON-RPC 2.0 messages the transport reads and writes. */
module JsonRpc {
  import opened Options

  /** A JSON value. Numbers, arrays and objects come with the text they are dumped to. */
  datatype Json =
    | Null
    | Boolean(value: bool)
    | Number(text: string)
    | String(chars: string)
    | Array(text: string)
    | Object(text: string, members: map<string, Json>)

  function Member(j: Json, name: string): Option<Json> {
    if j.Object? && name in j.members then Some(j.members[name]) else None
  }

  function OrNull(id: Option<Json>): Json { if id.Some? then id.value else Null }

  /** The string form of a request id: the characters of a string, the dumped text of anything else. */
  function KeyOf(id: Json): string {
    match id
    case Null => "null"
    case Boolean(b) => if b then "true" else "false"
    case Number(t) => t
    case String(s) => s
    case Array(t) => t
    case Object(t, _) => t
  }

  /** A line of input. A line of a lone carriage return is not empty and does not parse. */
  datatype Line = Empty | Malformed | Parsed(message: Json)

  /** What a method name selects. `Served` is answered by the reader itself, once initialized. */
  datatype Method = Initialize | Initialized | Cancelled | ToolsCall | Served | Unknown

  function MethodOf(name: string): Method {
    if name == "initialize" then Initialize
    else if name == "notifications/initialized" then Initialized
    else if name == "notifications/cancelled" then Cancelled
    else if name == "tools/call" then ToolsCall
    else if name in {"tools/list", "tools/call_batch", "prompts/list", "prompts/get", "resources/list",
                     "resources/read", "resources/subscribe", "resources/unsubscribe"} then Served
    else Unknown
  }

  datatype Content =
    | Invalid(echoed: Json)
    | NoMethodName                  // "method" is there but is not a string
    | Request(kind: Method, id: Option<Json>, params: Json)

  function ContentOf(m: Json): Content {
    if Member(m, "jsonrpc") != Some(String("2.0")) || Member(m, "method").None? then Invalid(OrNull(Member(m, "id")))
    else if !Member(m, "method").value.String? then NoMethodName
    else
      var params := Member(m, "params");
      var kind := MethodOf(Member(m, "method").value.chars);
      Request(kind, Member(m, "id"), if params.Some? then params.value else Object("{}", map[]))
  }

  const PARSE_ERROR := -32700
  const INVALID_REQUEST := -32600
  const METHOD_NOT_FOUND := -32601
  const INVALID_PARAMS := -32602
  const INTERNAL_ERROR := -32603

  datatype Verdict = Success | Failure(code: int)

  datatype Message = Reply(id: Json, verdict: Verdict) | Notification
}
