/**
 * The serverless proxy handler: it derives the upstream path from the inbound
 * path, forwards the request to the fixed upstream origin, and translates the
 * upstream answer into the function's response, choosing Base64 for binary
 * documents, JSON text for JSON, and plain text otherwise.
 *
 * The HTTP call is a parameter (`upstream`), as are `JSON.parse` and
 * `JSON.stringify`; every other step is a total function.
 */
module Proxy {
  import opened Wrappers
  import opened Text
  import opened Json
  import opened Bytes
  import Base64
  import Utf8

  /** The upstream origin every request goes to. */
  const ApiEndpoint: string := "http://13.48.71.148"

  /** The mount prefix of the site's redirect and the function's own path. */
  const ApiPrefix: string := "/api"
  const FunctionPath: string := "/.netlify/functions/proxy"

  const DownloadRoute: string := "/download-file/"
  const DefaultDisposition: string := "attachment; filename=\"document.docx\""
  const ErrorText: string := "An error occurred connecting to the API"
  const TimeoutMs: nat := 60000

  /** The inbound event: path, method and the raw body text, when there is one. */
  datatype Event = Event(path: string, httpMethod: string, body: Option<string>)

  /**
   * The upstream path. A path holding `/api/` loses the first occurrence of
   * `/api` (not necessarily the one followed by `/`); any other path loses the
   * first occurrence of the function's own path, if it has one.
   */
  function DerivePath(path: string): (r: string)
    ensures Includes(path, "/api/") ==>
              |r| == |path| - 4 &&
              exists i: nat :: IndexOf(path, ApiPrefix) == Some(i) && r == path[..i] + path[i + 4..]
    ensures !Includes(path, "/api/") && Includes(path, FunctionPath) ==>
              |r| == |path| - |FunctionPath| &&
              exists i: nat :: IndexOf(path, FunctionPath) == Some(i) && r == path[..i] + path[i + |FunctionPath|..]
    ensures !Includes(path, "/api/") && !Includes(path, FunctionPath) ==> r == path
  {
    if Includes(path, "/api/") then
      ApiInApiSlash(path);
      RemoveFirstFound(path, ApiPrefix, IndexOf(path, ApiPrefix).value);
      ReplaceFirst(path, ApiPrefix, "")
    else
      if Includes(path, FunctionPath) then
        RemoveFirstFound(path, FunctionPath, IndexOf(path, FunctionPath).value);
        ReplaceFirst(path, FunctionPath, "")
      else
        ReplaceAbsent(path, FunctionPath, "");
        ReplaceFirst(path, FunctionPath, "")
  }

  /** A path that holds `/api/` holds `/api`, no later than `/api/` starts. */
  lemma ApiInApiSlash(path: string)
    requires Includes(path, "/api/")
    ensures IndexOf(path, ApiPrefix).Some?
    ensures IndexOf(path, ApiPrefix).value <= IndexOf(path, "/api/").value
  {
    var j := IndexOf(path, "/api/").value;
    assert path[j..j + 4] == path[j..j + 5][..4];
    assert OccursAt(path, ApiPrefix, j);
  }

  /** The URL the request is forwarded to: the origin followed by the derived path. */
  function UpstreamUrl(path: string): (url: string)
    ensures |url| == |ApiEndpoint| + |DerivePath(path)|
    ensures url[..|ApiEndpoint|] == ApiEndpoint && url[|ApiEndpoint|..] == DerivePath(path)
  {
    ApiEndpoint + DerivePath(path)
  }

  /**
   * The derived path need not start with `/`: `/api` is matched anywhere, so a
   * path such as `/apidocs/api/x` loses its leading `/api` and becomes
   * `docs/api/x`, which the URL then glues to the origin's host name.
   */
  lemma DerivedPathMayLoseSlash(path: string)
    requires |path| > 4 && path[..4] == ApiPrefix && path[4] != '/'
    requires Includes(path, "/api/")
    ensures DerivePath(path) == path[4..]
    ensures DerivePath(path)[0] != '/'
    ensures UpstreamUrl(path) == ApiEndpoint + path[4..]
  {
    assert OccursAt(path, ApiPrefix, 0);
  }

  datatype ResponseType = ArrayBuffer | JsonResponse

  /** Download routes are fetched as raw bytes, everything else as JSON. */
  function ResponseTypeFor(derivedPath: string): (t: ResponseType)
    ensures t == ArrayBuffer <==> exists i: nat :: OccursAt(derivedPath, DownloadRoute, i)
  {
    if Includes(derivedPath, DownloadRoute) then ArrayBuffer else JsonResponse
  }

  /** `s.toLowerCase()` on ASCII letters; other characters are kept. */
  function LowerAscii(s: string): (r: string)
    ensures |r| == |s|
    ensures forall i :: 0 <= i < |s| ==>
              r[i] == (if 'A' <= s[i] <= 'Z' then (s[i] as int + 32) as char else s[i])
  {
    seq(|s|, i requires 0 <= i < |s| => if 'A' <= s[i] <= 'Z' then (s[i] as int + 32) as char else s[i])
  }

  /** The body sent upstream: the parsed JSON when the text parses, else the text itself. */
  datatype RequestData = NoData | JsonData(value: JsonValue) | TextData(text: string)

  function RequestBody(body: Option<string>, parse: string -> Option<JsonValue>): (d: RequestData)
    ensures d.NoData? <==> body.None? || body.value == ""
    ensures d.TextData? ==> body == Some(d.text) && parse(d.text).None?
    ensures d.JsonData? ==> body.Some? && parse(body.value) == Some(d.value)
  {
    match body
    case None => NoData
    case Some(text) =>
      if text == "" then NoData
      else match parse(text)
        case Some(v) => JsonData(v)
        case None => TextData(text)
  }

  datatype UpstreamRequest = UpstreamRequest(
    httpMethod: string, url: string, data: RequestData,
    headers: map<string, string>, timeoutMs: nat, responseType: ResponseType)

  /** The request the handler hands to the HTTP client; every status code is accepted. */
  function BuildRequest(event: Event, parse: string -> Option<JsonValue>): (req: UpstreamRequest)
    ensures req.url == UpstreamUrl(event.path)
    ensures req.httpMethod == LowerAscii(event.httpMethod)
    ensures req.headers == map["Content-Type" := "application/json", "Accept" := "*/*"]
    ensures req.data == RequestBody(event.body, parse)
    ensures req.responseType == ResponseTypeFor(DerivePath(event.path))
    ensures req.timeoutMs == TimeoutMs
  {
    UpstreamRequest(LowerAscii(event.httpMethod), UpstreamUrl(event.path), RequestBody(event.body, parse),
                    map["Content-Type" := "application/json", "Accept" := "*/*"], TimeoutMs,
                    ResponseTypeFor(DerivePath(event.path)))
  }

  /**
   * What the HTTP client delivers as `response.data`: a Node `Buffer` when raw
   * bytes were requested, otherwise the parsed JSON value or the text.
   */
  datatype Payload = Buffer(bytes: seq<byte>) | Value(v: JsonValue)

  /** The upstream answer; header names are the lower-case ones the client reports. */
  datatype UpstreamResponse = UpstreamResponse(
    status: int, contentType: Option<string>, contentDisposition: Option<string>, data: Payload)

  /** A JavaScript error as the handler sees it in its `catch`. */
  datatype Thrown = Thrown(message: string, stack: Option<string>)

  /** The response body: text, or a number or boolean the JSON branch passes through unconverted. */
  datatype Body = TextBody(text: string) | ValueBody(value: JsonValue)

  datatype Outbound = Outbound(statusCode: int, headers: map<string, string>, body: Body, isBase64Encoded: bool)

  /** A header value that is present and not empty (JavaScript truthiness). */
  predicate Truthy(h: Option<string>) {
    h.Some? && h.value != ""
  }

  predicate IsBinaryType(contentType: string) {
    Includes(contentType, "application/vnd.openxmlformats")
    || Includes(contentType, "application/octet-stream")
    || Includes(contentType, "application/pdf")
  }

  predicate IsJsonType(contentType: string) {
    Includes(contentType, "application/json")
  }

  /** `typeof data === 'object'`: buffers, arrays, objects and `null`. */
  predicate IsObject(data: Payload) {
    data.Buffer? || TypeOf(data.v) == TObject
  }

  /** The bytes of a buffer as JSON numbers, in order. */
  function ByteNumbers(bytes: seq<byte>): (r: seq<JsonValue>)
    ensures |r| == |bytes| && forall i :: 0 <= i < |bytes| ==> r[i] == JNumber(bytes[i] as int)
  {
    seq(|bytes|, i requires 0 <= i < |bytes| => JNumber(bytes[i] as int))
  }

  /**
   * What `JSON.stringify` prints for a Node `Buffer`: `Buffer.prototype.toJSON`
   * turns it into `{type: 'Buffer', data: [...]}` with one number per byte.
   */
  function BufferJson(bytes: seq<byte>): (v: JsonValue)
    ensures v.JObject?
    ensures Member(v.members, "type") == Some(JString("Buffer"))
    ensures Member(v.members, "data") == Some(JArray(ByteNumbers(bytes)))
    ensures Member(v.members, "length").None?
  {
    var empty: seq<(string, JsonValue)> := [];
    var typed := empty + [("type", JString("Buffer"))];
    BufferKeysDiffer();
    MemberAppend(empty, "type", JString("Buffer"));
    MemberAppend(typed, "data", JArray(ByteNumbers(bytes)));
    JObject(typed + [("data", JArray(ByteNumbers(bytes)))])
  }

  /** The member names of a printed buffer differ from each other and from `length`. */
  lemma BufferKeysDiffer()
    ensures "type" != "data" && "type" != "length" && "data" != "length"
  {
    assert "type"[0] != "data"[0] && "type"[0] != "length"[0] && "data"[0] != "length"[0];
  }

  /** `JSON.stringify(data)`; a buffer is printed through its `toJSON`. */
  function StringifyPayload(data: Payload, stringify: JsonValue -> string): string {
    match data
    case Buffer(bytes) => stringify(BufferJson(bytes))
    case Value(v) => stringify(v)
  }

  /** The byte a typed-array store makes of an array element (ToUint8). */
  function ElementByte(v: JsonValue): (b: byte)
    ensures v.JNumber? ==> b as int == v.n % 256
  {
    match v
    case JNumber(n) => (n % 256) as byte
    case JBool(b) => if b then 1 else 0
    case _ => 0
  }

  /** Element by element, as a typed-array store of an array. */
  function ArrayBytes(elems: seq<JsonValue>): (r: seq<byte>)
    ensures |r| == |elems| && forall i :: 0 <= i < |elems| ==> r[i] == ElementByte(elems[i])
  {
    seq(|elems|, i requires 0 <= i < |elems| => ElementByte(elems[i]))
  }

  /**
   * `fromArrayLike` on an object with a numeric `length`: that many bytes, the
   * one at `i` from the member named `i`, a missing member giving 0.
   */
  function ArrayLikeBytes(members: seq<(string, JsonValue)>, length: int): (r: seq<byte>)
    ensures |r| == if length > 0 then length else 0
  {
    if length <= 0 then []
    else seq(length, i requires 0 <= i < length =>
                       match Member(members, NatToString(i))
                       case Some(e) => ElementByte(e)
                       case None => 0)
  }

  /** `obj.length !== undefined`: `fromObject` treats the object as array-like. */
  predicate HasLength(members: seq<(string, JsonValue)>) {
    Member(members, "length").Some?
  }

  /** `obj.type === 'Buffer' && Array.isArray(obj.data)`: a printed buffer read back. */
  predicate BufferShaped(members: seq<(string, JsonValue)>) {
    Member(members, "type") == Some(JString("Buffer"))
    && Member(members, "data").Some? && Member(members, "data").value.JArray?
  }

  const BufferArgumentError: string :=
    "The first argument must be of type string or an instance of Buffer, ArrayBuffer, or Array or an Array-like Object."

  /** The first line of the stack of Node's argument-type error, before its message. */
  const ArgTypeErrorName: string := "TypeError [ERR_INVALID_ARG_TYPE]: "

  /**
   * The `TypeError` `Buffer.from` throws: the fixed text, then what it received.
   * The stack is the name and message followed by `frames`, the call-site lines
   * the runtime adds.
   */
  function ArgumentError(received: string, frames: string): (e: Thrown)
    ensures e.message == BufferArgumentError + " Received " + received
    ensures e.stack == Some(ArgTypeErrorName + e.message + frames)
  {
    var message := BufferArgumentError + " Received " + received;
    Thrown(message, Some(ArgTypeErrorName + message + frames))
  }

  /**
   * `Buffer.from(data)`: bytes as they are, text as UTF-8, an array element by
   * element. An object with a `length` member is array-like (no bytes when the
   * length is not a number); one without is accepted when it has the shape of
   * a printed buffer. `null`, numbers, booleans and other objects throw.
   */
  function BufferFrom(data: Payload, frames: string): (r: Result<seq<byte>, Thrown>)
    ensures data.Buffer? ==> r == Ok(data.bytes)
    ensures data.Value? && data.v.JString? ==> r == Ok(Utf8.Encode(data.v.s))
    ensures data.Value? && data.v.JArray? ==> r == Ok(ArrayBytes(data.v.elems))
    ensures data.Value? && data.v.JObject? && HasLength(data.v.members) ==>
              r.Ok? && |r.value| == match Member(data.v.members, "length").value
                                    case JNumber(n) => if n > 0 then n else 0
                                    case _ => 0
    ensures data.Value? && data.v.JObject? && !HasLength(data.v.members) && BufferShaped(data.v.members) ==>
              r == Ok(ArrayBytes(Member(data.v.members, "data").value.elems))
    ensures r.Err? <==> data.Value? && (data.v.JNull? || data.v.JBool? || data.v.JNumber? ||
                                        (data.v.JObject? && !HasLength(data.v.members) && !BufferShaped(data.v.members)))
    ensures data == Value(JNull) ==> r == Err(ArgumentError("null", frames))
    ensures data.Value? && data.v.JBool? ==>
              r == Err(ArgumentError("type boolean (" + (if data.v.b then "true" else "false") + ")", frames))
    ensures data.Value? && data.v.JNumber? ==> r == Err(ArgumentError("type number (" + IntToString(data.v.n) + ")", frames))
    ensures data.Value? && data.v.JObject? && r.Err? ==> r == Err(ArgumentError("an instance of Object", frames))
  {
    match data
    case Buffer(bytes) => Ok(bytes)
    case Value(JString(s)) => Ok(Utf8.Encode(s))
    case Value(JArray(elems)) => Ok(ArrayBytes(elems))
    case Value(JObject(members)) =>
      if HasLength(members) then
        match Member(members, "length").value
        case JNumber(n) => Ok(ArrayLikeBytes(members, n))
        case _ => Ok([])
      else if BufferShaped(members) then Ok(ArrayBytes(Member(members, "data").value.elems))
      else Err(ArgumentError("an instance of Object", frames))
    case Value(JNull) => Err(ArgumentError("null", frames))
    case Value(JBool(b)) => Err(ArgumentError("type boolean (" + (if b then "true" else "false") + ")", frames))
    case Value(JNumber(n)) => Err(ArgumentError("type number (" + IntToString(n) + ")", frames))
  }

  /** A buffer printed by `JSON.stringify` and parsed back is turned by `Buffer.from` into the same bytes. */
  lemma BufferJsonReadBack(bytes: seq<byte>, frames: string)
    ensures TypeOf(BufferJson(bytes)) == TObject
    ensures BufferFrom(Value(BufferJson(bytes)), frames) == Ok(bytes)
  {
    var back := ArrayBytes(ByteNumbers(bytes));
    forall i | 0 <= i < |bytes| ensures back[i] == bytes[i] {
      assert ElementByte(JNumber(bytes[i] as int)) as int == (bytes[i] as int) % 256;
    }
    assert back == bytes;
  }

  /** The 500 response every thrown error becomes; its body has no headers. */
  function ErrorResponse(e: Thrown, stringify: JsonValue -> string): (r: Outbound)
    ensures r.statusCode == 500 && r.headers == map[] && !r.isBase64Encoded
    ensures r.body == TextBody(stringify(ErrorObject(e)))
  {
    Outbound(500, map[], TextBody(stringify(ErrorObject(e))), false)
  }

  /** `{error, message, stack}`; `JSON.stringify` leaves out a missing stack. */
  function ErrorObject(e: Thrown): (v: JsonValue)
    ensures v.JObject?
    ensures Member(v.members, "error") == Some(JString(ErrorText))
    ensures Member(v.members, "message") == Some(JString(e.message))
    ensures Member(v.members, "stack") == if e.stack.Some? then Some(JString(e.stack.value)) else None
  {
    var empty: seq<(string, JsonValue)> := [];
    var withError := empty + [("error", JString(ErrorText))];
    var fixed := withError + [("message", JString(e.message))];
    ErrorKeysDiffer();
    MemberAppend(empty, "error", JString(ErrorText));
    MemberAppend(withError, "message", JString(e.message));
    match e.stack
    case Some(s) =>
      MemberAppend(fixed, "stack", JString(s));
      JObject(fixed + [("stack", JString(s))])
    case None => JObject(fixed)
  }

  /** The three member names of the error object are different. */
  lemma ErrorKeysDiffer()
    ensures "error" != "message" && "error" != "stack" && "message" != "stack"
  {
    assert "error"[0] != "message"[0] && "error"[0] != "stack"[0] && "message"[0] != "stack"[0];
  }

  /** The upstream content type selects the binary branch. */
  predicate BinaryBranch(resp: UpstreamResponse) {
    Truthy(resp.contentType) && IsBinaryType(resp.contentType.value)
  }

  /** The upstream content type selects the JSON branch: it is JSON and not binary. */
  predicate JsonBranch(resp: UpstreamResponse) {
    !BinaryBranch(resp) && Truthy(resp.contentType) && IsJsonType(resp.contentType.value)
  }

  /**
   * The three response branches, tried in order: binary, JSON, everything else.
   * Every status code is passed through; only a `Buffer.from` failure in the
   * binary branch turns into a 500. A Base64 body always decodes to the bytes
   * `Buffer.from` made and comes with the upstream content type and a
   * disposition, the upstream one or the default.
   */
  function Translate(resp: UpstreamResponse, stringify: JsonValue -> string, frames: string): (r: Outbound)
    ensures r.isBase64Encoded <==> BinaryBranch(resp) && BufferFrom(resp.data, frames).Ok?
    ensures r.statusCode == if BinaryBranch(resp) && BufferFrom(resp.data, frames).Err? then 500 else resp.status
    ensures r.isBase64Encoded ==>
              r.body.TextBody? && Base64.Decode(r.body.text) == Some(BufferFrom(resp.data, frames).value)
    ensures r.isBase64Encoded ==>
              r.headers == map["Content-Type" := resp.contentType.value,
                               "Content-Disposition" := if Truthy(resp.contentDisposition) then resp.contentDisposition.value
                                                        else DefaultDisposition]
    ensures "Content-Type" in r.headers || (r.statusCode == 500 && r.headers == map[] && !r.isBase64Encoded)
  {
    if BinaryBranch(resp) then
      match BufferFrom(resp.data, frames)
      case Err(e) => ErrorResponse(e, stringify)
      case Ok(bytes) =>
        Base64.DecodeEncode(bytes);
        Outbound(resp.status,
                 map["Content-Type" := resp.contentType.value,
                     "Content-Disposition" := if Truthy(resp.contentDisposition) then resp.contentDisposition.value
                                              else DefaultDisposition],
                 TextBody(Base64.Encode(bytes)), true)
    else if JsonBranch(resp) then
      Outbound(resp.status, map["Content-Type" := "application/json"],
               if IsObject(resp.data) then TextBody(StringifyPayload(resp.data, stringify))
               else if resp.data.v.JString? then TextBody(resp.data.v.s)
               else ValueBody(resp.data.v),
               false)
    else
      Outbound(resp.status,
               map["Content-Type" := if Truthy(resp.contentType) then resp.contentType.value else "text/plain"],
               TextBody(if IsObject(resp.data) then StringifyPayload(resp.data, stringify)
                        else if resp.data.v.JString? then resp.data.v.s
                        else ""),
               false)
  }

  /**
   * The whole handler: a thrown HTTP-client error becomes a 500, any answer is
   * translated. A Base64 body only ever answers an upstream binary reply, and
   * every answer names its content type except the header-less 500.
   */
  function Handle(event: Event, parse: string -> Option<JsonValue>,
                  upstream: UpstreamRequest -> Result<UpstreamResponse, Thrown>,
                  stringify: JsonValue -> string, frames: string): (r: Outbound)
    ensures var call := upstream(BuildRequest(event, parse));
      r.isBase64Encoded ==>
        call.Ok? && BinaryBranch(call.value) && r.statusCode == call.value.status && r.body.TextBody? &&
        BufferFrom(call.value.data, frames).Ok? && Base64.Decode(r.body.text) == Some(BufferFrom(call.value.data, frames).value)
    ensures "Content-Type" in r.headers || (r.statusCode == 500 && r.headers == map[] && !r.isBase64Encoded)
  {
    var call := upstream(BuildRequest(event, parse));
    match call
    case Err(e) => ErrorResponse(e, stringify)
    case Ok(resp) => Translate(resp, stringify, frames)
  }

  /**
   * A binary document fetched as raw bytes is returned Base64-encoded: the
   * body decodes to exactly the upstream bytes, the content type is copied,
   * and the disposition is the upstream one or `document.docx`.
   */
  lemma BinaryBytesRoundTrip(resp: UpstreamResponse, stringify: JsonValue -> string, frames: string)
    requires BinaryBranch(resp) && resp.data.Buffer?
    ensures var r := Translate(resp, stringify, frames);
      r.isBase64Encoded && r.statusCode == resp.status &&
      r.body.TextBody? && Base64.Decode(r.body.text) == Some(resp.data.bytes) &&
      r.headers["Content-Type"] == resp.contentType.value &&
      r.headers["Content-Disposition"] ==
        (if Truthy(resp.contentDisposition) then resp.contentDisposition.value else DefaultDisposition)
  {
    Base64.DecodeEncode(resp.data.bytes);
  }

  /**
   * A binary document that the HTTP client delivered as text (any route that is
   * not a download route) is returned as the Base64 of the text's UTF-8 bytes.
   */
  lemma BinaryTextRoundTrip(resp: UpstreamResponse, stringify: JsonValue -> string, frames: string)
    requires BinaryBranch(resp) && resp.data.Value? && resp.data.v.JString?
    ensures var r := Translate(resp, stringify, frames);
      r.isBase64Encoded && r.body.TextBody? &&
      Base64.Decode(r.body.text) == Some(Utf8.Encode(resp.data.v.s)) &&
      Utf8.Decode(Utf8.Encode(resp.data.v.s)) == Some(resp.data.v.s)
  {
    Utf8.DecodeEncode(resp.data.v.s);
  }

  /**
   * Binary content that `Buffer.from` refuses is answered with a 500 whose
   * printed error object carries Node's message and a stack starting with it.
   */
  lemma BufferFailureReported(resp: UpstreamResponse, stringify: JsonValue -> string, frames: string)
    requires BinaryBranch(resp) && BufferFrom(resp.data, frames).Err?
    ensures var e := BufferFrom(resp.data, frames).error;
      var r := Translate(resp, stringify, frames);
      r.statusCode == 500 && r.headers == map[] && r.body == TextBody(stringify(ErrorObject(e))) &&
      Member(ErrorObject(e).members, "message") == Some(JString(e.message)) &&
      e.message[..|BufferArgumentError| + 10] == BufferArgumentError + " Received " &&
      Member(ErrorObject(e).members, "stack") == Some(JString(ArgTypeErrorName + e.message + frames))
  {
  }

  /** The binary check comes first: a content type that is both binary and JSON is never treated as JSON. */
  lemma BinaryBeforeJson(resp: UpstreamResponse, stringify: JsonValue -> string, frames: string)
    requires Truthy(resp.contentType) && IsBinaryType(resp.contentType.value) && IsJsonType(resp.contentType.value)
    ensures var r := Translate(resp, stringify, frames);
      r.isBase64Encoded || (r.statusCode == 500 && r.headers == map[])
    ensures resp.data.Buffer? ==> Translate(resp, stringify, frames).isBase64Encoded
  {
  }

  /**
   * The JSON branch keeps the status and labels the body exactly
   * `application/json`, never Base64: objects, `null` and buffers are printed
   * (a buffer through its `toJSON`), strings pass as they are, and numbers
   * and booleans pass unconverted, not as text.
   */
  lemma JsonBranchBody(resp: UpstreamResponse, stringify: JsonValue -> string, frames: string)
    requires JsonBranch(resp)
    ensures var r := Translate(resp, stringify, frames);
      r.statusCode == resp.status && !r.isBase64Encoded &&
      r.headers == map["Content-Type" := "application/json"]
    ensures resp.data.Value? && resp.data.v.JString? ==>
              Translate(resp, stringify, frames).body == TextBody(resp.data.v.s)
    ensures resp.data.Value? && (resp.data.v.JNumber? || resp.data.v.JBool?) ==>
              Translate(resp, stringify, frames).body == ValueBody(resp.data.v)
    ensures resp.data.Value? && TypeOf(resp.data.v) == TObject ==>
              Translate(resp, stringify, frames).body == TextBody(stringify(resp.data.v))
    ensures resp.data.Buffer? ==>
              Translate(resp, stringify, frames).body == TextBody(stringify(BufferJson(resp.data.bytes)))
  {
  }

  /**
   * Any other answer keeps its content type (or gets `text/plain`) and a text
   * body: printed objects and buffers, strings as they are, and nothing for
   * numbers and booleans.
   */
  lemma DefaultBranchBody(resp: UpstreamResponse, stringify: JsonValue -> string, frames: string)
    requires !BinaryBranch(resp) && !JsonBranch(resp)
    ensures var r := Translate(resp, stringify, frames);
      r.statusCode == resp.status && !r.isBase64Encoded &&
      r.headers == map["Content-Type" := if Truthy(resp.contentType) then resp.contentType.value else "text/plain"] &&
      r.body.TextBody? &&
      (resp.data.Value? && !resp.data.v.JString? && TypeOf(resp.data.v) != TObject ==> r.body.text == "")
    ensures resp.data.Value? && resp.data.v.JString? ==>
              Translate(resp, stringify, frames).body == TextBody(resp.data.v.s)
    ensures resp.data.Value? && TypeOf(resp.data.v) == TObject ==>
              Translate(resp, stringify, frames).body == TextBody(stringify(resp.data.v))
    ensures resp.data.Buffer? ==>
              Translate(resp, stringify, frames).body == TextBody(stringify(BufferJson(resp.data.bytes)))
  {
  }

  /** The handler answers 500 when the HTTP client throws or `Buffer.from` refuses the data, and the upstream status otherwise. */
  lemma HandleStatus(event: Event, parse: string -> Option<JsonValue>,
                     upstream: UpstreamRequest -> Result<UpstreamResponse, Thrown>,
                     stringify: JsonValue -> string, frames: string)
    ensures var call := upstream(BuildRequest(event, parse));
      var r := Handle(event, parse, upstream, stringify, frames);
      (call.Err? ==> r.statusCode == 500 && r.body == TextBody(stringify(ErrorObject(call.error)))) &&
      (call.Ok? ==> r.statusCode == (if BinaryBranch(call.value) && BufferFrom(call.value.data, frames).Err?
                                     then 500 else call.value.status))
  {
  }
}
