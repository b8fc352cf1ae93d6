/**
 * The decisions `HttpClient` takes around one HTTP exchange: the URL it
 * opens, the body it sends, the verb each helper fixes, and whether the
 * reply is handed back JSON-decoded or as raw bytes.
 *
 * The network, URL-encoding, text encoding and JSON decoding are library
 * calls whose behaviour is not modelled; they are the function-typed fields
 * of an `Env`, and a library call that raises is one that returns `None`.
 */
module HttpClient {
  import opened Wrappers
  import opened ContentTypes

  newtype byte = x: int | 0 <= x < 256

  type Bytes = seq<byte>

  /** A `Mapping[str, str]` (the query or the headers), as its items in iteration order. */
  type Pairs = seq<(string, string)>

  /** The `data` argument of `patch` and `post`, when there is one: text or bytes. */
  datatype Payload = Text(text: string) | Binary(bytes: Bytes)

  /** The `urllib.request.Request` that is opened. */
  datatype Request = Request(url: string, data: Option<Bytes>, verb: string, headers: Pairs)

  /** What the opened request yields: its `Content-Type` header, if it has one, and the body read. */
  datatype Reply = Reply(contentType: Option<string>, body: Bytes)

  /** The `data` of a response: the decoded JSON document or the raw body. */
  datatype Data<J> = Json(json: J) | Raw(bytes: Bytes)

  /** `HttpResponse`: the reply, its parsed content type and its data. */
  datatype HttpResponse<J> = HttpResponse(raw: Reply, contentType: ContentType, data: Data<J>)

  /** The exceptions an exchange can end in. */
  datatype Error =
    | EncodingMissing  // text data with `encoding=None`: `str.encode` rejects a `None` codec name
    | EncodeFailed     // the codec is unknown or cannot encode the text
    | TransportFailed  // opening the request raised
    | JsonInvalid      // the body of a JSON reply does not decode

  /**
   * The library calls an exchange depends on: `urlencode`, `str.encode`
   * (text and codec name), `urlopen` followed by reading the body, and
   * `json.loads`.
   */
  datatype Env<J> = Env(
    urlencode: Pairs -> string,
    encode: (string, string) -> Option<Bytes>,
    urlopen: Request -> Option<Reply>,
    loads: Bytes -> Option<J>)

  // ---------------------------------------------------------------------
  // The request
  // ---------------------------------------------------------------------

  /**
   * The URL `_request` opens: the one given, followed by `?` and the
   * URL-encoded query when the query is non-empty.
   */
  function FullUrl(url: string, query: Pairs, urlencode: Pairs -> string): (r: string)
    ensures |url| <= |r| && r[..|url|] == url
    ensures r == url <==> query == []
    ensures query != [] ==> r[|url|] == '?' && r[|url| + 1..] == urlencode(query)
  {
    if query == [] then url else url + "?" + urlencode(query)
  }

  /**
   * The body `patch` and `post` send: text is encoded with the codec named
   * by `encoding`; bytes and no data pass through unchanged.
   */
  function EncodeData(data: Option<Payload>, encoding: Option<string>, encode: (string, string) -> Option<Bytes>)
    : (r: Result<Option<Bytes>, Error>)
    ensures data.None? ==> r == Success(None)
    ensures data.Some? && data.value.Binary? ==> r == Success(Some(data.value.bytes))
    ensures data.Some? && data.value.Text? ==>
      && (r.Success? <==> encoding.Some? && encode(data.value.text, encoding.value).Some?)
      && (r.Success? ==> r.value == encode(data.value.text, encoding.value))
      && (encoding.None? ==> r == Failure(EncodingMissing))
      && (encoding.Some? && encode(data.value.text, encoding.value).None? ==> r == Failure(EncodeFailed))
    ensures r.Failure? ==> data.Some? && data.value.Text? && r.error in {EncodingMissing, EncodeFailed}
  {
    match data
    case None => Success(None)
    case Some(Binary(bytes)) => Success(Some(bytes))
    case Some(Text(text)) =>
      if encoding.None? then Failure(EncodingMissing)
      else match encode(text, encoding.value)
        case None => Failure(EncodeFailed)
        case Some(bytes) => Success(Some(bytes))
  }

  // ---------------------------------------------------------------------
  // The reply
  // ---------------------------------------------------------------------

  /**
   * The end of `_request`: the content type is parsed from the reply's
   * header, and the body is JSON-decoded exactly when that content type is
   * JSON; otherwise it is returned as it was read.
   */
  function Receive<J>(reply: Reply, loads: Bytes -> Option<J>): (r: Result<HttpResponse<J>, Error>)
    ensures r.Success? ==> r.value.raw == reply && r.value.contentType == FromHeader(reply.contentType)
    ensures r.Success? ==> (r.value.data.Json? <==> IsJson(FromHeader(reply.contentType)))
    ensures r.Success? && r.value.data.Json? ==> loads(reply.body) == Some(r.value.data.json)
    ensures r.Success? && r.value.data.Raw? ==> r.value.data.bytes == reply.body
    ensures r.Failure? <==> IsJson(FromHeader(reply.contentType)) && loads(reply.body).None?
    ensures r.Failure? ==> r.error == JsonInvalid
  {
    var contentType := FromHeader(reply.contentType);
    if IsJson(contentType) then
      match loads(reply.body)
      case None => Failure(JsonInvalid)
      case Some(json) => Success(HttpResponse(reply, contentType, Json(json)))
    else
      Success(HttpResponse(reply, contentType, Raw(reply.body)))
  }

  // ---------------------------------------------------------------------
  // The exchange and its three entry points
  // ---------------------------------------------------------------------

  /**
   * `HttpClient._request`: the request is opened, and the reply it yields
   * is received; a request that cannot be opened ends the exchange.
   */
  function Exchange<J>(env: Env<J>, url: string, verb: string, query: Pairs, data: Option<Bytes>, headers: Pairs)
    : (r: Result<HttpResponse<J>, Error>)
    ensures var sent := Request(FullUrl(url, query, env.urlencode), data, verb, headers);
      && (r.Success? ==> env.urlopen(sent) == Some(r.value.raw))
      && (r == Failure(TransportFailed) <==> env.urlopen(sent).None?)
      && (env.urlopen(sent).Some? ==> r == Receive(env.urlopen(sent).value, env.loads))
    ensures r.Failure? ==> r.error in {TransportFailed, JsonInvalid}
  {
    match env.urlopen(Request(FullUrl(url, query, env.urlencode), data, verb, headers))
    case None => Failure(TransportFailed)
    case Some(reply) => Receive(reply, env.loads)
  }

  /**
   * `HttpClient.get`: the response wraps what the `GET` request with no
   * body, at the URL with the query appended, yields.
   */
  function Get<J>(env: Env<J>, url: string, query: Pairs, headers: Pairs): (r: Result<HttpResponse<J>, Error>)
    ensures var sent := Request(FullUrl(url, query, env.urlencode), None, "GET", headers);
      && (r.Success? ==> env.urlopen(sent) == Some(r.value.raw))
      && (r == Failure(TransportFailed) <==> env.urlopen(sent).None?)
      && (env.urlopen(sent).Some? ==> r == Receive(env.urlopen(sent).value, env.loads))
    ensures r.Failure? ==> r.error in {TransportFailed, JsonInvalid}
  {
    Exchange(env, url, "GET", query, None, headers)
  }

  /**
   * The shared shape of `patch` and `post`: the body is prepared first, and
   * an encoding failure ends the call before anything is opened; otherwise
   * the response wraps what the request with that body yields.
   */
  function Upload<J>(env: Env<J>, verb: string, url: string, query: Pairs, headers: Pairs,
                     data: Option<Payload>, encoding: Option<string>): (r: Result<HttpResponse<J>, Error>)
    ensures var body := EncodeData(data, encoding, env.encode);
      && (body.Failure? ==> r == Failure(body.error))
      && (r.Success? ==>
            body.Success? && env.urlopen(Request(FullUrl(url, query, env.urlencode), body.value, verb, headers)) == Some(r.value.raw))
      && (body.Success? ==> r == Exchange(env, url, verb, query, body.value, headers))
  {
    match EncodeData(data, encoding, env.encode)
    case Failure(e) => Failure(e)
    case Success(body) => Exchange(env, url, verb, query, body, headers)
  }

  /** `HttpClient.patch`: an upload whose request has the verb `PATCH`. */
  function Patch<J>(env: Env<J>, url: string, query: Pairs, headers: Pairs,
                    data: Option<Payload>, encoding: Option<string>): (r: Result<HttpResponse<J>, Error>)
    ensures var body := EncodeData(data, encoding, env.encode);
      && (body.Failure? ==> r == Failure(body.error))
      && (r.Success? ==>
            body.Success? && env.urlopen(Request(FullUrl(url, query, env.urlencode), body.value, "PATCH", headers)) == Some(r.value.raw))
      && (body.Success? ==> r == Exchange(env, url, "PATCH", query, body.value, headers))
  {
    Upload(env, "PATCH", url, query, headers, data, encoding)
  }

  /** `HttpClient.post`: an upload whose request has the verb `POST`. */
  function Post<J>(env: Env<J>, url: string, query: Pairs, headers: Pairs,
                   data: Option<Payload>, encoding: Option<string>): (r: Result<HttpResponse<J>, Error>)
    ensures var body := EncodeData(data, encoding, env.encode);
      && (body.Failure? ==> r == Failure(body.error))
      && (r.Success? ==>
            body.Success? && env.urlopen(Request(FullUrl(url, query, env.urlencode), body.value, "POST", headers)) == Some(r.value.raw))
      && (body.Success? ==> r == Exchange(env, url, "POST", query, body.value, headers))
  {
    Upload(env, "POST", url, query, headers, data, encoding)
  }

  /** The default `encoding` of `patch` and `post`. */
  const Utf8: Option<string> := Some("utf-8")

  // ---------------------------------------------------------------------
  // Properties
  // ---------------------------------------------------------------------

  /**
   * A reply is JSON-decoded exactly when its type is `application` and its
   * subtype `json`, ignoring ASCII case, whatever its parameter.
   */
  lemma DecodedIffApplicationJson<J>(reply: Reply, loads: Bytes -> Option<J>)
    requires Receive(reply, loads).Success?
    ensures var ct := FromHeader(reply.contentType);
      Receive(reply, loads).value.data.Json? <==> Lower(ct.mainType) == "application" && Lower(ct.subtype) == "json"
  {
  }

  /** A reply that is not JSON never fails, and its body is returned as it was read. */
  lemma NonJsonPassesThrough<J>(reply: Reply, loads: Bytes -> Option<J>)
    requires !IsJson(FromHeader(reply.contentType))
    ensures Receive(reply, loads) == Success(HttpResponse(reply, FromHeader(reply.contentType), Raw(reply.body)))
  {
  }

  /** A reply without a `Content-Type` header is `text/plain`, returned raw. */
  lemma MissingHeaderIsRaw<J>(body: Bytes, loads: Bytes -> Option<J>)
    ensures Receive(Reply(None, body), loads) == Success(HttpResponse(Reply(None, body), TextPlain, Raw(body)))
  {
    ExampleIsJson();
  }

  /** A reply of type `application/json; charset=UTF-8` is decoded as JSON. */
  lemma CharsetJsonIsDecoded<J>(body: Bytes, loads: Bytes -> Option<J>)
    requires loads(body).Some?
    ensures var reply := Reply(Some("application/json; charset=UTF-8"), body);
      Receive(reply, loads) == Success(HttpResponse(reply, ApplicationJsonUtf8, Json(loads(body).value)))
  {
    ExampleFromResponseJsonUtf8();
    ExampleIsJson();
  }

  /** Text given to `patch` is sent as the bytes its codec encodes it to, under `PATCH`. */
  lemma PatchSendsEncodedText<J>(env: Env<J>, url: string, query: Pairs, headers: Pairs, text: string, encoding: string)
    requires env.encode(text, encoding).Some?
    ensures Patch(env, url, query, headers, Some(Text(text)), Some(encoding))
      == Exchange(env, url, "PATCH", query, env.encode(text, encoding), headers)
  {
  }

  /** Text given to `post` is sent as the bytes its codec encodes it to, under `POST`. */
  lemma PostSendsEncodedText<J>(env: Env<J>, url: string, query: Pairs, headers: Pairs, text: string, encoding: string)
    requires env.encode(text, encoding).Some?
    ensures Post(env, url, query, headers, Some(Text(text)), Some(encoding))
      == Exchange(env, url, "POST", query, env.encode(text, encoding), headers)
  {
  }

  /** Bytes, or no data, given to `patch` or `post` are sent unchanged, whatever the encoding. */
  lemma UploadPassesBytesThrough<J>(env: Env<J>, url: string, query: Pairs, headers: Pairs,
                                    data: Option<Payload>, encoding: Option<string>)
    requires data.None? || data.value.Binary?
    ensures var body := if data.None? then None else Some(data.value.bytes);
      && Patch(env, url, query, headers, data, encoding) == Exchange(env, url, "PATCH", query, body, headers)
      && Post(env, url, query, headers, data, encoding) == Exchange(env, url, "POST", query, body, headers)
  {
  }

  /**
   * Text with `encoding=None`, or text its codec cannot encode, fails with
   * an encoding error, which no exchange produces: nothing is opened.
   */
  lemma UploadEncodingFailure<J>(env: Env<J>, url: string, query: Pairs, headers: Pairs,
                                 text: string, encoding: Option<string>)
    requires encoding.None? || env.encode(text, encoding.value).None?
    ensures var e := if encoding.None? then EncodingMissing else EncodeFailed;
      && Patch(env, url, query, headers, Some(Text(text)), encoding) == Failure(e)
      && Post(env, url, query, headers, Some(Text(text)), encoding) == Failure(e)
  {
  }

  /** Text given to `patch` or `post` without an `encoding` argument is sent encoded as UTF-8. */
  lemma DefaultEncodingIsUtf8<J>(env: Env<J>, url: string, query: Pairs, headers: Pairs, text: string)
    requires env.encode(text, "utf-8").Some?
    ensures Patch(env, url, query, headers, Some(Text(text)), Utf8)
      == Exchange(env, url, "PATCH", query, env.encode(text, "utf-8"), headers)
    ensures Post(env, url, query, headers, Some(Text(text)), Utf8)
      == Exchange(env, url, "POST", query, env.encode(text, "utf-8"), headers)
  {
  }
}
