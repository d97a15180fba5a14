/**
  The endpoint execution pipeline: an endpoint value is turned into one
  request (URL from the client's base and the endpoint's action, body from
  the endpoint's JSON serialisation), the request goes to the transport
  once, and the response is decoded by `Parse`.

  The JSON library and the url crate are not modelled: what an endpoint's
  `serde_json::to_string` gives is the `serialized` field, deserialising into
  its result type is the `decode` field, and `Url::parse` is a parameter.
 */
module Endpoints {
  import opened Wrappers
  import opened Utf8
  import opened Segments
  import opened Client

  /** The request and response encodings an endpoint may declare; JSON is the only one. */
  datatype RequestType = JSON
  datatype ResponseType = JSON

  /**
    What an implementation of the endpoint contract supplies, for one
    endpoint value whose responses decode into `R`.
   */
  datatype Endpoint<R> = Endpoint(
    action: string,
    requestMethod: RequestMethod,
    query: seq<(string, Value)>,
    requestBodyType: RequestType,
    responseBodyType: ResponseType,
    /** The endpoint value serialised to JSON text, or the serialiser's error. */
    serialized: Result<string, Cause>,
    transform: string -> Result<string, ClientError>,
    /** JSON text deserialised into the result type, or the deserialiser's error. */
    decode: string -> Result<R, Cause>)

  /** The result type of an endpoint whose response carries nothing to keep. */
  datatype EmptyEndpointResult = EmptyEndpointResult

  /** The contract's default query: no parameters. */
  function DefaultQuery(): seq<(string, Value)> {
    []
  }

  /** The contract's default transform: the response text as it came. */
  function DefaultTransform(res: string): Result<string, ClientError> {
    Ok(res)
  }

  /** An endpoint that keeps the default query and transform. */
  function WithDefaults<R>(action: string, requestMethod: RequestMethod, serialized: Result<string, Cause>,
                           decode: string -> Result<R, Cause>): Endpoint<R>
  {
    Endpoint(action, requestMethod, DefaultQuery(), RequestType.JSON, ResponseType.JSON,
             serialized, DefaultTransform, decode)
  }

  // ---------------------------------------------------------------------
  // Request construction

  /** The url crate can only extend the path of a URL that can be a base. */
  predicate CanBeABase(parsed: Result<Url, Cause>) {
    parsed.Ok? ==> !parsed.value.cannotBeABase
  }

  /**
    `build_url`: parse the base, failing with UrlParseError that names the
    base; otherwise append every piece of the action split at '/' to the
    base's path, empty pieces included.
   */
  method BuildUrl(base: string, action: string, parseUrl: string -> Result<Url, Cause>)
    returns (r: Result<Url, ClientError>)
    requires CanBeABase(parseUrl(base))
    ensures parseUrl(base).Err? ==> r == Err(UrlParseError(base, parseUrl(base).error))
    ensures parseUrl(base).Ok? ==>
      var url := parseUrl(base).value;
      r == Ok(url.(segments := url.segments + Split(action, '/')))
    ensures r.Ok? ==>
      var added := r.value.segments[|parseUrl(base).value.segments|..];
      |added| >= 1 && Join(added, '/') == action && NoSeparator(added, '/')
  {
    var parsed := parseUrl(base);
    if parsed.Err? {
      return Err(UrlParseError(base, parsed.error));
    }
    var url := parsed.value;
    var pieces := Split(action, '/');
    var segments := url.segments;
    for i := 0 to |pieces|
      invariant segments == url.segments + pieces[..i]
    {
      segments := segments + [pieces[i]];
    }
    assert pieces[..|pieces|] == pieces;
    assert segments[|url.segments|..] == pieces;
    JoinSplit(action, '/');
    SplitHasNoSeparator(action, '/');
    r := Ok(url.(segments := segments));
  }

  /** The body text: a serialisation that is exactly `null` or `{}` is sent as no body. */
  function NormalizeBody(text: string): string {
    match text
    case "null" => ""
    case "{}" => ""
    case _ => text
  }

  /** The bytes of the body the request carries. */
  function BodyBytes(text: string): seq<byte> {
    Encode(NormalizeBody(text))
  }

  /**
    The body is empty exactly when the serialisation is `null`, `{}` or empty
    text; any other serialisation is sent as its own UTF-8 bytes, which read
    back as the same text.
   */
  lemma BodyBytesMeaning(text: string)
    ensures BodyBytes(text) == [] <==> text == "null" || text == "{}" || text == ""
    ensures Decode(BodyBytes(text)) == Ok(NormalizeBody(text))
    ensures text != "null" && text != "{}" ==> BodyBytes(text) == Encode(text) && Decode(BodyBytes(text)) == Ok(text)
  {
    EncodeEmptyIff(NormalizeBody(text));
    DecodeEncode(NormalizeBody(text));
  }

  /**
    The action "a/b" of an endpoint with no fields adds the segments "a" and
    "b" to the base path, and its serialisation `{}` becomes an empty body.
   */
  lemma NoFieldsEndpointExample()
    ensures Split("a/b", '/') == ["a", "b"]
    ensures BodyBytes("{}") == [] && BodyBytes("null") == []
  {
    assert Join(["a", "b"], '/') == "a/b";
    SplitJoin(["a", "b"], '/');
  }

  // ---------------------------------------------------------------------
  // Response decoding

  /**
    `parse`: a transport error passes through; no bytes means no result;
    bytes that are not UTF-8 fail with ResponseConversionError carrying them;
    the text goes through the endpoint's transform, whose error passes
    through; an empty transformed text means no result; otherwise the text
    is decoded, and a decoding failure carries the text that failed.
   */
  function Parse<R>(e: Endpoint<R>, res: Result<seq<byte>, ClientError>): Result<Option<R>, ClientError> {
    match res
    case Err(err) => Err(err)
    case Ok(body) =>
      if body == [] then Ok(None)
      else match e.responseBodyType
        case JSON =>
          match Decode(body)
          case Err(validUpTo) => Err(ResponseConversionError(Utf8Error(validUpTo), body))
          case Ok(c) =>
            match e.transform(c)
            case Err(err) => Err(err)
            case Ok(t) =>
              if t == [] then Ok(None)
              else match e.decode(t)
                case Err(cause) => Err(ResponseParseError(cause, t))
                case Ok(v) => Ok(Some(v))
  }

  /** A transport error is the result, unchanged. */
  lemma ParseTransportError<R>(e: Endpoint<R>, err: ClientError)
    ensures Parse(e, Err(err)) == Err(err)
  {
  }

  /** No bytes: no result, whatever the transform and the decoder would do. */
  lemma ParseEmptyResponse<R>(e: Endpoint<R>)
    ensures Parse(e, Ok([])) == Ok(None)
  {
  }

  /**
    Bytes that are not UTF-8 fail with ResponseConversionError carrying
    exactly those bytes and the length of their longest well-formed prefix; neither
    the transform nor the decoder is consulted.
   */
  lemma ParseNotUtf8<R>(e: Endpoint<R>, body: seq<byte>)
    requires !IsUtf8(body)
    ensures body != []
    ensures Parse(e, Ok(body)) == Err(ResponseConversionError(Utf8Error(Decode(body).error), body))
    ensures Decode(body).error < |body| && IsUtf8(body[..Decode(body).error])
    ensures forall j :: Decode(body).error < j <= |body| ==> !IsUtf8(body[..j])
  {
    DecodeErrorPrefix(body);
  }

  /**
    For a response that is the UTF-8 encoding of non-empty text `s`, the
    transform sees exactly `s`; its error is the result; an empty
    transformed text is no result; otherwise the transformed text is
    decoded, and a decoding failure carries that text.
   */
  lemma ParseText<R>(e: Endpoint<R>, s: string)
    requires s != []
    ensures e.transform(s).Err? ==> Parse(e, Ok(Encode(s))) == Err(e.transform(s).error)
    ensures e.transform(s) == Ok([]) ==> Parse(e, Ok(Encode(s))) == Ok(None)
    ensures e.transform(s).Ok? && e.transform(s).value != [] ==>
      var t := e.transform(s).value;
      && (e.decode(t).Ok? ==> Parse(e, Ok(Encode(s))) == Ok(Some(e.decode(t).value)))
      && (e.decode(t).Err? ==> Parse(e, Ok(Encode(s))) == Err(ResponseParseError(e.decode(t).error, t)))
  {
    EncodeEmptyIff(s);
    DecodeEncode(s);
  }

  /**
    With the default transform, non-empty response text either decodes to a
    present result or fails with ResponseParseError carrying that very text;
    and such an endpoint sends no query parameters.
   */
  lemma DefaultTransformParse<R>(action: string, requestMethod: RequestMethod, serialized: Result<string, Cause>,
                                 decode: string -> Result<R, Cause>, s: string)
    requires s != []
    ensures WithDefaults(action, requestMethod, serialized, decode).query == []
    ensures decode(s).Ok? ==>
      Parse(WithDefaults(action, requestMethod, serialized, decode), Ok(Encode(s))) == Ok(Some(decode(s).value))
    ensures decode(s).Err? ==>
      Parse(WithDefaults(action, requestMethod, serialized, decode), Ok(Encode(s))) == Err(ResponseParseError(decode(s).error, s))
  {
    ParseText(WithDefaults(action, requestMethod, serialized, decode), s);
  }

  /**
    The result is absent exactly when the response has no bytes, or is text
    that the transform turns into empty text.
   */
  lemma ParseNoneIff<R>(e: Endpoint<R>, res: Result<seq<byte>, ClientError>)
    ensures Parse(e, res) == Ok(None) <==>
      res == Ok([]) || (res.Ok? && IsUtf8(res.value) && e.transform(Decode(res.value).value) == Ok([]))
  {
  }

  /**
    A present result was decoded from non-empty transformed text of a
    non-empty UTF-8 response.
   */
  lemma ParseSomeDecoded<R>(e: Endpoint<R>, res: Result<seq<byte>, ClientError>, v: R)
    requires Parse(e, res) == Ok(Some(v))
    ensures res.Ok? && res.value != [] && IsUtf8(res.value)
    ensures var t := e.transform(Decode(res.value).value);
      t.Ok? && t.value != [] && e.decode(t.value) == Ok(v)
  {
  }

  // ---------------------------------------------------------------------
  // Execution

  /**
    `execute`: build the URL, serialise the body, call the transport once
    and parse what it returns. When the URL or the body cannot be built the
    transport is not called at all.
   */
  method Execute<R>(e: Endpoint<R>, transport: Transport, parseUrl: string -> Result<Url, Cause>)
    returns (r: Result<Option<R>, ClientError>)
    requires CanBeABase(parseUrl(transport.base))
    modifies transport
    ensures parseUrl(transport.base).Err? ==>
      r == Err(UrlParseError(transport.base, parseUrl(transport.base).error)) && transport.log == old(transport.log)
    ensures parseUrl(transport.base).Ok? && e.serialized.Err? ==>
      r == Err(DataParseError(e.serialized.error)) && transport.log == old(transport.log)
    ensures parseUrl(transport.base).Ok? && e.serialized.Ok? ==>
      var url := parseUrl(transport.base).value;
      var request := Request(url.(segments := url.segments + Split(e.action, '/')), e.requestMethod, e.query,
                             BodyBytes(e.serialized.value));
      && transport.log == old(transport.log) + [request]
      && r == Parse(e, transport.respond(request))
  {
    var url := BuildUrl(transport.base, e.action, parseUrl);
    if url.Err? {
      return Err(url.error);
    }
    var requestMethod := e.requestMethod;
    var query := e.query;
    var body: string;
    match e.requestBodyType
    case JSON =>
      if e.serialized.Err? {
        return Err(DataParseError(e.serialized.error));
      }
      body := NormalizeBody(e.serialized.value);
    var response := transport.Send(Request(url.value, requestMethod, query, Encode(body)));
    r := Parse(e, response);
  }
}
