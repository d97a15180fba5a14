/**
  The values the endpoint pipeline exchanges with its collaborators: the
  errors it reports, the URL it builds, the request descriptor it hands to
  the transport, and the transport itself. The files that declare them in
  the repository (src/client.rs, src/errors.rs, src/enums.rs) are not part
  of this model; the shapes below are those that src/endpoint.rs relies on.
 */
module Client {
  import opened Wrappers
  import opened Utf8

  /** The underlying cause a ClientError carries in its `source` field. */
  datatype Cause =
    | Utf8Error(validUpTo: nat)   // String::from_utf8 failed; bytes before validUpTo are well-formed
    | JsonError(message: string)  // serde_json could not serialise or deserialise
    | UrlError(message: string)   // the url crate could not parse the base URL

  datatype ClientError =
    | UrlParseError(url: string, source: Cause)
    | DataParseError(source: Cause)
    | ResponseConversionError(source: Cause, content: seq<byte>)
    | ResponseParseError(source: Cause, text: string)  // `text` is the `content` field of the Rust variant
    /** Any variant raised by a transport or by an endpoint's transform. */
    | Other(description: string)

  /** serde_json's loosely typed value, the value side of a query pair. */
  datatype Value =
    | Null
    | Bool(b: bool)
    | Number(n: int)
    | String(s: string)
    | Array(items: seq<Value>)
    | Object(members: seq<(string, Value)>)

  /** The HTTP verb; the pipeline only passes it through. */
  datatype RequestMethod = DELETE | GET | HEAD | LIST | POST

  /**
    A parsed URL seen through its path: `head` is everything before the
    path (scheme and authority), `segments` the path segments, `tail` the
    query and fragment. A path that is a bare "/" (as in "http://host" or
    "http://host/") is represented as no segments, so extending it gives
    "http://host/a/b", not "http://host//a/b". A cannot-be-a-base URL
    (`mailto:x`) has no segments to extend.
   */
  datatype Url = Url(head: string, segments: seq<string>, tail: string, cannotBeABase: bool)

  /** What one transport call receives. */
  datatype Request = Request(url: Url, requestMethod: RequestMethod, query: seq<(string, Value)>, body: seq<byte>)

  /**
    A transport: its configured base URL and the one operation that sends a
    request and yields the raw response bytes or a failure. `respond` is how
    the remote side answers a request; `log` records, in order, every request
    handed to `Send`.
   */
  class Transport {
    const base: string
    const respond: Request -> Result<seq<byte>, ClientError>
    ghost var log: seq<Request>

    constructor (base: string, respond: Request -> Result<seq<byte>, ClientError>)
      ensures this.base == base && this.respond == respond && log == []
    {
      this.base := base;
      this.respond := respond;
      log := [];
    }

    /** `client.execute`: one call, answered by `respond`. */
    method Send(req: Request) returns (res: Result<seq<byte>, ClientError>)
      modifies this
      ensures log == old(log) + [req]
      ensures res == respond(req)
    {
      res := respond(req);
      log := log + [req];
    }
  }
}
