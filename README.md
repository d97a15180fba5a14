# rustified endpoint pipeline, in Dafny

A model of the endpoint execution pipeline of `rustified` (src/endpoint.rs):
how an `Endpoint` value becomes one HTTP request, how that request is handed
to a client's transport exactly once, and how the raw response is turned
into `Ok(Some(result))`, `Ok(None)` or a `ClientError`.

Files and modules:

- `wrappers.dfy` (`Wrappers`): Rust's `Option` and `Result`.
- `utf8.dfy` (`Utf8`): UTF-8 as RFC 3629 defines it. `Encode` is
  `String::into_bytes` (how the request body becomes bytes) and `Decode` is
  `String::from_utf8` (how response bytes become text), with the length of
  the well-formed prefix (`valid_up_to`) on failure.
- `segments.dfy` (`Segments`): `str::split('/')` as applied to the action,
  and its inverse `Join`.
- `client.dfy` (`Client`): `ClientError`, `Url`, serde_json's `Value`,
  `RequestMethod`, `Request` and the transport. src/client.rs, src/errors.rs
  and src/enums.rs are not part of this model; these types have the shape
  src/endpoint.rs relies on.
- `endpoint.dfy` (`Endpoints`): the `Endpoint` contract as a record of what
  an implementation supplies (action, method, query, its JSON serialisation,
  its transform and the decoder of its result type), the defaults
  `DefaultQuery` (no parameters) and `DefaultTransform` (identity) gathered
  in `WithDefaults`, `BuildUrl`, the body normalisation `NormalizeBody`,
  `Parse`, `Execute`, and `EmptyEndpointResult`.

Foreign behaviour enters as data: `serde_json::to_string(self)` is the
endpoint's `serialized` field, `serde_json::from_str` into the result type
is its `decode` field, `Url::parse` is the `parseUrl` parameter of
`BuildUrl` and `Execute`, and the transport is a `Transport` object with a
`base` string and a `Send` method answered by its `respond` function. Each
call to `Send` appends the request to the transport's `log`, so that "never
called" and "called once with this request" are stated in `Execute`'s
contract about the calls it makes.

Every piece of `action().split('/')` is passed to `extend`, empty ones
included, so a leading, trailing or doubled '/' in the action adds an empty
segment.

## Model

| member | source | states |
|---|---|---|
| `Endpoints.Execute` | src/endpoint.rs:89-122 | A base URL that does not parse gives `UrlParseError` naming the base string, and a serialisation failure gives `DataParseError`; in both cases the transport's log is unchanged, so `Send` was never called. Otherwise the log grows by exactly one request, carrying the built URL, the endpoint's method and query and the normalised body bytes, and the result is `Parse` of the transport's answer to it. |
| `Client.Transport.Send` | src/endpoint.rs:115-120 | One transport call: the request is appended to the log and the answer is the transport's response to that request. |
| `Endpoints.BuildUrl` | src/endpoint.rs:134-149 | A base that fails to parse gives `UrlParseError` with that base string; otherwise the path is the base's segments followed by every piece of the action split at '/', in order; the added segments hold no '/' and rejoined with '/' give the action back. |
| `Endpoints.NoFieldsEndpointExample` | src/endpoint.rs:145-147 | The action "a/b" adds the segments "a" and "b"; the serialisations `{}` and `null` give an empty body. |
| `Endpoints.BodyBytesMeaning` | src/endpoint.rs:99-119 | The body bytes are empty exactly when the serialised text is `null`, `{}` or empty; any other serialised text is sent as its own UTF-8 bytes, which decode back to that same text. |
| `Endpoints.ParseTransportError` | src/endpoint.rs:157 | A transport error is the result of `parse`, unchanged. |
| `Endpoints.ParseEmptyResponse` | src/endpoint.rs:158-182 | An empty byte response is `Ok(None)` for every endpoint, whatever its transform and decoder. |
| `Endpoints.ParseNotUtf8` | src/endpoint.rs:161-166 | Bytes that are not UTF-8 give `ResponseConversionError` whose content is exactly those bytes, for every transform and decoder; the error's `validUpTo` lies inside the bytes, the bytes before it are well-formed, and no longer prefix is. |
| `Endpoints.ParseText` | src/endpoint.rs:169-179 | For a response encoding non-empty text, the transform's error is the result unchanged; an empty transformed text is `Ok(None)`; otherwise the transformed text decodes to `Ok(Some(v))` or fails with `ResponseParseError` carrying exactly that text. |
| `Endpoints.DefaultTransformParse` | src/endpoint.rs:127-129 | With the default transform (and the default, empty query), non-empty response text decodes to `Ok(Some(v))` or fails with `ResponseParseError` carrying the text that failed. |
| `Endpoints.ParseNoneIff` | src/endpoint.rs:158-182 | The result is `Ok(None)` exactly when the response has no bytes or is UTF-8 text that the transform turns into empty text. |
| `Endpoints.ParseSomeDecoded` | src/endpoint.rs:171-177 | A present result `v` comes from a non-empty UTF-8 response whose transformed text is non-empty and decodes to `v`. |
| `Utf8.DecodeFirst` | src/endpoint.rs:163-166 | Reads one RFC 3629 well-formed sequence (1 to 4 bytes, within the input) and the bytes it consumed are exactly the encoding of the character it returns. |
| `Utf8.DecodeEncode` | src/endpoint.rs:119 | Every string's UTF-8 bytes decode back to that string. |
| `Utf8.EncodeDecode` | src/endpoint.rs:163-166 | Bytes that decode are exactly the UTF-8 encoding of the text they decode to. |
| `Utf8.EncodeEmptyIff` | src/endpoint.rs:119 | A string has no UTF-8 bytes exactly when it is empty. |
| `Utf8.IsUtf8Iff` | src/endpoint.rs:163-166 | A byte sequence converts to text exactly when it is the UTF-8 encoding of some string. |
| `Utf8.DecodeErrorPrefix` | src/endpoint.rs:163-166 | A failed conversion reports a position inside the bytes; the bytes before it are well-formed UTF-8 and no longer prefix is, so the position is the largest well-formed prefix length (`valid_up_to`). |
| `Segments.Split` | src/endpoint.rs:147 | Splitting always yields at least one piece. |
| `Segments.SplitHasNoSeparator` | src/endpoint.rs:147 | No piece of a split contains the separator. |
| `Segments.JoinSplit` | src/endpoint.rs:147 | Joining the pieces of a split with the separator gives back the original action. |
| `Segments.SplitJoin` | src/endpoint.rs:147 | Splitting the join of separator-free pieces gives back those pieces, empty ones included. |

## Left out

- Logging (`log::info!`, `log::debug!`): instrumentation with no effect on results.
- serde_json: serialising an endpoint and deserialising a result type are foreign library behaviour, given to the model as each endpoint's `serialized` value and `decode` function. `Value` numbers are integers only; serde_json's floating point is not modelled.
- The url crate: `Url::parse` (the WHATWG URL Standard) is a parameter. `PathSegmentsMut::extend` is modelled as appending each piece as one segment; a bare `/` path (as in `http://host`) is represented as no segments. The crate's own per-segment rules (dropping `.` and `..`, writing nothing for an empty piece that lands on a bare `/` path, percent-encoding) and the re-serialisation of the URL are not modelled.
- Endpoints.BuildUrl: the `.unwrap()` on `path_segments_mut()` panics for a cannot-be-a-base URL; the model makes "the parsed base can be a base" a precondition instead of modelling the panic.
- The transport (`client.execute`, `client.base()`): network I/O, given as a `Transport` whose answers come from its `respond` function; connection handling, retries and timeouts belong to it, and a transport whose answer to the same request changes over time is not modelled.
- `RequestMethod`: src/enums.rs is not part of this model; the verbs listed are passed through untouched and no property depends on them.
- `ClientError`: src/errors.rs is not part of this model; variants other than the four that src/endpoint.rs builds are folded into `Other`. The boxed `source` errors are reduced to a `Cause`.
- `EmptyEndpointResult`: declared as a result type; deserialising into it is serde's.
- The trait's compile-time parts (the `Debug`/`Serialize` bounds, the associated `Result` type, and the `REQUEST_BODY_TYPE`/`RESPONSE_BODY_TYPE` constants as types) become a type parameter and two one-value datatypes.
- src/lib.rs (module declarations and re-exports) and the compile-fail tests of the derive macro under tests/macro/: code generation, not runtime behaviour.
