# aws-lambda-rie-gateway: the request/response translation, in Dafny

The gateway accepts ordinary HTTP requests and forwards each one to an AWS
Lambda Runtime Interface Emulator (RIE). It wraps the request in an API Gateway
v2 proxy-integration event (the "envelope") and posts that to the emulator's
invocations endpoint. It then reads the emulator's JSON reply and turns it back
into an HTTP response.

This project models `handle` in `src/main.rs`. That is the only logic in the
program; the rest is server, client and command-line plumbing. The modules are:

- `Wrappers` (`wrappers.dfy`): `Option` and `Result`.
- `Base64` (`base64.dfy`): the body encoding of section 4 of RFC 4648. This is
  the standard alphabet with `=` padding. The module also has a decoder that
  is proved to be the exact inverse of the encoder.
- `Envelope` (`envelope.dfy`): the envelope record and how it is built from a
  request. It covers the last-wins query-parameter loop, the body read as an
  in-order concatenation of chunks, and the invoke URL.
- `Response` (`response.dfy`): the reply record and how it is read from a JSON
  value. This follows the serde attributes on the struct: `statusCode` and
  `body` are required, and `headers` defaults to empty. It also covers the
  response-builder loop that sets every reply header.
- `Handler` (`handler.dfy`): `handle` itself, as a method that runs the steps
  in order. The POST to the emulator is a function parameter.
- `Scenarios` (`scenarios.dfy`): worked examples.

The two loops in `handle` are methods with loop invariants, each proved against
a specification. The query-map loop is `CollectQueryPairs`, proved against
`QueryMap`. The header loop is `BuildResponse`, proved against `Responds`. It
visits the map's keys in an arbitrary order (`:|`), as iteration over a
`HashMap` does. The body stream's `try_concat` is the loop `ReadBody`, proved
against `ReadAll`. The envelope literal and the invoke URL are functions.

Behaviour worth noting:

- A reply without `statusCode` or without `body` does not default to 500 or to
  an empty body. The struct declares both fields as required. Reading the
  reply fails, and the `.unwrap()` at src/main.rs:145 aborts the request. This
  is the `Aborted` outcome; see `EmptyReplyAborts`.
- The envelope's `headers` is always the empty map. The request's headers are
  never forwarded.
- The stage label is the constant `"local"`. It is not configurable.

## Model

| member | source | states |
|---|---|---|
| `Base64.Encode` | src/main.rs:126-130 | The encoding is empty exactly when the input bytes are empty. |
| `Base64.EncodeLength` | src/main.rs:129 | Four characters for every started group of three bytes (RFC 4648 section 4). |
| `Base64.EncodeAlphabet` | src/main.rs:129 | Every character of an encoding is in the base64 alphabet or is `=`. The pad occurs only in the last two positions. |
| `Base64.DecodeEncode` | src/main.rs:129 | Decoding the encoding of any byte string gives back exactly those bytes, so the body text loses nothing. |
| `Base64.EncodeDecode` | src/main.rs:129 | Any string that decodes is the encoding of what it decodes to, so the decoder is the exact inverse. |
| `Envelope.QueryMapKeys` | src/main.rs:98-101 | The query map's keys are exactly the names that occur in the parsed pairs. |
| `Envelope.QueryMapLastWins` | src/main.rs:98-101 | Each name maps to the value of its last occurrence in the pair sequence. |
| `Envelope.CollectQueryPairs` | src/main.rs:98-102 | The insertion loop over the pairs yields the last-wins map `QueryMap(pairs)`. |
| `Envelope.ReadAllFails` | src/main.rs:113-116 | Reading the body fails, with the body-read error, exactly when some item of the stream is an error. |
| `Envelope.ReadAllAppend` | src/main.rs:113-116 | The chunks are concatenated in order: reading `a + b` gives the bytes of `a` followed by those of `b`. |
| `Envelope.ReadAllEmpty` | src/main.rs:113-116 | A body that reads successfully is empty exactly when every chunk is empty. |
| `Envelope.ReadBody` | src/main.rs:113-116 | The chunk-appending loop, which stops at the first stream error, yields `ReadAll(body)`. |
| `Envelope.Encode` | src/main.rs:96-137 | See the notes below the table. |
| `Envelope.EncodeQueryLastWins` | src/main.rs:96-102 | In the envelope, each parsed query name maps to the value of its last occurrence. |
| `Envelope.InvokeUrl` | src/main.rs:142 | The invoke URL is the target root followed by `/2015-03-31/functions/function/invocations`, and is exactly that long. |
| `Envelope.TargetOfInvokeUrl` | src/main.rs:142 | The target root can be recovered from the invoke URL. |
| `Envelope.InvokeUrlKeepsSlash` | src/main.rs:142 | A target ending in `/` gives `//`: slashes are not normalised. |
| `Response.FromJson` | src/main.rs:82-90 | See the notes below the table. |
| `Response.FromJsonToJson` | src/main.rs:82-90 | Reading back the JSON object of any reply gives that reply. Nothing of the struct is lost. |
| `Response.BuildResponse` | src/main.rs:148-153 | See the notes below the table. |
| `Response.ListsExactlyLength` | src/main.rs:149-151 | A response that sets each header of the map once has exactly as many headers as the map has entries. |
| `Response.NoHeadersWhenAbsent` | src/main.rs:87-88 | A reply without a `headers` field gives a response with no headers. |
| `Response.FlagIgnored` | src/main.rs:85 | Changing the reply's `isBase64Encoded` never changes the response. The body is passed through verbatim and never decoded. |
| `Handler.Handle` | src/main.rs:92-154 | See the notes below the table. |
| `Handler.RespondedOnlyAfterInvoke` | src/main.rs:140-153 | A response exists only if the envelope was built, posted to `InvokeUrl(target)` and answered with a readable reply. Its status and body are that reply's. |
| `Scenarios.EncodeHello` | src/main.rs:129 | `hello` encodes to `aGVsbG8=`. |
| `Scenarios.GetWithQuery` | src/main.rs:96-137 | `GET /widgets?id=7` with no body, for an absolute-form target whose parse outcome (the pair `id=7`) is supplied, gives the full expected envelope. |
| `Scenarios.QueryRejected` | src/main.rs:96-97 | When the URL parser rejects the target of a request with a query, the request fails with the URL error, even if the body stream would also fail. |
| `Scenarios.PostHello` | src/main.rs:113-131 | `POST /submit` with the body `hello`, sent in two chunks, gives the body `aGVsbG8=` with the flag still false. |
| `Scenarios.ReplyCreated` | src/main.rs:148-153 | The reply `{"statusCode":201,"headers":{"X-Id":"42"},"body":"ok"}` gives status 201, exactly the header `X-Id: 42`, and the body `ok`. |
| `Scenarios.EmptyReplyAborts` | src/main.rs:145 | The reply `{}` aborts the request. No 500 response is made. |

Notes on the longer rows:

- **`Envelope.Encode`**
  - It fails exactly when:
    - the URI has a query and the URL parse rejects it, or
    - the body stream reports an error.
  - The URL error comes first.
  - On success:
    - `resource` is `/` and `stage` is `local`.
    - `headers` is the empty map. `pathParameters`, `stageVariables` and `multiValueHeaders` are absent.
    - `isBase64Encoded` is false.
    - Both method fields equal the request method. Both path fields equal the URI path.
    - The query map is present exactly when the URI has a query. Its keys are then the parsed names.
    - The body is absent exactly when every chunk is empty. Otherwise it decodes back to the concatenated bytes.
- **`Response.FromJson`**
  - Reading succeeds exactly when every field fits the struct.
  - A reply without `statusCode` or without `body` is rejected.
  - `statusCode` and `body` are taken verbatim.
  - A missing `headers` field gives the empty map. A present one gives exactly that object's entries.
- **`Response.BuildResponse`**
  - A rejected status gives the status error.
  - Otherwise, a rejected header gives the error for some rejected header.
  - Otherwise the response has the reply's status and body verbatim, and sets every reply header exactly once.
- **`Handler.Handle`**
  - A request error ends the request with that error.
  - A failed POST gives `SendError`.
  - A reply that is not JSON or does not fit the struct gives `Aborted`.
  - Otherwise the outcome is the built response, or the builder's error.

## Left out

- `main` (src/main.rs:19-50) is left out because it is I/O and concurrency. That covers:
  - command-line and environment options;
  - logger setup;
  - taking a listening socket from the environment versus binding the address;
  - the server;
  - graceful shutdown on Ctrl-C.
- The URL parse of src/main.rs:97-99 is an input of the model (`UrlParse`): either the decoded pairs in order, or a rejection. The url crate's parsing and percent-decoding are not part of this model. Neither is the question of which URIs it rejects.
- The POST to the emulator and its transport (src/main.rs:140-144) are a function parameter of `Handle`. That function gives either a send failure or a reply that is or is not JSON.
- JSON text is not modelled. The reply is given as an already-parsed JSON value.
- The logging of src/main.rs:139 and 146 is left out, including the serialisation of the envelope to JSON.
- Response.FromJson: serde's derived decoder also accepts the struct written as a four-element JSON array. The model treats any array as unreadable.
- Response.FromJson: the model does not capture serde's rejection of a duplicated field name, because a JSON object is modelled as a map.
- The http crate's validity rules for status codes, header names and header values are parameters (`HttpRules`).
- Response.BuildResponse: header names are kept as written. The http crate lowercases them (src/main.rs:150), so `X-Id` goes out as `x-id`. Names that differ only in case are therefore kept as separate headers: the header map's case-insensitive merging into multi-valued entries is not modelled, and headers are a list of pairs in the order they were set.
- Scenarios.GetWithQuery: the parse outcome is supplied. For the origin-form target `/widgets?id=7`, which is what an HTTP/1.1 client sends, `Url::parse` at src/main.rs:97 has no base URL and rejects it. The program then fails the request with the URL error instead of making this envelope. That case is `Scenarios.QueryRejected`.
- What the server does with an error or an aborted request (closing the connection, logging) is outside `handle` and is not modelled.
- The unused struct `ApiGatewayV2LambdaProxyIntegrationV2RequestContextHttp` (src/main.rs:77-81) is left out.
