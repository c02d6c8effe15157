/** The request side of `handle` in src/main.rs: the inbound HTTP request is
    turned into the API Gateway v2 proxy-integration event ("envelope") that
    is posted to the Lambda Runtime Interface Emulator, and the invoke URL
    is formed from the configured target root. */
module Envelope {
  import opened Wrappers
  import Base64

  type byte = Base64.byte

  /** A decoded query pair (name, value). */
  type Pair = (string, string)

  /** One item of the inbound body stream: a chunk of bytes, or the error
      the stream reports instead of a chunk. */
  datatype Chunk = Data(bytes: seq<byte>) | ReadError

  /** The request URI: its path and, when the URI has one, its raw query. */
  datatype Uri = Uri(path: string, query: Option<string>)

  /** The inbound request; `httpMethod` is the canonical text of the method
      ("GET", "POST", ...). */
  datatype Request = Request(httpMethod: string, uri: Uri, body: seq<Chunk>)

  /** What parsing the whole URI as a URL yields: the percent-decoded query
      pairs in order, or a rejection of the URI. */
  datatype UrlParse = Parsed(pairs: seq<Pair>) | Rejected

  /** Why a request cannot be turned into an envelope. */
  datatype RequestError = UrlRejected | BodyReadFailed

  datatype RequestContext = RequestContext(httpMethod: string, resourcePath: string, stage: string)

  /** The event posted upstream (`ApiGatewayV2LambdaProxyIntegrationV2`). */
  datatype ProxyIntegrationV2 = ProxyIntegrationV2(
    httpMethod: string,
    resource: string,
    path: string,
    headers: map<string, string>,
    queryStringParameters: Option<map<string, string>>,
    pathParameters: Option<map<string, string>>,
    stageVariables: Option<map<string, string>>,
    multiValueHeaders: Option<map<string, string>>,
    body: Option<string>,
    isBase64Encoded: bool,
    requestContext: RequestContext)

  const Resource: string := "/"
  const Stage: string := "local"
  const InvocationsPath: string := "/2015-03-31/functions/function/invocations"

  // ---------------------------------------------------------------------
  // Query parameters: a map filled by inserting the pairs in order.

  /** The map that inserting `pairs` one after another into an empty map
      leaves: a later pair overwrites an earlier one with the same name. */
  function QueryMap(pairs: seq<Pair>): (m: map<string, string>)
    decreases |pairs|
  {
    if pairs == [] then map[]
    else
      var last := pairs[|pairs| - 1];
      QueryMap(pairs[..|pairs| - 1])[last.0 := last.1]
  }

  /** The names that occur in `pairs`. */
  function NamesOf(pairs: seq<Pair>): (names: set<string>) {
    set i | 0 <= i < |pairs| :: pairs[i].0
  }

  /** Pair `i` is the last occurrence of its name. */
  ghost predicate LastOccurrence(pairs: seq<Pair>, i: int)
    requires 0 <= i < |pairs|
  {
    forall j :: i < j < |pairs| ==> pairs[j].0 != pairs[i].0
  }

  /** The map holds exactly the names of the pairs. */
  lemma {:induction false} QueryMapKeys(pairs: seq<Pair>)
    ensures QueryMap(pairs).Keys == NamesOf(pairs)
    decreases |pairs|
  {
    if pairs != [] {
      var init := pairs[..|pairs| - 1];
      QueryMapKeys(init);
      assert pairs == init + [pairs[|pairs| - 1]];
      forall k | k in NamesOf(pairs) ensures k in NamesOf(init) + {pairs[|pairs| - 1].0} {
        var i :| 0 <= i < |pairs| && pairs[i].0 == k;
        if i < |pairs| - 1 {
          assert init[i] == pairs[i];
        }
      }
      forall k | k in NamesOf(init) ensures k in NamesOf(pairs) {
        var i :| 0 <= i < |init| && init[i].0 == k;
        assert pairs[i] == init[i];
      }
    }
  }

  /** Last wins: a name maps to the value of its last occurrence. */
  lemma {:induction false} QueryMapLastWins(pairs: seq<Pair>, i: int)
    requires 0 <= i < |pairs| && LastOccurrence(pairs, i)
    ensures pairs[i].0 in QueryMap(pairs) && QueryMap(pairs)[pairs[i].0] == pairs[i].1
    decreases |pairs|
  {
    if i < |pairs| - 1 {
      var init := pairs[..|pairs| - 1];
      assert init[i] == pairs[i];
      QueryMapLastWins(init, i);
    }
  }

  /** The query-parameter loop of `handle`: insert every pair, in order,
      into a map that starts empty. */
  method CollectQueryPairs(pairs: seq<Pair>) returns (params: map<string, string>)
    ensures params == QueryMap(pairs)
  {
    params := map[];
    for i := 0 to |pairs|
      invariant params == QueryMap(pairs[..i])
    {
      var (k, v) := pairs[i];
      assert pairs[..i + 1][..i] == pairs[..i];
      params := params[k := v];
    }
    assert pairs[..|pairs|] == pairs;
  }

  // ---------------------------------------------------------------------
  // The body: the chunks of the stream, concatenated in order.

  /** The concatenation of the chunks, or `BodyReadFailed` as soon as the
      stream reports an error. */
  function ReadAll(body: seq<Chunk>): (r: Result<seq<byte>, RequestError>)
    decreases |body|
  {
    if body == [] then Success([])
    else
      match ReadAll(body[..|body| - 1])
      case Failure(e) => Failure(e)
      case Success(acc) =>
        match body[|body| - 1]
        case ReadError => Failure(BodyReadFailed)
        case Data(b) => Success(acc + b)
  }

  /** The stream fails exactly when one of its items is an error. */
  lemma {:induction false} ReadAllFails(body: seq<Chunk>)
    ensures ReadAll(body).Failure? <==> exists i :: 0 <= i < |body| && body[i].ReadError?
    ensures ReadAll(body).Failure? ==> ReadAll(body).error == BodyReadFailed
    decreases |body|
  {
    if body != [] {
      var init := body[..|body| - 1];
      ReadAllFails(init);
      if exists i :: 0 <= i < |init| && init[i].ReadError? {
        var i :| 0 <= i < |init| && init[i].ReadError?;
        assert body[i] == init[i];
      }
      if exists i :: 0 <= i < |body| && body[i].ReadError? {
        var i :| 0 <= i < |body| && body[i].ReadError?;
        if i < |body| - 1 {
          assert init[i] == body[i];
        }
      }
    }
  }

  /** A body read in two parts is the first part's bytes followed by the
      second part's: the chunks are concatenated in order. */
  lemma {:induction false} ReadAllAppend(a: seq<Chunk>, b: seq<Chunk>)
    requires ReadAll(a).Success? && ReadAll(b).Success?
    ensures ReadAll(a + b) == Success(ReadAll(a).value + ReadAll(b).value)
    decreases |b|
  {
    if b == [] {
      assert a + b == a;
      assert ReadAll(b) == Success([]);
      assert ReadAll(a).value + [] == ReadAll(a).value;
    } else {
      var init := b[..|b| - 1];
      assert (a + b)[..|a + b| - 1] == a + init;
      assert ReadAll(init).Success?;
      ReadAllAppend(a, init);
      assert (a + b)[|a + b| - 1] == b[|b| - 1];
      var x := b[|b| - 1].bytes;
      assert ReadAll(b).value == ReadAll(init).value + x;
      assert ReadAll(a + b) == Success(ReadAll(a).value + ReadAll(init).value + x);
      assert ReadAll(a).value + ReadAll(init).value + x == ReadAll(a).value + (ReadAll(init).value + x);
    }
  }

  /** A body that reads successfully is empty exactly when every chunk is
      empty. */
  lemma {:induction false} ReadAllEmpty(body: seq<Chunk>)
    requires ReadAll(body).Success?
    ensures ReadAll(body).value == [] <==> forall i :: 0 <= i < |body| ==> body[i] == Data([])
    decreases |body|
  {
    if body != [] {
      var init := body[..|body| - 1];
      ReadAllEmpty(init);
      forall i | 0 <= i < |init| ensures init[i] == body[i] { }
    }
  }

  /** The body loop of `handle`: append each chunk to a buffer, stopping at
      the first error of the stream. */
  method ReadBody(body: seq<Chunk>) returns (r: Result<seq<byte>, RequestError>)
    ensures r == ReadAll(body)
  {
    var acc: seq<byte> := [];
    for i := 0 to |body|
      invariant ReadAll(body[..i]) == Success(acc)
    {
      assert body[..i + 1][..i] == body[..i];
      match body[i]
      case ReadError =>
        assert ReadAll(body[..i + 1]) == Failure(BodyReadFailed);
        ReadAllPrefixFails(body, i + 1);
        return Failure(BodyReadFailed);
      case Data(b) =>
        acc := acc + b;
    }
    assert body[..|body|] == body;
    r := Success(acc);
  }

  /** Once a prefix of the stream fails, the whole stream does. */
  lemma {:induction false} ReadAllPrefixFails(body: seq<Chunk>, n: nat)
    requires n <= |body| && ReadAll(body[..n]).Failure?
    ensures ReadAll(body) == ReadAll(body[..n])
    decreases |body| - n
  {
    if n < |body| {
      assert body[..n + 1][..n] == body[..n];
      ReadAllPrefixFails(body, n + 1);
    } else {
      assert body[..n] == body;
    }
  }

  // ---------------------------------------------------------------------
  // The envelope.

  /** The envelope literal of `handle`: everything not taken from the
      request is a constant. */
  function BuildEnvelope(httpMethod: string, path: string, query: Option<map<string, string>>, bytes: seq<byte>)
    : (env: ProxyIntegrationV2)
  {
    ProxyIntegrationV2(
      httpMethod := httpMethod,
      resource := Resource,
      path := path,
      headers := map[],
      queryStringParameters := query,
      pathParameters := None,
      stageVariables := None,
      multiValueHeaders := None,
      body := if bytes == [] then None else Some(Base64.Encode(bytes)),
      isBase64Encoded := false,
      requestContext := RequestContext(httpMethod := httpMethod, resourcePath := path, stage := Stage))
  }

  /** The fields of every envelope that do not depend on the request. */
  ghost predicate FixedFields(e: ProxyIntegrationV2) {
    && e.resource == "/"
    && e.requestContext.stage == "local"
    && e.headers == map[]
    && e.pathParameters.None?
    && e.stageVariables.None?
    && e.multiValueHeaders.None?
    && !e.isBase64Encoded
  }

  /** Request to envelope, as `handle` does it up to the upstream call: the
      query map when the URI has a query (the URL parse failing is an error),
      then the whole body, then the envelope. */
  function Encode(req: Request, url: UrlParse): (r: Result<ProxyIntegrationV2, RequestError>)
    ensures r.Failure? <==>
      (req.uri.query.Some? && url.Rejected?) || exists i :: 0 <= i < |req.body| && req.body[i].ReadError?
    ensures req.uri.query.Some? && url.Rejected? ==> r == Failure(UrlRejected)
    ensures r.Failure? && !(req.uri.query.Some? && url.Rejected?) ==> r == Failure(BodyReadFailed)
    ensures r.Success? ==>
      var e := r.value;
      && FixedFields(e)
      && e.httpMethod == req.httpMethod && e.requestContext.httpMethod == req.httpMethod
      && e.path == req.uri.path && e.requestContext.resourcePath == req.uri.path
      && (e.queryStringParameters.None? <==> req.uri.query.None?)
      && (e.queryStringParameters.Some? ==> e.queryStringParameters.value.Keys == NamesOf(url.pairs))
      && (e.body.None? <==> forall i :: 0 <= i < |req.body| ==> req.body[i] == Data([]))
      && (e.body.Some? ==> ReadAll(req.body).Success? && Base64.Decode(e.body.value) == Some(ReadAll(req.body).value))
  {
    ReadAllFails(req.body);
    if req.uri.query.Some? && url.Rejected? then Failure(UrlRejected)
    else
      var query := if req.uri.query.Some? then Some(QueryMap(url.pairs)) else None;
      match ReadAll(req.body)
      case Failure(e) => Failure(e)
      case Success(bytes) =>
        ReadAllEmpty(req.body);
        Base64.DecodeEncode(bytes);
        QueryMapKeys(if url.Parsed? then url.pairs else []);
        Success(BuildEnvelope(req.httpMethod, req.uri.path, query, bytes))
  }

  /** When the URI has a query, a name of the parsed pairs maps, in the
      envelope, to the value of its last occurrence. */
  lemma EncodeQueryLastWins(req: Request, url: UrlParse, i: int)
    requires Encode(req, url).Success? && req.uri.query.Some?
    requires url.Parsed? && 0 <= i < |url.pairs| && LastOccurrence(url.pairs, i)
    ensures var q := Encode(req, url).value.queryStringParameters;
      q.Some? && url.pairs[i].0 in q.value && q.value[url.pairs[i].0] == url.pairs[i].1
  {
    QueryMapLastWins(url.pairs, i);
  }

  // ---------------------------------------------------------------------
  // The invoke URL.

  /** The URL the envelope is posted to: the target root followed by the
      fixed invocations path, with nothing normalised in between. */
  function InvokeUrl(target: string): (u: string)
    ensures |u| == |target| + |InvocationsPath|
    ensures u[..|target|] == target && u[|target|..] == InvocationsPath
  {
    target + InvocationsPath
  }

  /** The target root is recovered from an invoke URL. */
  function TargetOf(u: string): (r: Option<string>) {
    if |u| >= |InvocationsPath| && u[|u| - |InvocationsPath|..] == InvocationsPath
    then Some(u[..|u| - |InvocationsPath|])
    else None
  }

  lemma TargetOfInvokeUrl(target: string)
    ensures TargetOf(InvokeUrl(target)) == Some(target)
  {
  }

  /** A target root that ends in '/' yields a double slash: no slash is
      removed or added. */
  lemma InvokeUrlKeepsSlash(target: string)
    requires |target| > 0 && target[|target| - 1] == '/'
    ensures InvokeUrl(target)[|target| - 1..|target| + 1] == "//"
  {
    var u := InvokeUrl(target);
    assert u[|target| - 1] == u[..|target|][|target| - 1] == '/';
    assert u[|target|] == u[|target|..][0] == '/';
  }
}
