/** `handle` in src/main.rs: one inbound request goes through the envelope
    encoder, one POST to the emulator, the reply reader and the response
    builder. The POST itself is a parameter: whatever the emulator and the
    network do is given as a function from (invoke URL, envelope) to what
    came back. */
module Handler {
  import opened Wrappers
  import opened Envelope
  import opened Response

  /** What the POST yields: a transport failure, or a reply whose body is
      JSON (`Some`) or is not (`None`). */
  datatype Upstream = SendFailed | Replied(payload: Option<Json>)

  /** The errors `handle` returns to the server. */
  datatype HandleError = RequestFailed(cause: RequestError) | SendError | BuildFailed(reason: BuildError)

  /** The result of handling one request. `Aborted` is the panic of the
      unwrap on a reply that does not read as the response struct: no
      response and no error value reach the server. */
  datatype Outcome = Responded(response: HttpResponse) | Failed(error: HandleError) | Aborted

  /** `out` is an outcome of building the response for `resp`. */
  ghost predicate BuiltFrom(resp: LambdaResponseV1, rules: HttpRules, out: Outcome) {
    match out
    case Responded(h) => Responds(resp, rules, Success(h))
    case Failed(BuildFailed(e)) => Responds(resp, rules, Failure(e))
    case _ => false
  }

  /** What handling a request yields, step by step: an envelope error ends
      the request with that error; a failed POST with `SendError`; a reply
      that does not read as the struct aborts; otherwise the response is
      built from the reply. */
  ghost predicate Handles(
    target: string, req: Request, url: UrlParse, invoke: (string, ProxyIntegrationV2) -> Upstream,
    rules: HttpRules, out: Outcome)
  {
    match Encode(req, url)
    case Failure(e) => out == Failed(RequestFailed(e))
    case Success(env) =>
      match invoke(InvokeUrl(target), env)
      case SendFailed => out == Failed(SendError)
      case Replied(p) =>
        if p.None? || FromJson(p.value).None? then out == Aborted
        else BuiltFrom(FromJson(p.value).value, rules, out)
  }

  method Handle(
    target: string, req: Request, url: UrlParse, invoke: (string, ProxyIntegrationV2) -> Upstream,
    rules: HttpRules)
    returns (out: Outcome)
    ensures Handles(target, req, url, invoke, rules, out)
  {
    var query: Option<map<string, string>> := None;
    if req.uri.query.Some? {
      match url
      case Rejected =>
        return Failed(RequestFailed(UrlRejected));
      case Parsed(pairs) =>
        var params := CollectQueryPairs(pairs);
        query := Some(params);
    }
    var body := ReadBody(req.body);
    if body.Failure? {
      return Failed(RequestFailed(body.error));
    }
    var payload := BuildEnvelope(req.httpMethod, req.uri.path, query, body.value);
    assert Encode(req, url) == Success(payload);
    var reply := invoke(InvokeUrl(target), payload);
    match reply
    case SendFailed =>
      return Failed(SendError);
    case Replied(p) =>
      if p.None? {
        return Aborted;
      }
      var resp := FromJson(p.value);
      if resp.None? {
        return Aborted;
      }
      var built := BuildResponse(resp.value, rules);
      out := match built
        case Success(h) => Responded(h)
        case Failure(e) => Failed(BuildFailed(e));
  }

  /** A request never reaches the emulator unless the envelope was built,
      and the emulator is asked at the invoke URL of the target. */
  lemma RespondedOnlyAfterInvoke(
    target: string, req: Request, url: UrlParse, invoke: (string, ProxyIntegrationV2) -> Upstream,
    rules: HttpRules, out: Outcome)
    requires Handles(target, req, url, invoke, rules, out) && out.Responded?
    ensures Encode(req, url).Success?
    ensures var reply := invoke(InvokeUrl(target), Encode(req, url).value);
      && reply.Replied? && reply.payload.Some? && FromJson(reply.payload.value).Some?
      && out.response.status == FromJson(reply.payload.value).value.statusCode
      && out.response.body == FromJson(reply.payload.value).value.body
  {
  }
}
