/** Worked examples of the translation, one request or reply each. */
module Scenarios {
  import opened Wrappers
  import Base64
  import opened Envelope
  import opened Response
  import opened Handler

  /** "hello" encodes to "aGVsbG8=". */
  lemma EncodeHello()
    ensures Base64.Encode([104, 101, 108, 108, 111]) == "aGVsbG8="
  {
  }

  lemma ReadOneChunk(x: seq<Base64.byte>)
    ensures ReadAll([Data(x)]) == Success(x)
  {
    assert [Data(x)][..0] == [];
    assert [] + x == x;
  }

  /** GET /widgets?id=7 without a body, for a request target that the URL
      parser accepts (absolute form, such as http://localhost/widgets?id=7),
      with its parse outcome supplied: the query map holds id=7, there is no
      body, and the path is copied to both places. */
  lemma GetWithQuery()
    ensures var req := Request("GET", Uri("/widgets", Some("id=7")), []);
      Encode(req, Parsed([("id", "7")])) == Success(ProxyIntegrationV2(
        "GET", "/", "/widgets", map[], Some(map["id" := "7"]), None, None, None, None, false,
        RequestContext("GET", "/widgets", "local")))
  {
  }

  /** The same request whose target the URL parser rejects (an origin-form
      target such as /widgets?id=7 has no scheme and no base to resolve
      against): the request fails before the body is read, and no envelope
      is made. */
  lemma QueryRejected()
    ensures var req := Request("GET", Uri("/widgets", Some("id=7")), [ReadError]);
      Encode(req, Rejected) == Failure(UrlRejected)
  {
  }

  /** POST /submit with the body "hello" sent in two chunks: the envelope
      body is the base64 text of the whole body and the flag stays false. */
  lemma PostHello()
    ensures var req := Request("POST", Uri("/submit", None), [Data([104, 101]), Data([108, 108, 111])]);
      var r := Encode(req, Rejected);
      r.Success? && r.value.body == Some("aGVsbG8=") && !r.value.isBase64Encoded
  {
    var he: seq<Base64.byte> := [104, 101];
    var llo: seq<Base64.byte> := [108, 108, 111];
    ReadOneChunk(he);
    ReadOneChunk(llo);
    ReadAllAppend([Data(he)], [Data(llo)]);
    assert [Data(he)] + [Data(llo)] == [Data([104, 101]), Data([108, 108, 111])];
    assert he + llo == [104, 101, 108, 108, 111];
    EncodeHello();
  }

  /** A reply {"statusCode":201,"headers":{"X-Id":"42"},"body":"ok"} reads
      as status 201 with the header and the body; built into a response,
      that response has exactly the header X-Id: 42. */
  lemma ReplyCreated(rules: HttpRules, r: Result<HttpResponse, BuildError>)
    requires rules.statusOk(201) && rules.nameOk("X-Id") && rules.valueOk("42")
    requires Responds(LambdaResponseV1(None, 201, map["X-Id" := "42"], "ok"), rules, r)
    ensures FromJson(JObject(map[
      "statusCode" := JInteger(201),
      "headers" := JObject(map["X-Id" := JString("42")]),
      "body" := JString("ok")])) == Some(LambdaResponseV1(None, 201, map["X-Id" := "42"], "ok"))
    ensures r.Success? && r.value.status == 201 && r.value.body == "ok" && r.value.headers == [("X-Id", "42")]
  {
    var hs := map["X-Id" := JString("42")];
    assert (map k | k in hs :: hs[k].s) == map["X-Id" := "42"];
    ListsExactlyLength(r.value.headers, map["X-Id" := "42"]);
  }

  /** An empty reply {} has neither statusCode nor body, both of which the
      struct requires: the request is aborted, no 500 response is made. */
  lemma EmptyReplyAborts(
    target: string, req: Request, url: UrlParse, invoke: (string, ProxyIntegrationV2) -> Upstream,
    rules: HttpRules, out: Outcome)
    requires Encode(req, url).Success?
    requires invoke(InvokeUrl(target), Encode(req, url).value) == Replied(Some(JObject(map[])))
    requires Handles(target, req, url, invoke, rules, out)
    ensures out == Aborted
  {
  }
}
