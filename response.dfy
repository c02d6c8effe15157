/** The response side of `handle` in src/main.rs: the emulator's JSON reply is
    read into `ApiGatewayV2LambdaResponseV1` (the rules serde derives from
    that struct's declaration), and the outbound HTTP response is built from
    it by setting the status, then every header, then the body. */
module Response {
  import opened Wrappers

  type u16 = x: int | 0 <= x < 0x1_0000

  /** A JSON value as the JSON parser hands it to the struct's decoder.
      Numbers are split into integers and everything else (fractions,
      exponents), which no integer field accepts. */
  datatype Json =
    | JNull
    | JBool(b: bool)
    | JInteger(n: int)
    | JFloat
    | JString(s: string)
    | JArray(items: seq<Json>)
    | JObject(fields: map<string, Json>)

  /** The reply of the emulator (`ApiGatewayV2LambdaResponseV1`). */
  datatype LambdaResponseV1 = LambdaResponseV1(
    isBase64Encoded: Option<bool>,
    statusCode: u16,
    headers: map<string, string>,
    body: string)

  // ---------------------------------------------------------------------
  // Reading the reply. Each field reader gives `None` when the field makes
  // the whole reply unreadable. Unknown fields are ignored.

  /** `isBase64Encoded: Option<bool>`: absent or null is `None`. */
  function FlagField(f: map<string, Json>): (r: Option<Option<bool>>) {
    if "isBase64Encoded" !in f then Some(None)
    else match f["isBase64Encoded"]
      case JNull => Some(None)
      case JBool(b) => Some(Some(b))
      case _ => None
  }

  /** `statusCode: u16`: required, an integer in 0..65535. */
  function StatusField(f: map<string, Json>): (r: Option<u16>) {
    if "statusCode" !in f then None
    else match f["statusCode"]
      case JInteger(n) => if 0 <= n < 0x1_0000 then Some(n) else None
      case _ => None
  }

  /** Every value of the object `fs` is a string. */
  predicate AllStrings(fs: map<string, Json>) {
    forall k :: k in fs ==> fs[k].JString?
  }

  /** `headers: HashMap<String, String>` with `#[serde(default)]`: absent is
      the empty map; present, it must be an object of strings (null is not
      absent). */
  function HeadersField(f: map<string, Json>): (r: Option<map<string, string>>) {
    if "headers" !in f then Some(map[])
    else match f["headers"]
      case JObject(fs) =>
        if AllStrings(fs) then Some(map k | k in fs :: fs[k].s) else None
      case _ => None
  }

  /** `body: String`: required, a string. */
  function BodyField(f: map<string, Json>): (r: Option<string>) {
    if "body" !in f then None
    else match f["body"]
      case JString(s) => Some(s)
      case _ => None
  }

  /** The reply read as the struct, or `None` when it does not fit the
      struct (the caller then aborts the request). */
  function FromJson(j: Json): (r: Option<LambdaResponseV1>)
    ensures r.Some? <==>
      && j.JObject?
      && FlagField(j.fields).Some? && StatusField(j.fields).Some?
      && HeadersField(j.fields).Some? && BodyField(j.fields).Some?
    ensures j.JObject? && "statusCode" !in j.fields ==> r.None?
    ensures j.JObject? && "body" !in j.fields ==> r.None?
    ensures r.Some? ==>
      && j.fields["statusCode"] == JInteger(r.value.statusCode)
      && j.fields["body"] == JString(r.value.body)
      && ("headers" !in j.fields ==> r.value.headers == map[])
      && ("headers" in j.fields ==>
            && j.fields["headers"].JObject?
            && r.value.headers.Keys == j.fields["headers"].fields.Keys
            && forall k :: k in r.value.headers ==> j.fields["headers"].fields[k] == JString(r.value.headers[k]))
  {
    if !j.JObject? then None
    else
      var f := j.fields;
      match (FlagField(f), StatusField(f), HeadersField(f), BodyField(f))
      case (Some(flag), Some(code), Some(hs), Some(b)) => Some(LambdaResponseV1(flag, code, hs, b))
      case _ => None
  }

  /** The JSON object a reply consists of: the partner `FromJson` is
      checked against. An absent flag is left out. */
  function ToJson(resp: LambdaResponseV1): (j: Json) {
    var base := map[
      "statusCode" := JInteger(resp.statusCode),
      "headers" := JObject(map k | k in resp.headers :: JString(resp.headers[k])),
      "body" := JString(resp.body)];
    JObject(if resp.isBase64Encoded.Some? then base["isBase64Encoded" := JBool(resp.isBase64Encoded.value)] else base)
  }

  /** Reading a reply back from its JSON gives the reply. */
  lemma FromJsonToJson(resp: LambdaResponseV1)
    ensures FromJson(ToJson(resp)) == Some(resp)
  {
    var f := ToJson(resp).fields;
    var hs := map k | k in resp.headers :: JString(resp.headers[k]);
    assert f["headers"] == JObject(hs);
    assert HeadersField(f) == Some(map k | k in hs :: hs[k].s);
    assert (map k | k in hs :: hs[k].s) == resp.headers;
  }

  // ---------------------------------------------------------------------
  // Building the outbound response.

  /** What the HTTP library accepts; its validity rules for status codes,
      header names and header values are not part of this model. */
  datatype HttpRules = HttpRules(statusOk: u16 -> bool, nameOk: string -> bool, valueOk: string -> bool)

  datatype BuildError = InvalidStatus(code: u16) | InvalidHeader(name: string)

  /** The outbound response; the headers in the order they were set. */
  datatype HttpResponse = HttpResponse(status: u16, headers: seq<(string, string)>, body: string)

  /** `hs` sets every entry of `m` once, and nothing else. */
  ghost predicate ListsExactly(hs: seq<(string, string)>, m: map<string, string>) {
    && (forall i :: 0 <= i < |hs| ==> hs[i].0 in m && hs[i].1 == m[hs[i].0])
    && (forall k :: k in m ==> exists i :: 0 <= i < |hs| && hs[i].0 == k)
    && (forall i, j :: 0 <= i < j < |hs| ==> hs[i].0 != hs[j].0)
  }

  /** Every header of `m` is acceptable. */
  ghost predicate HeadersOk(m: map<string, string>, rules: HttpRules) {
    forall k :: k in m ==> rules.nameOk(k) && rules.valueOk(m[k])
  }

  /** The outcome of building a response for `resp`: an unacceptable status
      is reported first; otherwise an unacceptable header is reported (which
      one depends on the order the headers are visited in); otherwise the
      response carries the status, every header and the body verbatim. */
  ghost predicate Responds(resp: LambdaResponseV1, rules: HttpRules, r: Result<HttpResponse, BuildError>) {
    if !rules.statusOk(resp.statusCode) then r == Failure(InvalidStatus(resp.statusCode))
    else if !HeadersOk(resp.headers, rules) then
      && r.Failure? && r.error.InvalidHeader? && r.error.name in resp.headers
      && !(rules.nameOk(r.error.name) && rules.valueOk(resp.headers[r.error.name]))
    else
      && r.Success?
      && r.value.status == resp.statusCode
      && r.value.body == resp.body
      && ListsExactly(r.value.headers, resp.headers)
  }

  /** One header call of the response builder: a builder that already
      failed stays failed; otherwise the header is appended or rejected. */
  function SetHeader(builder: Result<HttpResponse, BuildError>, name: string, value: string, rules: HttpRules)
    : (r: Result<HttpResponse, BuildError>)
  {
    match builder
    case Failure(e) => Failure(e)
    case Success(p) =>
      if rules.nameOk(name) && rules.valueOk(value) then Success(p.(headers := p.headers + [(name, value)]))
      else Failure(InvalidHeader(name))
  }

  /** The response-building part of `handle`: the status, then a header
      call for every entry of the header map in the map's (unspecified)
      iteration order, then the body. */
  method BuildResponse(resp: LambdaResponseV1, rules: HttpRules) returns (r: Result<HttpResponse, BuildError>)
    ensures Responds(resp, rules, r)
  {
    var builder: Result<HttpResponse, BuildError> :=
      if rules.statusOk(resp.statusCode) then Success(HttpResponse(resp.statusCode, [], ""))
      else Failure(InvalidStatus(resp.statusCode));
    var rest := resp.headers.Keys;
    while rest != {}
      invariant rest <= resp.headers.Keys
      invariant !rules.statusOk(resp.statusCode) ==> builder == Failure(InvalidStatus(resp.statusCode))
      invariant rules.statusOk(resp.statusCode) && builder.Failure? ==>
        && builder.error.InvalidHeader? && builder.error.name in resp.headers - rest
        && !(rules.nameOk(builder.error.name) && rules.valueOk(resp.headers[builder.error.name]))
      invariant builder.Success? ==>
        && builder.value.status == resp.statusCode
        && (forall k :: k in resp.headers && k !in rest ==> rules.nameOk(k) && rules.valueOk(resp.headers[k]))
        && ListsExactly(builder.value.headers, resp.headers - rest)
      decreases rest
    {
      var k :| k in rest;
      ghost var before := builder;
      builder := SetHeader(builder, k, resp.headers[k], rules);
      if builder.Success? {
        var hs := builder.value.headers;
        assert hs == before.value.headers + [(k, resp.headers[k])];
        forall k' | k' in resp.headers - (rest - {k}) ensures exists i :: 0 <= i < |hs| && hs[i].0 == k' {
          if k' == k {
            assert hs[|hs| - 1].0 == k;
          } else {
            assert before.Success? && k' in resp.headers - rest;
            var i :| 0 <= i < |before.value.headers| && before.value.headers[i].0 == k';
            assert hs[i].0 == k';
          }
        }
      }
      rest := rest - {k};
    }
    assert resp.headers - {} == resp.headers;
    r := match builder
      case Success(p) => Success(p.(body := resp.body))
      case Failure(e) => Failure(e);
  }

  /** A response that sets every entry once has exactly as many headers as
      the map has entries. */
  lemma {:induction false} ListsExactlyLength(hs: seq<(string, string)>, m: map<string, string>)
    requires ListsExactly(hs, m)
    ensures |hs| == |m|
    decreases |hs|
  {
    if hs != [] {
      var last := hs[|hs| - 1];
      var init := hs[..|hs| - 1];
      var m' := m - {last.0};
      forall k | k in m' ensures exists i :: 0 <= i < |init| && init[i].0 == k {
        var i :| 0 <= i < |hs| && hs[i].0 == k;
        assert i != |hs| - 1;
        assert init[i].0 == k;
      }
      ListsExactlyLength(init, m');
      assert m'.Keys == m.Keys - {last.0};
    }
  }

  /** A reply without a "headers" field gives a response without headers. */
  lemma NoHeadersWhenAbsent(j: Json, rules: HttpRules, r: Result<HttpResponse, BuildError>)
    requires FromJson(j).Some? && "headers" !in j.fields
    requires Responds(FromJson(j).value, rules, r) && r.Success?
    ensures r.value.headers == []
  {
    ListsExactlyLength(r.value.headers, FromJson(j).value.headers);
  }

  /** The base64 flag of the reply has no effect on the response: the body
      is passed through as the text it is, never decoded. */
  lemma FlagIgnored(resp: LambdaResponseV1, flag: Option<bool>, rules: HttpRules, r: Result<HttpResponse, BuildError>)
    requires Responds(resp, rules, r)
    ensures Responds(resp.(isBase64Encoded := flag), rules, r)
    ensures r.Success? ==> r.value.body == resp.body
  {
  }
}
