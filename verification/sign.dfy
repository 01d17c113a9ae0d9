/**
 AWS Signature Version 2 for S3 REST requests, as the Go function `sign`
 computes it. `sign` mutates its header and parameter maps in place; here it
 is a pure function from the request to the updated maps.

 Two things the Go code takes from its surroundings are parameters:
 - the order in which `range` visits each map (`headerOrder`, `paramOrder`),
   which Go leaves unspecified;
 - `base64(HMAC-SHA1(secret, payload))`, the function `sig`, about which
   nothing is assumed.
 */
module S3Sign {
  import opened Strings
  import opened Sorting
  import opened Enumerations

  /** A credential, as `aws.Auth` holds it. */
  datatype Auth = Auth(accessKey: string, secretKey: string, token: string)

  /** A Go `map[string][]string`: HTTP headers or query parameters. */
  type Multimap = map<string, seq<string>>

  /** The two maps `sign` may change. */
  datatype Request = Request(params: Multimap, headers: Multimap)

  /** How a call ends: normally, or in a Go run-time panic, which `sign`
      raises by reading `v[0]` of an empty value list. */
  datatype Outcome<T> = Done(value: T) | Panic

  /** The query parameters that take part in signing (`s3ParamsToSign`). */
  const ParamsToSign: set<string> := {
    "acl", "delete", "location", "logging", "notification", "partNumber",
    "policy", "requestPayment", "torrent", "uploadId", "uploads", "versionId",
    "versioning", "versions", "response-content-type",
    "response-content-language", "response-expires", "response-cache-control",
    "response-content-disposition", "response-content-encoding"
  }

  const SecurityTokenHeader := "x-amz-security-token"
  const AuthorizationHeader := "Authorization"
  const ExpiresParam := "Expires"
  const AccessKeyParam := "AWSAccessKeyId"
  const SignatureParam := "Signature"

  /** One `x-amz-*` header: its lower-cased name and its values joined by commas. */
  datatype AmzKv = AmzKv(key: string, value: string)

  /** `amzKvSlice.Less` compares this and nothing else. */
  function KvKey(kv: AmzKv): string {
    kv.key
  }

  predicate IsAmzName(name: string) {
    HasPrefix(name, "x-amz-")
  }

  /** What the header loop has gathered so far. */
  datatype HeaderSlots = HeaderSlots(
    md5: string,
    ctype: string,
    date: string,
    xamzDate: bool,
    amz: seq<AmzKv>)

  const NoSlots := HeaderSlots("", "", "", false, [])

  /** The headers after the security token, if the credential has one, is
      added. */
  function WithToken(auth: Auth, headers: Multimap): Multimap {
    if auth.token != "" then headers[SecurityTokenHeader := [auth.token]] else headers
  }

  /** One turn of the header loop, for the header `name` with values `v`. */
  function ScanHeader(s: HeaderSlots, name: string, v: seq<string>): Outcome<HeaderSlots> {
    var k := Lower(name);
    if k == "content-md5" then
      if |v| == 0 then Panic else Done(s.(md5 := v[0]))
    else if k == "content-type" then
      if |v| == 0 then Panic else Done(s.(ctype := v[0]))
    else if k == "date" then
      if s.xamzDate then Done(s)
      else if |v| == 0 then Panic
      else Done(s.(date := v[0]))
    else if IsAmzName(k) then
      var s' := s.(amz := s.amz + [AmzKv(k, Join(v, ","))]);
      if k == "x-amz-date" then Done(s'.(xamzDate := true, date := "")) else Done(s')
    else
      Done(s)
  }

  /** The header loop, visiting the headers in `order`. */
  function ScanHeaders(headers: Multimap, order: seq<string>): Outcome<HeaderSlots>
    requires forall i :: 0 <= i < |order| ==> order[i] in headers
    decreases |order|
  {
    if |order| == 0 then Done(NoSlots)
    else
      var name := order[|order| - 1];
      match ScanHeaders(headers, order[..|order| - 1])
      case Panic => Panic
      case Done(s) => ScanHeader(s, name, headers[name])
  }

  function AmzLine(kv: AmzKv): string {
    kv.key + ":" + kv.value
  }

  function AmzLines(kvs: seq<AmzKv>): seq<string> {
    seq(|kvs|, i requires 0 <= i < |kvs| => AmzLine(kvs[i]))
  }

  /** The canonical `x-amz-*` block: the pairs sorted by key alone, one
      `key:value` line each, every line ending in a newline. */
  function AmzBlock(amz: seq<AmzKv>): string {
    if |amz| > 0 then Join(AmzLines(SortBy(amz, KvKey)), "\n") + "\n" else ""
  }

  /** The parameters after query-string authentication adds the access key. */
  function WithAccessKey(auth: Auth, params: Multimap): Multimap {
    if ExpiresParam in params then params[AccessKeyParam := [auth.accessKey]] else params
  }

  /** How one value of a signed parameter enters the resource: never encoded. */
  function RenderParam(k: string, v: string): string {
    if v == "" then k else k + "=" + v
  }

  function RenderValues(k: string, vs: seq<string>): seq<string> {
    seq(|vs|, i requires 0 <= i < |vs| => RenderParam(k, vs[i]))
  }

  /** What the parameter loop contributes for the parameter `k`. */
  function SignedEntries(params: Multimap): string -> seq<string> {
    k => if k in params && k in ParamsToSign then RenderValues(k, params[k]) else []
  }

  /** The parameter loop, visiting the parameters in `order`. */
  function ScanParams(params: Multimap, order: seq<string>): seq<string> {
    FlatMap(order, SignedEntries(params))
  }

  /** The path, and when any parameter is signed, `?` and the rendered
      parameters sorted as whole strings and joined by `&`. */
  function CanonicalResource(path: string, entries: seq<string>): string {
    if |entries| > 0 then path + "?" + Join(SortBy(entries, Self), "&") else path
  }

  /** The string-to-sign, from its six parts. */
  function Payload(httpMethod: string, md5: string, ctype: string, date: string, xamz: string, resource: string): string {
    httpMethod + "\n" + md5 + "\n" + ctype + "\n" + date + "\n" + xamz + resource
  }

  /** Everything `sign` does between the anonymous check and the HMAC: the
      header loop, the `Expires` check and the parameter loop. `headers`
      already holds the security token. */
  function StringToSign(
    auth: Auth, httpMethod: string, path: string, params: Multimap, headers: Multimap,
    headerOrder: seq<string>, paramOrder: seq<string>): Outcome<string>
    requires forall i :: 0 <= i < |headerOrder| ==> headerOrder[i] in headers
  {
    match ScanHeaders(headers, headerOrder)
    case Panic => Panic
    case Done(s) =>
      if ExpiresParam in params && |params[ExpiresParam]| == 0 then Panic
      else
        var date := if ExpiresParam in params then params[ExpiresParam][0] else s.date;
        var resource := CanonicalResource(path, ScanParams(WithAccessKey(auth, params), paramOrder));
        Done(Payload(httpMethod, s.md5, s.ctype, date, AmzBlock(s.amz), resource))
  }

  /** `m'` agrees with `m` on every key outside `written`. */
  ghost predicate SameExcept(m: Multimap, m': Multimap, written: set<string>) {
    forall k :: k !in written ==> (k in m' <==> k in m) && (k in m ==> m'[k] == m[k])
  }

  /** The Go function `sign`: signs the request, or leaves it unsigned when
      the secret key is empty. */
  function Sign(
    auth: Auth, httpMethod: string, path: string, params: Multimap, headers: Multimap,
    headerOrder: seq<string>, paramOrder: seq<string>,
    sig: (string, string) -> string): (r: Outcome<Request>)
    requires Enumerates(headerOrder, WithToken(auth, headers).Keys)
    requires Enumerates(paramOrder, WithAccessKey(auth, params).Keys)
    ensures r.Done? ==> SameExcept(params, r.value.params, {AccessKeyParam, SignatureParam})
    ensures r.Done? ==> SameExcept(headers, r.value.headers, {SecurityTokenHeader, AuthorizationHeader})
    ensures r.Done? ==> r.value.params.Keys <= params.Keys + {AccessKeyParam, SignatureParam}
    ensures r.Done? ==> r.value.headers.Keys <= headers.Keys + {SecurityTokenHeader, AuthorizationHeader}
    ensures r.Panic? ==> auth.secretKey != ""
  {
    var headers' := WithToken(auth, headers);
    if auth.secretKey == "" then Done(Request(params, headers'))
    else
      match StringToSign(auth, httpMethod, path, params, headers', headerOrder, paramOrder)
      case Panic => Panic
      case Done(payload) =>
        var signature := sig(auth.secretKey, payload);
        if ExpiresParam in params then
          Done(Request(WithAccessKey(auth, params)[SignatureParam := [signature]], headers'))
        else
          Done(Request(params, headers'[AuthorizationHeader := ["AWS " + auth.accessKey + ":" + signature]]))
  }
}
