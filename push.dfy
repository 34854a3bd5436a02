/** The decision logic of sending one Web Push message: the push-service
    origin taken from the endpoint, the VAPID token claims (section 2 of
    RFC 8292), the request headers (`TTL` from section 5.2 of RFC 8030, the
    `vapid` Authorization scheme from section 3 of RFC 8292), and the reading
    of the push service's answer (`201 Created` from section 5 of RFC 8030,
    404/410 for an expired subscription from section 7.3 of RFC 8030).
    URL and URI parsing, token signing, payload encryption, the HTTP
    exchange and the clock are inputs, gathered in `Env`. */
module Push {
  import opened JavaLang
  import opened Dto

  newtype byte = x: int | 0 <= x < 256

  /** What `new URL(endpoint)` yields: the protocol, host and port (-1 when
      absent) of the endpoint, or a `MalformedURLException`. */
  datatype UrlParse = Malformed | Url(protocol: string, host: string, port: int)

  /** The claims of the VAPID token; `exp` is the `Date` in milliseconds. */
  datatype Claims = Claims(aud: string, exp: int, sub: string)

  datatype Header = Header(name: string, value: string)

  /** A POST to `uri`, with an empty body when `body` is null. */
  datatype Request = Request(uri: string, body: Nullable<seq<byte>>, headers: seq<Header>)

  /** What `HttpClient.send` yields: a status code, or an `IOException` or
      `InterruptedException`. */
  datatype HttpOutcome = Response(status: int) | TransportFailure

  /** What `CryptoService.encrypt` yields: the encrypted body, or one of the
      crypto exceptions the caller catches. */
  datatype EncryptOutcome = Encrypted(body: Nullable<seq<byte>>) | CryptoFailure

  /** The world outside the decision logic. `uriValid` holds when
      `URI.create` accepts the endpoint and `HttpRequest.Builder.uri` accepts
      the result (scheme http or https, host present); when it fails, either
      step throws an uncaught `IllegalArgumentException`. */
  datatype Env = Env(
    parseUrl: string -> UrlParse,
    uriValid: string -> bool,
    sign: Claims -> string,
    send: Request -> HttpOutcome,
    encrypt: (string, Nullable<string>, Nullable<string>, int) -> EncryptOutcome,
    now: int,
    publicKeyBase64: string)

  const Subject: string := "mailto:example@example.com"
  const TokenLifetimeMillis: int := 12 * 60 * 60 * 1000

  /** `url.getProtocol() + "://" + url.getHost()`: the port is dropped. */
  function Origin(url: UrlParse): (origin: string)
    requires url.Url?
    ensures var n := |url.protocol|;
      && |origin| == n + 3 + |url.host|
      && origin[..n] == url.protocol && origin[n..n + 3] == "://" && origin[n + 3..] == url.host
  {
    url.protocol + "://" + url.host
  }

  /** `aud`, `exp` and `sub` of the token for a push service at `origin`. */
  function TokenClaims(origin: string, now: int): (c: Claims)
    ensures c.aud == origin && c.sub == Subject
    ensures c.exp - now == 43_200_000
  {
    Claims(origin, now + TokenLifetimeMillis, Subject)
  }

  function AuthorizationValue(token: string, publicKeyBase64: string): string
  {
    "vapid t=" + token + ", k=" + publicKeyBase64
  }

  /** The values carried by the headers called `name`, in order. */
  function HeaderValues(headers: seq<Header>, name: string): seq<string>
  {
    if headers == [] then []
    else (if headers[0].name == name then [headers[0].value] else []) + HeaderValues(headers[1..], name)
  }

  /** The headers the request builder receives: the body headers only for
      a non-null body, then `TTL` and `Authorization`. */
  function RequestHeaders(body: Nullable<seq<byte>>, authorization: string): (headers: seq<Header>)
    ensures HeaderValues(headers, "TTL") == ["180"]
    ensures HeaderValues(headers, "Authorization") == [authorization]
    ensures HeaderValues(headers, "Content-Type") == if body.Val? then ["application/octet-stream"] else []
    ensures HeaderValues(headers, "Content-Encoding") == if body.Val? then ["aes128gcm"] else []
    ensures forall h :: h in headers ==>
      h.name in {"TTL", "Authorization", "Content-Type", "Content-Encoding"}
  {
    var bodyHeaders := if body.Val? then [Header("Content-Type", "application/octet-stream"),
                                          Header("Content-Encoding", "aes128gcm")]
                       else [];
    var common := [Header("TTL", "180"), Header("Authorization", authorization)];
    HeaderValuesOfPair(common[0], common[1]);
    HeaderValuesOfPair(Header("Content-Type", "application/octet-stream"), Header("Content-Encoding", "aes128gcm"));
    HeaderValuesAppend(bodyHeaders, common, "TTL");
    HeaderValuesAppend(bodyHeaders, common, "Authorization");
    HeaderValuesAppend(bodyHeaders, common, "Content-Type");
    HeaderValuesAppend(bodyHeaders, common, "Content-Encoding");
    bodyHeaders + common
  }

  lemma HeaderValuesOfPair(h1: Header, h2: Header)
    ensures forall name ::
              HeaderValues([h1, h2], name)
              == (if h1.name == name then [h1.value] else []) + (if h2.name == name then [h2.value] else [])
  {
    forall name
      ensures HeaderValues([h1, h2], name)
              == (if h1.name == name then [h1.value] else []) + (if h2.name == name then [h2.value] else [])
    {
      assert [h1, h2][1..] == [h2] && [h2][1..] == [];
      assert HeaderValues([h2], name) == (if h2.name == name then [h2.value] else []) + HeaderValues([], name);
    }
  }

  lemma {:induction false} HeaderValuesAppend(a: seq<Header>, b: seq<Header>, name: string)
    ensures HeaderValues(a + b, name) == HeaderValues(a, name) + HeaderValues(b, name)
  {
    if a == [] {
      assert a + b == b;
    } else {
      var first := if a[0].name == name then [a[0].value] else [];
      assert (a + b)[0] == a[0] && (a + b)[1..] == a[1..] + b;
      assert HeaderValues(a + b, name) == first + HeaderValues(a[1..] + b, name);
      HeaderValuesAppend(a[1..], b, name);
      assert HeaderValues(a, name) == first + HeaderValues(a[1..], name);
    }
  }

  /** The request sent to a well-formed endpoint: it carries `TTL: 180` and
      the `vapid` Authorization header whose token is signed over
      `aud = protocol://host`, `exp = now + 12h` and the fixed subject; the
      body headers are there exactly when there is a body. */
  function PushRequest(endpoint: string, url: UrlParse, body: Nullable<seq<byte>>, env: Env): (r: Request)
    requires url.Url?
    ensures var token := env.sign(Claims(url.protocol + "://" + url.host, env.now + 43_200_000, "mailto:example@example.com"));
      && r.uri == endpoint && r.body == body
      && HeaderValues(r.headers, "TTL") == ["180"]
      && HeaderValues(r.headers, "Authorization") == ["vapid t=" + token + ", k=" + env.publicKeyBase64]
      && (body.Val? <==> HeaderValues(r.headers, "Content-Encoding") == ["aes128gcm"])
      && (body.Val? <==> HeaderValues(r.headers, "Content-Type") == ["application/octet-stream"])
      && r.headers == RequestHeaders(body, AuthorizationValue(token, env.publicKeyBase64))
    ensures forall h :: h in r.headers ==> h.name in {"TTL", "Authorization", "Content-Type", "Content-Encoding"}
  {
    var token := env.sign(TokenClaims(Origin(url), env.now));
    Request(endpoint, body, RequestHeaders(body, AuthorizationValue(token, env.publicKeyBase64)))
  }

  /** The branch of the status `switch`, or the transport failure caught
      around it. */
  datatype Delivery =
    | Created
    | NotFoundOrGone
    | TooManyRequests
    | InvalidRequest
    | PayloadTooLarge
    | Unhandled(status: int)
    | SendFailed

  /** Only 404 and 410 are read as "not found or gone"; a transport
      failure and every status without its own branch fall elsewhere. */
  function Classify(outcome: HttpOutcome): (d: Delivery)
    ensures d == NotFoundOrGone <==> outcome == Response(404) || outcome == Response(410)
    ensures d == SendFailed <==> outcome == TransportFailure
    ensures d == Created <==> outcome == Response(201)
    ensures d == TooManyRequests <==> outcome == Response(429)
    ensures d == InvalidRequest <==> outcome == Response(400)
    ensures d == PayloadTooLarge <==> outcome == Response(413)
    ensures d.Unhandled? <==> outcome.Response? && outcome.status !in {201, 404, 410, 429, 400, 413}
  {
    match outcome
    case TransportFailure => SendFailed
    case Response(status) =>
      if status == 201 then Created
      else if status == 404 || status == 410 then NotFoundOrGone
      else if status == 429 then TooManyRequests
      else if status == 400 then InvalidRequest
      else if status == 413 then PayloadTooLarge
      else Unhandled(status)
  }

  /** `sendPushMessage`: `Remove` means "the subscription is no longer valid
      and can be removed"; `Uncaught` is an exception it lets escape. */
  datatype Verdict = Remove | Keep | Uncaught(error: Exception)

  predicate EndpointMalformed(s: Subscription, env: Env)
  {
    s.endpoint.Null? || env.parseUrl(s.endpoint.v).Malformed?
  }

  function SendPushMessage(s: Subscription, body: Nullable<seq<byte>>, env: Env): (v: Verdict)
    ensures EndpointMalformed(s, env) ==> v == Remove
    ensures !EndpointMalformed(s, env) ==>
      var url := env.parseUrl(s.endpoint.v);
      && (!env.uriValid(s.endpoint.v) ==> v == Uncaught(IllegalArgumentException))
      && (env.uriValid(s.endpoint.v) ==>
            var outcome := env.send(PushRequest(s.endpoint.v, url, body, env));
            v == (if outcome == Response(404) || outcome == Response(410) then Remove else Keep))
  {
    // new URL(null) reports a MalformedURLException as well
    if s.endpoint.Null? then Remove
    else
      var url := env.parseUrl(s.endpoint.v);
      if url.Malformed? then Remove
      else if !env.uriValid(s.endpoint.v) then Uncaught(IllegalArgumentException)
      else
        match Classify(env.send(PushRequest(s.endpoint.v, url, body, env)))
        case NotFoundOrGone => Remove
        case _ => Keep
  }

  // -----------------------------------------------------------------------

  /** The origin is protocol and host: two endpoints that differ only in
      their port have the same token audience. */
  lemma OriginIgnoresPort(protocol: string, host: string, port1: int, port2: int)
    ensures Origin(Url(protocol, host, port1)) == Origin(Url(protocol, host, port2))
    ensures Origin(Url(protocol, host, port1)) == protocol + "://" + host
  {
  }

  /** `sendPushMessage` asks for removal exactly when the endpoint is
      malformed or the push service answers 404 or 410. */
  lemma SendPushMessageRemovesExactly(s: Subscription, body: Nullable<seq<byte>>, env: Env)
    ensures SendPushMessage(s, body, env) == Remove <==>
      || EndpointMalformed(s, env)
      || (&& env.uriValid(s.endpoint.v)
          && Classify(env.send(PushRequest(s.endpoint.v, env.parseUrl(s.endpoint.v), body, env))) == NotFoundOrGone)
  {
  }

  /** A transport failure, 201, 429, 400, 413 and every other status keep
      the subscription. */
  lemma SendPushMessageKeeps(s: Subscription, body: Nullable<seq<byte>>, env: Env)
    requires !EndpointMalformed(s, env) && env.uriValid(s.endpoint.v)
    requires Classify(env.send(PushRequest(s.endpoint.v, env.parseUrl(s.endpoint.v), body, env))) != NotFoundOrGone
    ensures SendPushMessage(s, body, env) == Keep
  {
  }
}
