/** The request plumbing of client.go, with HTTP, JSON and the network left
    abstract: a request is the value `doRequest` would put on the wire, and a
    reply is what came back after transport and decoding. */
module Transport {
  import opened Common
  import Options

  /** A logged-in session: the host that passed the handshake and its token. */
  datatype Client = Client(validatedHost: string, authenticationToken: string)

  /** One HTTP request: method, URL host and path, the X-Auth-Token and
      Content-Type headers (None when absent) and the typed body. */
  datatype Request<B> = Request(
    httpMethod: string,
    host: string,
    path: string,
    authToken: Option<string>,
    contentType: Option<string>,
    body: B)

  /** The outcome of one round trip: a failure to build, send or decode the
      request, or the decoded response. */
  datatype Reply<T> = TransportFailure(reason: string) | Decoded(response: T)

  /** What one client operation did: the requests it sent, in order, and its result. */
  datatype Run<B, T, E> = Run(sent: seq<Request<B>>, result: Result<T, E>)

  /** The GenericCodeResponse / VerifyResponse shape: only a status code. */
  datatype CodeResponse = CodeResponse(code: Code)

  const ContentTypeOctetStream := "application/octet-stream"

  /** A header is only set when its value is non-empty. */
  function HeaderValue(value: string): (h: Option<string>)
    ensures h.Some? <==> value != ""
    ensures h.Some? ==> h.value == value
  {
    if value == "" then None else Some(value)
  }

  /** doRequest up to the round trip: fold the per-request options, then
      address the client's validated host and attach its token. */
  function DoRequest<B>(c: Client, httpMethod: string, path: string, body: B, opt: seq<Options.Option>)
    : (r: Result<Request<B>, string>)
    ensures r.Err? <==> Options.Fold(Options.GetDefaultOptions(), opt).1.Some?
    ensures r.Ok? ==>
      r.value.httpMethod == httpMethod && r.value.host == c.validatedHost &&
      r.value.path == path && r.value.body == body
    ensures r.Ok? ==> (r.value.authToken.Some? <==> c.authenticationToken != "")
    ensures r.Ok? && r.value.authToken.Some? ==> r.value.authToken.value == c.authenticationToken
    ensures r.Ok? ==>
      r.value.contentType == HeaderValue(Options.Fold(Options.GetDefaultOptions(), opt).0.withContentType)
  {
    var (opts, err) := Options.Fold(Options.GetDefaultOptions(), opt);
    if err.Some? then Err(err.value)
    else Ok(Request(httpMethod, c.validatedHost, path, HeaderValue(c.authenticationToken),
                    HeaderValue(opts.withContentType), body))
  }

  /** The two option lists the core passes to doRequest never fail: none at
      all (JSON bodies) and a single octet-stream content type (movie uploads). */
  lemma {:induction false} CoreRequestsAreBuilt<B>(c: Client, httpMethod: string, path: string, body: B)
    ensures DoRequest(c, httpMethod, path, body, []).Ok?
    ensures DoRequest(c, httpMethod, path, body, []).value.contentType == None
    ensures DoRequest(c, httpMethod, path, body, [Options.WithContentType(ContentTypeOctetStream)]).Ok?
    ensures DoRequest(c, httpMethod, path, body, [Options.WithContentType(ContentTypeOctetStream)]).value.contentType
      == Some(ContentTypeOctetStream)
  {
    var octet := [Options.WithContentType(ContentTypeOctetStream)];
    assert octet[1..] == [];
    var d := Options.GetDefaultOptions();
    assert Options.Fold(d, octet) == Options.Fold(d.(withContentType := ContentTypeOctetStream), []);
  }
}
