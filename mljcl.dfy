/** The crate root of the Maloja client: credentials and the base URL they
    resolve to, the query-path joiner, the header filter, the single point
    where every response is classified, and the scrobble submission.

    Everything foreign is a parameter: the network is a function from the
    request to what came back, and the header-name and header-value checks
    of the HTTP library are predicates the caller supplies. */
module Mljcl {

  datatype Option<+T> = None | Some(value: T)

  /** Rust's `u16` (the port) and `u64` (counts, page numbers). */
  newtype u16 = x: int | 0 <= x < 0x1_0000
  newtype u64 = x: int | 0 <= x < 0x1_0000_0000_0000_0000

  /** The error taxonomy of the client. A local error wraps what the HTTP
      library reported (a failed send or a body it could not decode); a
      server error carries the description the server wrote. */
  datatype RequestError = LocalError(cause: string) | ServerError(desc: string)

  datatype Result<T> = Ok(value: T) | Err(error: RequestError)

  datatype Credentials = Credentials(
    https: bool,
    skipCertVerification: bool,
    ip: string,
    port: u16,
    path: Option<string>,
    headers: Option<map<string, string>>,
    apiKey: Option<string>)

  // ---------------------------------------------------------------------
  // Decimal rendering of the port, as `format!("{}", port)` writes it

  predicate IsDigit(c: char) { '0' <= c <= '9' }

  predicate AllDigits(s: string) { forall i :: 0 <= i < |s| ==> IsDigit(s[i]) }

  function DigitChar(d: nat): (c: char)
    requires d < 10
    ensures IsDigit(c) && (c as int) - ('0' as int) == d
  {
    (('0' as int) + d) as char
  }

  /** The shortest decimal numeral of `n`: digits only, never empty, and
      without a leading zero unless `n` is zero. */
  function Decimal(n: nat): (s: string)
    ensures s != [] && AllDigits(s)
    ensures s[0] == '0' ==> n == 0 && s == "0"
    decreases n
  {
    if n < 10 then [DigitChar(n)] else Decimal(n / 10) + [DigitChar(n % 10)]
  }

  /** The value a decimal numeral denotes; the inverse of `Decimal`. */
  function DecimalValue(s: string): (n: nat)
    requires AllDigits(s)
  {
    if s == [] then 0
    else DecimalValue(s[..|s| - 1]) * 10 + ((s[|s| - 1] as int) - ('0' as int))
  }

  /** Rendering the port loses nothing: the numeral reads back as the port. */
  lemma {:induction false} DecimalRoundTrip(n: nat)
    ensures DecimalValue(Decimal(n)) == n
    decreases n
  {
    if n >= 10 {
      var s := Decimal(n / 10);
      assert (s + [DigitChar(n % 10)])[..|s|] == s;
      DecimalRoundTrip(n / 10);
    }
  }

  // ---------------------------------------------------------------------
  // `trim_matches('/')`

  predicate AllSlashes(s: string) { forall i :: 0 <= i < |s| ==> s[i] == '/' }

  /** `s` without its leading run of slashes: a suffix of `s`, all that was
      dropped is slashes, and what remains does not begin with one. */
  function TrimLeadingSlashes(s: string): (r: string)
    ensures |r| <= |s|
    ensures forall i :: 0 <= i < |r| ==> r[i] == s[|s| - |r| + i]
    ensures forall i :: 0 <= i < |s| - |r| ==> s[i] == '/'
    ensures r == [] || r[0] != '/'
  {
    if s != [] && s[0] == '/' then
      var rest := s[1..];
      var r := TrimLeadingSlashes(rest);
      assert forall i :: 0 <= i < |r| ==> r[i] == rest[|rest| - |r| + i] == s[|s| - |r| + i];
      assert forall i :: 1 <= i < |s| - |r| ==> s[i] == rest[i - 1];
      r
    else s
  }

  /** `s` without its trailing run of slashes: a prefix of `s`, all that was
      dropped is slashes, and what remains does not end with one. */
  function TrimTrailingSlashes(s: string): (r: string)
    ensures |r| <= |s|
    ensures forall i :: 0 <= i < |r| ==> r[i] == s[i]
    ensures forall i :: |r| <= i < |s| ==> s[i] == '/'
    ensures r == [] || r[|r| - 1] != '/'
  {
    if s != [] && s[|s| - 1] == '/' then TrimTrailingSlashes(s[..|s| - 1]) else s
  }

  /** Rust's `str::trim_matches('/')`. The result is empty exactly when `s`
      is made of slashes only, otherwise it neither begins nor ends with a
      slash, and a string with no slash at either end is left as it is. */
  function TrimSlashes(s: string): (r: string)
    ensures |r| <= |s|
    ensures r == [] <==> AllSlashes(s)
    ensures r != [] ==> r[0] != '/' && r[|r| - 1] != '/'
    ensures s == [] || (s[0] != '/' && s[|s| - 1] != '/') ==> r == s
  {
    var front := TrimLeadingSlashes(s);
    assert front == [] ==> s[..|s|] == s;
    assert front != [] ==> front[0] == s[|s| - |front|];
    var r := TrimTrailingSlashes(front);
    assert r == [] ==> front[..|front|] == front;
    r
  }

  /** The trimmed string is the middle of `s`: a run of slashes, then the
      result character for character, then another run of slashes. */
  lemma TrimSlashesIsInfix(s: string)
    ensures var k := |s| - |TrimLeadingSlashes(s)|; var r := TrimSlashes(s);
      k + |r| <= |s| &&
      (forall i :: 0 <= i < k ==> s[i] == '/') &&
      (forall i :: 0 <= i < |r| ==> r[i] == s[k + i]) &&
      (forall i :: k + |r| <= i < |s| ==> s[i] == '/')
  {
    var front := TrimLeadingSlashes(s);
    var k := |s| - |front|;
    var r := TrimTrailingSlashes(front);
    forall i | k + |r| <= i < |s| ensures s[i] == '/' {
      assert s[i] == front[i - k];
    }
  }

  /** Appending a slash to a string that is not all slashes appends it to
      what is left once the leading slashes are gone. */
  lemma {:induction false} TrimLeadingSlashesAppend(s: string)
    ensures AllSlashes(s) ==> TrimLeadingSlashes(s + "/") == []
    ensures !AllSlashes(s) ==> TrimLeadingSlashes(s + "/") == TrimLeadingSlashes(s) + "/"
  {
    var t := s + "/";
    if s == [] {
      assert t[1..] == [];
    } else if s[0] == '/' {
      assert t[1..] == s[1..] + "/";
      assert AllSlashes(s) <==> AllSlashes(s[1..]) by {
        if AllSlashes(s[1..]) {
          forall i | 0 <= i < |s| ensures s[i] == '/' {
            if i > 0 { assert s[i] == s[1..][i - 1]; }
          }
        }
      }
      TrimLeadingSlashesAppend(s[1..]);
    } else {
      assert t[0] == s[0];
    }
  }

  /** Trimming ignores surrounding slashes: one more slash at either end
      does not change the result. */
  lemma {:induction false} TrimSlashesAbsorbsSlash(s: string)
    ensures TrimSlashes("/" + s) == TrimSlashes(s)
    ensures TrimSlashes(s + "/") == TrimSlashes(s)
  {
    assert ("/" + s)[1..] == s;
    assert TrimLeadingSlashes("/" + s) == TrimLeadingSlashes(s);
    TrimLeadingSlashesAppend(s);
    var front := TrimLeadingSlashes(s);
    if !AllSlashes(s) {
      var extended := front + "/";
      assert extended[..|extended| - 1] == front;
      assert TrimTrailingSlashes(extended) == TrimTrailingSlashes(front);
    }
  }

  // ---------------------------------------------------------------------
  // `MalojaCredentials::get_url`

  function Protocol(https: bool): (scheme: string)
  {
    if https then "https://" else "http://"
  }

  /** The path part of the base URL: empty, or one slash followed by the
      trimmed path. */
  function SubPath(path: Option<string>): (sub: string)
  {
    var trimmed := TrimSlashes(match path case Some(p) => p case None => "");
    if trimmed == [] then [] else "/" + trimmed
  }

  /** `scheme://host:port`, the part of the base URL before the path. */
  function Authority(c: Credentials): (authority: string)
  {
    Protocol(c.https) + c.ip + ":" + Decimal(c.port as nat)
  }

  /** The base URL `scheme://host:port[/path]` of a Maloja server. */
  function GetUrl(c: Credentials): (url: string)
  {
    Authority(c) + SubPath(c.path)
  }

  /** The path part is empty exactly when there is no path or it is all
      slashes; otherwise it is one slash and the trimmed path, so it never
      holds two slashes in a row at its start and never ends with one. */
  lemma SubPathShape(path: Option<string>)
    ensures SubPath(path) == [] <==> path.None? || AllSlashes(path.value)
    ensures SubPath(path) != [] ==> SubPath(path) == "/" + TrimSlashes(path.value)
    ensures var sub := SubPath(path);
      sub != [] ==> |sub| >= 2 && sub[0] == '/' && sub[1] != '/' && sub[|sub| - 1] != '/'
  {
    var sub := SubPath(path);
    if sub != [] {
      var trimmed := TrimSlashes(path.value);
      assert sub[1] == trimmed[0] && sub[|sub| - 1] == trimmed[|trimmed| - 1];
    }
  }

  /** The base URL starts with `scheme://host:port`, anything after the port
      starts with a slash, and the URL never ends with a slash, so an
      endpoint path appended to it never makes `//`. */
  lemma GetUrlShape(c: Credentials)
    ensures Authority(c) <= GetUrl(c)
    ensures |GetUrl(c)| > |Authority(c)| ==> GetUrl(c)[|Authority(c)|] == '/'
    ensures GetUrl(c)[|GetUrl(c)| - 1] != '/'
  {
    var authority, sub := Authority(c), SubPath(c.path);
    var url := GetUrl(c);
    assert url == authority + sub;
    SubPathShape(c.path);
    if sub == [] {
      var port := Decimal(c.port as nat);
      assert authority == Protocol(c.https) + c.ip + ":" + port;
      assert authority[|authority| - 1] == port[|port| - 1];
      assert IsDigit(port[|port| - 1]);
    } else {
      assert url[|authority|] == sub[0];
      assert url[|url| - 1] == sub[|sub| - 1];
    }
  }

  /** Whatever follows it, the protocol decides which scheme a URL starts with. */
  lemma ProtocolPrefix(https: bool, rest: string)
    ensures https <==> "https://" <= Protocol(https) + rest
    ensures !https <==> "http://" <= Protocol(https) + rest
  {
    var url := Protocol(https) + rest;
    assert Protocol(https) <= url;
    assert url[4] == Protocol(https)[4];
  }

  /** The URL is secure exactly when the credentials ask for it: it starts
      with "https://" when `https` is set and with "http://" otherwise. */
  lemma GetUrlScheme(c: Credentials)
    ensures c.https <==> "https://" <= GetUrl(c)
    ensures !c.https <==> "http://" <= GetUrl(c)
  {
    var rest := c.ip + ":" + Decimal(c.port as nat) + SubPath(c.path);
    assert GetUrl(c) == Protocol(c.https) + rest;
    ProtocolPrefix(c.https, rest);
  }

  /** With no path, or a path made only of slashes, nothing follows the port. */
  lemma GetUrlWithoutPath(c: Credentials)
    requires c.path.None? || AllSlashes(c.path.value)
    ensures GetUrl(c) == Authority(c)
  {
  }

  /** With a path that is not all slashes, exactly one slash and the trimmed
      path follow the port, and the trimmed path has no slash at either end. */
  lemma GetUrlWithPath(c: Credentials, trimmed: string)
    requires c.path.Some? && trimmed == TrimSlashes(c.path.value)
    requires !AllSlashes(c.path.value)
    ensures GetUrl(c) == Authority(c) + "/" + trimmed
    ensures trimmed != [] && trimmed[0] != '/' && trimmed[|trimmed| - 1] != '/'
  {
  }

  /** `Some("")` behaves as no path at all. */
  lemma GetUrlEmptyPath(c: Credentials)
    ensures GetUrl(c.(path := Some(""))) == GetUrl(c.(path := None))
  {
  }

  /** Surrounding slashes on the path do not change the URL. */
  lemma {:induction false} GetUrlIgnoresSurroundingSlashes(c: Credentials, p: string)
    ensures GetUrl(c.(path := Some("/" + p))) == GetUrl(c.(path := Some(p)))
    ensures GetUrl(c.(path := Some(p + "/"))) == GetUrl(c.(path := Some(p)))
  {
    TrimSlashesAbsorbsSlash(p);
    assert SubPath(Some("/" + p)) == SubPath(Some(p));
    assert SubPath(Some(p + "/")) == SubPath(Some(p));
  }

  /** The paths "a/b", "/a/b" and "//a/b/" resolve to the same URL. */
  lemma GetUrlSamePathExample(c: Credentials)
    ensures GetUrl(c.(path := Some("/a/b"))) == GetUrl(c.(path := Some("a/b")))
    ensures GetUrl(c.(path := Some("//a/b/"))) == GetUrl(c.(path := Some("a/b")))
  {
    var p, q, r := "a/b", "/a/b", "//a/b";
    assert q == "/" + p && r == "/" + q && "//a/b/" == r + "/";
    GetUrlIgnoresSurroundingSlashes(c, p);
    GetUrlIgnoresSurroundingSlashes(c, q);
    GetUrlIgnoresSurroundingSlashes(c, r);
  }

  // ---------------------------------------------------------------------
  // `full_query_path`, with the serialised query string as input

  /** The request path with its query string: the bare path when the query
      string is empty, otherwise the path, a `?` and the query string. */
  function FullQueryPath(qs: string, path: string): (r: string)
    ensures path <= r
    ensures r == path <==> qs == []
    ensures qs != [] ==> r[|path|] == '?' && r[|path| + 1..] == qs
  {
    if qs == [] then path else path + "?" + qs
  }

  /** Splits a request path at its first `?` into path and query string. */
  function SplitQuery(url: string): (parts: (string, string))
  {
    if url == [] then ([], [])
    else if url[0] == '?' then ([], url[1..])
    else
      var (p, q) := SplitQuery(url[1..]);
      ([url[0]] + p, q)
  }

  /** Joining is undone by splitting, whenever the path has no `?` of its
      own: both the path and the query string come back. */
  lemma {:induction false} FullQueryPathRoundTrip(qs: string, path: string)
    requires '?' !in path
    ensures SplitQuery(FullQueryPath(qs, path)) == (path, qs)
  {
    var url := FullQueryPath(qs, path);
    if path == [] {
      if qs != [] {
        assert url == "?" + qs;
      }
    } else {
      assert url[0] == path[0];
      if qs == [] {
        FullQueryPathRoundTrip(qs, path[1..]);
        assert url[1..] == path[1..];
      } else {
        assert url[1..] == path[1..] + "?" + qs;
        FullQueryPathRoundTrip(qs, path[1..]);
      }
      assert [path[0]] + path[1..] == path;
    }
  }

  // ---------------------------------------------------------------------
  // `parse_headers`

  /** The headers that survive validation: every pair whose name and value
      are both valid, and nothing else. */
  function ValidHeaders(maybeHeaders: Option<map<string, string>>,
                        validName: string -> bool, validValue: string -> bool): (valid: map<string, string>)
    ensures maybeHeaders.None? ==> valid == map[]
    ensures maybeHeaders.Some? ==> forall k :: k in valid <==>
      k in maybeHeaders.value && validName(k) && validValue(maybeHeaders.value[k])
    ensures forall k :: k in valid ==> maybeHeaders.Some? && k in maybeHeaders.value && valid[k] == maybeHeaders.value[k]
  {
    match maybeHeaders
    case None => map[]
    case Some(h) => map k | k in h && validName(k) && validValue(h[k]) :: h[k]
  }

  /** Copies the caller's headers into a fresh header map one pair at a time,
      silently skipping a pair whose name or value is invalid. It never fails. */
  method ParseHeaders(maybeHeaders: Option<map<string, string>>,
                      validName: string -> bool, validValue: string -> bool)
    returns (headerMap: map<string, string>)
    ensures maybeHeaders.None? ==> headerMap == map[]
    ensures maybeHeaders.Some? ==> forall k :: k in headerMap <==>
      k in maybeHeaders.value && validName(k) && validValue(maybeHeaders.value[k])
    ensures forall k :: k in headerMap ==> maybeHeaders.Some? && k in maybeHeaders.value && headerMap[k] == maybeHeaders.value[k]
    ensures headerMap == ValidHeaders(maybeHeaders, validName, validValue)
  {
    headerMap := map[];
    if maybeHeaders.Some? {
      var headers := maybeHeaders.value;
      var keys := headers.Keys;
      while keys != {}
        invariant keys <= headers.Keys
        invariant forall k :: k in headerMap <==>
          k in headers && k !in keys && validName(k) && validValue(headers[k])
        invariant forall k :: k in headerMap ==> k in headers && headerMap[k] == headers[k]
        decreases keys
      {
        var key :| key in keys;
        keys := keys - {key};
        if !validName(key) || !validValue(headers[key]) {
          continue;
        }
        headerMap := headerMap[key := headers[key]];
      }
    }
  }

  // ---------------------------------------------------------------------
  // `handle_response`

  /** The error object a Maloja response may carry. */
  datatype ErrorDescriptor = ErrorDescriptor(kind: string, desc: string)

  /** Every decoded response: a status marker, an optional error object and
      the operation's own payload. */
  datatype Envelope<P> = Envelope(status: string, error: Option<ErrorDescriptor>, payload: P)
  {
    /** The uniform "does this response report an error" capability. */
    function GetError(): Option<ErrorDescriptor> { error }
  }

  /** What the HTTP library delivered: the send failed, or a response came
      back whose body did or did not decode into the expected record. */
  datatype Decoded<T> = Malformed(cause: string) | Parsed(record: T)
  datatype Transport<T> = SendFailed(cause: string) | Received(body: Decoded<T>)

  /** The single classification every operation goes through. A failed send
      and an undecodable body are local errors carrying the library's cause;
      a decoded body that reports an error is a server error carrying exactly
      its description; any other decoded body is returned unchanged. */
  function HandleResponse<P>(response: Transport<Envelope<P>>): (r: Result<Envelope<P>>)
    ensures response.SendFailed? ==> r == Err(LocalError(response.cause))
    ensures response.Received? && response.body.Malformed? ==> r == Err(LocalError(response.body.cause))
    ensures r.Ok? <==> response.Received? && response.body.Parsed? && response.body.record.GetError().None?
    ensures r.Ok? ==> r.value == response.body.record
    ensures r.Err? && r.error.ServerError? <==>
      response.Received? && response.body.Parsed? && response.body.record.GetError().Some?
    ensures r.Err? && r.error.ServerError? ==> r.error.desc == response.body.record.GetError().value.desc
  {
    match response
    case SendFailed(cause) => Err(LocalError(cause))
    case Received(Malformed(cause)) => Err(LocalError(cause))
    case Received(Parsed(record)) =>
      match record.GetError()
      case None => Ok(record)
      case Some(e) => Err(ServerError(e.desc))
  }

  // ---------------------------------------------------------------------
  // `scrobble_async`

  /** The JSON body of a scrobble submission. */
  datatype ScrobbleReq = ScrobbleReq(
    artist: Option<string>,
    artists: Option<seq<string>>,
    title: string,
    album: Option<string>,
    albumartists: Option<seq<string>>,
    duration: Option<u64>,
    length: Option<u64>,
    time: Option<u64>,
    key: string)

  datatype Verb = Get | Post

  /** One HTTP request as handed to the network: verb, URL, headers and, for
      a POST, the JSON body. */
  datatype HttpRequest = HttpRequest(verb: Verb, url: string, headers: map<string, string>, body: Option<ScrobbleReq>)

  const NewScrobblePath := "/apis/mlj_1/newscrobble"

  /** The body `scrobble_async` submits. It names the artist in the single
      `artist` field, passes the title through, authenticates with the API
      key and sets no other field. */
  function ScrobbleBody(title: string, artist: string, c: Credentials): (body: ScrobbleReq)
    requires c.apiKey.Some?
    ensures body.artist == Some(artist) && body.title == title && body.key == c.apiKey.value
    ensures body.artists.None? && body.album.None? && body.albumartists.None?
    ensures body.duration.None? && body.length.None? && body.time.None?
  {
    ScrobbleReq(Some(artist), None, title, None, None, None, None, None, c.apiKey.value)
  }

  /** The request `scrobble_async` sends: that body, POSTed to the submission
      endpoint with the caller's valid headers. */
  function ScrobbleRequest(title: string, artist: string, c: Credentials,
                           validName: string -> bool, validValue: string -> bool): (req: HttpRequest)
    requires c.apiKey.Some?
    ensures req.verb == Post && req.url == GetUrl(c) + "/apis/mlj_1/newscrobble"
    ensures req.headers == ValidHeaders(c.headers, validName, validValue)
    ensures req.body == Some(ScrobbleBody(title, artist, c))
  {
    HttpRequest(Post, GetUrl(c) + NewScrobblePath, ValidHeaders(c.headers, validName, validValue),
                Some(ScrobbleBody(title, artist, c)))
  }

  /** The acknowledgement of a submission carries no payload of its own. */
  type ScrobbleRes = Envelope<()>

  /** Submits one scrobble. The API key must be present. The outcome is the
      classification of whatever the network returned for the request. */
  method ScrobbleAsync(title: string, artist: string, c: Credentials,
                       validName: string -> bool, validValue: string -> bool,
                       send: HttpRequest -> Transport<ScrobbleRes>)
    returns (r: Result<ScrobbleRes>)
    requires c.apiKey.Some?
    ensures r == HandleResponse(send(ScrobbleRequest(title, artist, c, validName, validValue)))
  {
    var headers := ParseHeaders(c.headers, validName, validValue);
    var request := ScrobbleRequest(title, artist, c, validName, validValue).(headers := headers);
    var response := send(request);
    r := HandleResponse(response);
  }
}
