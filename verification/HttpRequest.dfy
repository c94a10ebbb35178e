/**
 The request loop of the HTTP client: redirects and Digest retries, with the
 headers that travel along. Parsing and joining URLs, and computing a Digest
 answer, are parameters; so is everything the network does.
 */
module HttpRequests {
  import opened Common
  import opened Bytes

  // ------------------------------------------------------------------------
  // URLs and headers
  // ------------------------------------------------------------------------

  function LowerChar(c: char): char
  {
    if 'A' <= c <= 'Z' then (c as int + 32) as char else c
  }

  function Lower(s: string): string
  {
    if s == "" then "" else [LowerChar(s[0])] + Lower(s[1..])
  }

  datatype ParsedUrl = ParsedUrl(scheme: string, host: string, port: nat, path: string)

  /** A parsed URL; the parser gives scheme and host in lower case. */
  type Url = u: ParsedUrl | Lower(u.scheme) == u.scheme && Lower(u.host) == u.host
    witness ParsedUrl("", "", 0, "")

  function Origin(u: Url): (string, string, nat)
  {
    (Lower(u.scheme), Lower(u.host), u.port)
  }

  /** `_host_header_value`: the authority, without a default port. */
  function Authority(u: Url): string
  {
    var host := if ':' in u.host then "[" + u.host + "]" else u.host;
    if u.port == (if u.scheme == "https" then 443 else 80) then host else host + ":" + Decimal(u.port)
  }

  lemma SameOriginSameAuthority(u: Url, v: Url)
    requires Origin(u) == Origin(v)
    ensures Authority(u) == Authority(v)
  {
  }

  /** The part of a text before the first `c`. */
  function Before(s: string, c: char): (front: string)
    ensures front <= s && c !in front
  {
    if s == "" || s[0] == c then "" else [s[0]] + Before(s[1..], c)
  }

  lemma {:induction false} BeforeFound(front: string, c: char, rest: string)
    requires c !in front
    ensures Before(front + [c] + rest, c) == front && Before(front, c) == front
  {
    if front != "" {
      assert (front + [c] + rest)[1..] == front[1..] + [c] + rest;
      BeforeFound(front[1..], c, rest);
    } else {
      assert front + [c] + rest == [c] + rest;
    }
  }

  /** The port behind the host, or the scheme's own. */
  function ReadPort(https: bool, rest: string): Option<nat>
  {
    if rest == "" then Some(if https then 443 else 80)
    else if IsDigits(rest[1..]) then Some(DecimalValue(rest[1..]))
    else None
  }

  /** A Host header as a server reads it: brackets around an address with colons, then the port if there is one. */
  function ReadAuthority(https: bool, text: string): (string, Option<nat>)
  {
    if text != "" && text[0] == '[' then
      var host := Before(text[1..], ']');
      (host, ReadPort(https, if |host| + 2 <= |text| then text[|host| + 2..] else ""))
    else
      var host := Before(text, ':');
      (host, ReadPort(https, text[|host|..]))
  }

  /** What `Authority` puts behind the host. */
  function PortPart(u: Url): string
  {
    if u.port == (if u.scheme == "https" then 443 else 80) then "" else ":" + Decimal(u.port)
  }

  lemma PortReadsBack(u: Url)
    ensures ReadPort(u.scheme == "https", PortPart(u)) == Some(u.port)
  {
    DecimalRoundTrip(u.port);
  }

  lemma BracketedReadsBack(u: Url)
    requires ':' in u.host && ']' !in u.host
    ensures ReadAuthority(u.scheme == "https", Authority(u)) == (u.host, Some(u.port))
  {
    var port := PortPart(u);
    var text := "[" + u.host + "]" + port;
    assert Authority(u) == text;
    assert text[1..] == u.host + [']'] + port;
    BeforeFound(u.host, ']', port);
    assert text[|u.host| + 2..] == port;
    PortReadsBack(u);
  }

  lemma PlainReadsBack(u: Url)
    requires ':' !in u.host && (u.host == "" || u.host[0] != '[')
    ensures ReadAuthority(u.scheme == "https", Authority(u)) == (u.host, Some(u.port))
  {
    var port := PortPart(u);
    var text := u.host + port;
    assert Authority(u) == text;
    BeforeFound(u.host, ':', Decimal(u.port));
    assert port != "" ==> text == u.host + [':'] + Decimal(u.port);
    assert text[|u.host|..] == port;
    PortReadsBack(u);
  }

  /** The Host header names the URL's own host and port, whether or not the host is an address with colons. */
  lemma AuthorityReadsBack(u: Url)
    requires ']' !in u.host && (u.host != "" && u.host[0] == '[' ==> ':' in u.host)
    ensures ReadAuthority(u.scheme == "https", Authority(u)) == (u.host, Some(u.port))
  {
    if ':' in u.host {
      BracketedReadsBack(u);
    } else {
      PlainReadsBack(u);
    }
  }

  /** Header names, without regard to case: those the loop itself handles, and any other. */
  datatype Name =
    | Host
    | Connection
    | Authorization
    | ProxyAuthorization
    | Cookie
    | XApiKey
    | ApiKey
    | XGoogApiKey
    | ContentType
    | ContentLength
    | UserAgent
    | AcceptEncoding
    | Location
    | WwwAuthenticate
    | Other(name: string)

  type Headers = map<Name, string>

  function SetDefault(h: Headers, name: Name, value: string): Headers
  {
    if name in h then h else h[name := value]
  }

  const ORIGIN_CREDENTIALS := {Authorization, Cookie, XApiKey, ApiKey, XGoogApiKey}

  datatype Auth = NoAuth | BasicAuth(header: string) | DigestAuth | OtherAuth

  /** `_prepare_request`: defaults, then the caller's headers, then Basic credentials. */
  function PrepareHeaders(user: Headers, contentType: Option<string>, body: Option<seq<Byte>>, auth: Auth): Headers
  {
    var defaults := map[UserAgent := "zerodep", AcceptEncoding := "gzip, deflate"]
      + (if contentType.Some? then map[ContentType := contentType.value] else map[])
      + (if body.Some? then map[ContentLength := Decimal(|body.value|)] else map[]);
    var merged := defaults + user;
    if auth.BasicAuth? then merged[Authorization := auth.header] else merged
  }

  // ------------------------------------------------------------------------
  // The loop
  // ------------------------------------------------------------------------

  datatype Request = Request(url: Url, verb: string, headers: Headers, body: Option<seq<Byte>>)

  /** `answer` is the Digest header for a verb, a path, a challenge and the number of requests sent. */
  datatype Config = Config(
    maxRedirects: int,
    follow: bool,
    stream: bool,
    pooling: bool,
    proxy: bool,
    proxyCredential: Option<string>,
    join: (Url, string) -> Option<Url>,
    answer: (string, string, string, nat) -> string)

  /** What comes of one attempt: no connection, an exception after sending, or a response. */
  datatype Exchange =
    | NoConnection
    | Broken(reused: bool)
    | Response(reused: bool, status: int, headers: Headers, bodyReads: bool)

  datatype Outcome = Buffered(status: int) | Streaming(status: int) | TooManyRedirects | Raised

  datatype Loop = Loop(
    url: Url,
    verb: string,
    body: Option<seq<Byte>>,
    headers: Headers,
    auth: Auth,
    redirects: nat,
    attempted: bool,
    sent: seq<Request>)

  datatype Turn = Again(next: Loop) | Stop(sent: seq<Request>, outcome: Outcome)

  /** Headers once a connection is there: Host, the proxy's credential, keep-alive. */
  function ConnectedHeaders(c: Config, s: Loop, reused: bool): Headers
  {
    var h := SetDefault(s.headers, Host, Authority(s.url));
    var viaProxy := if c.proxy && c.proxyCredential.Some? && s.url.scheme != "https"
      then h[ProxyAuthorization := c.proxyCredential.value] else h;
    if !c.pooling || c.proxy then viaProxy
    else if reused then viaProxy[Connection := "keep-alive"]
    else SetDefault(viaProxy, Connection, "keep-alive")
  }

  predicate IsRedirect(status: int, headers: Headers)
  {
    status in {301, 302, 303, 307, 308} && Location in headers
  }

  predicate ChallengesDigest(headers: Headers)
  {
    WwwAuthenticate in headers && "digest" <= Lower(headers[WwwAuthenticate])
  }

  /** `_compute_redirect` and `_reset_digest_auth_for_redirect`. */
  function Redirected(c: Config, s: Loop, status: int, location: string): Option<Loop>
  {
    match c.join(s.url, location)
    case None => None
    case Some(url) =>
      var crossed := Origin(s.url) != Origin(url);
      var h0 := if crossed then s.headers - {Host, ProxyAuthorization} - ORIGIN_CREDENTIALS else s.headers;
      var drops := status == 303 || (status in {301, 302} && s.verb == "POST");
      var h1 := if drops then h0 - {ContentType, ContentLength} else h0;
      var resets := s.auth.DigestAuth? && s.attempted;
      Some(Loop(
        url,
        if drops then "GET" else s.verb,
        if drops then None else s.body,
        if resets then h1 - {Authorization} else h1,
        if crossed then NoAuth else s.auth,
        s.redirects + 1,
        if resets then false else s.attempted,
        s.sent))
  }

  function Step(c: Config, s: Loop, x: Exchange): Turn
  {
    if x.NoConnection? then Stop(s.sent, Raised) else
    var h := ConnectedHeaders(c, s, x.reused);
    var t := s.(headers := h, sent := s.sent + [Request(s.url, s.verb, h, s.body)]);
    if x.Broken? || x.status == 101 then Stop(t.sent, Raised)
    else if c.follow && IsRedirect(x.status, x.headers) then
      if t.redirects + 1 > c.maxRedirects then Stop(t.sent, TooManyRedirects)
      else
        match Redirected(c, t, x.status, x.headers[Location])
        case None => Stop(t.sent, Raised)
        case Some(n) => Again(n)
    else if t.auth.DigestAuth? && x.status == 401 && !t.attempted && ChallengesDigest(x.headers) then
      var header := c.answer(t.verb, t.url.path, x.headers[WwwAuthenticate], |t.sent|);
      Again(t.(headers := t.headers[Authorization := header], attempted := true))
    else if c.stream then Stop(t.sent, Streaming(x.status))
    else if x.bodyReads then Stop(t.sent, Buffered(x.status))
    else Stop(t.sent, Raised)
  }

  function HopsLeft(c: Config, s: Loop): nat
  {
    if s.redirects < c.maxRedirects then c.maxRedirects - s.redirects else 0
  }

  /** The whole loop: a redirect may clear the Digest flag, but uses up one of the hops. */
  function Run(c: Config, s: Loop, network: nat -> Exchange): (seq<Request>, Outcome)
    decreases HopsLeft(c, s), !s.attempted
  {
    match Step(c, s, network(|s.sent|))
    case Stop(sent, outcome) => (sent, outcome)
    case Again(n) => Run(c, n, network)
  }

  function Start(url: Url, verb: string, body: Option<seq<Byte>>, headers: Headers, auth: Auth): Loop
  {
    Loop(url, verb, body, headers, auth, 0, false, [])
  }

  /** `_compute_redirect` and the resets after it, on the loop's variables. */
  method ComputeRedirect(c: Config, s: Loop, status: int, location: string) returns (r: Option<Loop>)
    ensures r == Redirected(c, s, status, location)
  {
    var joined := c.join(s.url, location);
    if joined.None? {
      return None;
    }
    var verb, body, headers, auth, attempted := s.verb, s.body, s.headers, s.auth, s.attempted;
    var crossed := Origin(s.url) != Origin(joined.value);
    if crossed {
      headers := headers - {Host, ProxyAuthorization} - ORIGIN_CREDENTIALS;
    }
    if status == 303 || (status in {301, 302} && verb == "POST") {
      verb := "GET";
      body := None;
      headers := headers - {ContentType, ContentLength};
    }
    if auth.DigestAuth? && attempted {
      headers := headers - {Authorization};
      attempted := false;
    }
    if crossed {
      auth := NoAuth;
    }
    return Some(Loop(joined.value, verb, body, headers, auth, s.redirects + 1, attempted, s.sent));
  }

  /** One pass through the body of the loop of `_sync_request`. */
  method Attempt(c: Config, s: Loop, x: Exchange) returns (turn: Turn)
    ensures turn == Step(c, s, x)
  {
    if x.NoConnection? {
      return Stop(s.sent, Raised);
    }
    var headers := ConnectedHeaders(c, s, x.reused);
    var sent := s.sent + [Request(s.url, s.verb, headers, s.body)];
    if x.Broken? || x.status == 101 {
      return Stop(sent, Raised);
    }
    if c.follow && IsRedirect(x.status, x.headers) {
      if s.redirects + 1 > c.maxRedirects {
        return Stop(sent, TooManyRedirects);
      }
      var next := ComputeRedirect(c, s.(headers := headers, sent := sent), x.status, x.headers[Location]);
      return if next.None? then Stop(sent, Raised) else Again(next.value);
    }
    if s.auth.DigestAuth? && x.status == 401 && !s.attempted && ChallengesDigest(x.headers) {
      var header := c.answer(s.verb, s.url.path, x.headers[WwwAuthenticate], |sent|);
      headers := headers[Authorization := header];
      return Again(s.(headers := headers, sent := sent, attempted := true));
    }
    if c.stream {
      return Stop(sent, Streaming(x.status));
    }
    return Stop(sent, if x.bodyReads then Buffered(x.status) else Raised);
  }

  /** `_sync_request`. */
  method SyncRequest(
      c: Config, url: Url, verb: string, body: Option<seq<Byte>>, user: Headers,
      contentType: Option<string>, auth: Auth, network: nat -> Exchange)
    returns (sent: seq<Request>, outcome: Outcome)
    ensures
      var s := Start(url, verb, body, PrepareHeaders(user, contentType, body, auth), auth);
      sent == Run(c, s, network).0 && outcome == Run(c, s, network).1
  {
    var s := Start(url, verb, body, PrepareHeaders(user, contentType, body, auth), auth);
    ghost var first := s;
    while true
      invariant Run(c, first, network) == Run(c, s, network)
      decreases HopsLeft(c, s), !s.attempted
    {
      var turn := Attempt(c, s, network(|s.sent|));
      if turn.Stop? {
        return turn.sent, turn.outcome;
      }
      s := turn.next;
    }
  }

  // ------------------------------------------------------------------------
  // How many requests
  // ------------------------------------------------------------------------

  function HopLimit(c: Config): nat
  {
    if c.maxRedirects > 0 then c.maxRedirects else 0
  }

  /** No URL has been asked more than twice so far. */
  predicate Counted(c: Config, s: Loop)
  {
    && s.redirects <= HopLimit(c)
    && |s.sent| <= 2 * s.redirects + (if s.attempted then 1 else 0)
    && (s.attempted ==> s.auth.DigestAuth?)
  }

  /** A turn that goes on uses up a hop, or the current URL's one Digest answer. */
  predicate Progresses(c: Config, s: Loop, turn: Turn)
  {
    match turn
    case Stop(sent, _) => |sent| <= 2 * HopLimit(c) + 2
    case Again(n) =>
      Counted(c, n) &&
      (HopsLeft(c, n) < HopsLeft(c, s) || (HopsLeft(c, n) == HopsLeft(c, s) && !s.attempted && n.attempted))
  }

  lemma StepProgresses(c: Config, s: Loop, x: Exchange)
    requires Counted(c, s)
    ensures Progresses(c, s, Step(c, s, x))
  {
  }

  lemma {:induction false} RunSendsAtMost(c: Config, s: Loop, network: nat -> Exchange)
    requires Counted(c, s)
    ensures |Run(c, s, network).0| <= 2 * HopLimit(c) + 2
    decreases HopsLeft(c, s), !s.attempted
  {
    var turn := Step(c, s, network(|s.sent|));
    StepProgresses(c, s, network(|s.sent|));
    if turn.Again? {
      RunSendsAtMost(c, turn.next, network);
    }
  }

  /** The loop ends, whatever the network does, after at most two requests for each allowed URL. */
  lemma RequestsBounded(
      c: Config, url: Url, verb: string, body: Option<seq<Byte>>, headers: Headers, auth: Auth, network: nat -> Exchange)
    ensures |Run(c, Start(url, verb, body, headers, auth), network).0| <= 2 * HopLimit(c) + 2
  {
    RunSendsAtMost(c, Start(url, verb, body, headers, auth), network);
  }

  /** A server that challenges every URL once and then redirects. */
  function ChallengeThenRedirect(i: nat): Exchange
  {
    if i % 2 == 0 then Response(false, 401, map[WwwAuthenticate := "Digest"], true)
    else Response(false, 302, map[Location := ""], true)
  }

  lemma AlternatingChallenge(c: Config, s: Loop)
    requires s.auth.DigestAuth? && !s.attempted && |s.sent| % 2 == 0
    ensures
      var turn := Step(c, s, ChallengeThenRedirect(|s.sent|));
      && turn.Again? && turn.next.attempted && |turn.next.sent| == |s.sent| + 1
      && turn.next.auth.DigestAuth? && turn.next.url == s.url && turn.next.redirects == s.redirects
  {
  }

  lemma AlternatingRedirect(c: Config, s: Loop)
    requires c.follow && c.join(s.url, "") == Some(s.url)
    requires s.auth.DigestAuth? && s.attempted && |s.sent| % 2 == 1
    ensures
      var turn := Step(c, s, ChallengeThenRedirect(|s.sent|));
      if s.redirects + 1 > c.maxRedirects then
        turn.Stop? && turn.outcome == TooManyRedirects && |turn.sent| == |s.sent| + 1
      else
        && turn.Again? && turn.next.auth.DigestAuth? && !turn.next.attempted
        && turn.next.redirects == s.redirects + 1 && |turn.next.sent| == |s.sent| + 1
  {
  }

  lemma {:induction false} AlternatingServer(c: Config, s: Loop)
    requires c.follow && forall u: Url, l: string :: c.join(u, l) == Some(u)
    requires s.auth.DigestAuth? && !s.attempted && s.redirects <= c.maxRedirects && |s.sent| == 2 * s.redirects
    ensures Run(c, s, ChallengeThenRedirect).1 == TooManyRedirects
    ensures |Run(c, s, ChallengeThenRedirect).0| == 2 * c.maxRedirects + 2
    decreases c.maxRedirects - s.redirects
  {
    AlternatingChallenge(c, s);
    var first := Step(c, s, ChallengeThenRedirect(|s.sent|)).next;
    AlternatingRedirect(c, first);
    if s.redirects < c.maxRedirects {
      AlternatingServer(c, Step(c, first, ChallengeThenRedirect(|first.sent|)).next);
    }
  }

  /** The bound is reached: a Digest client, and a server that challenges and redirects forever. */
  lemma RequestBoundIsTight(c: Config, url: Url, verb: string, body: Option<seq<Byte>>, headers: Headers)
    requires c.maxRedirects >= 0 && c.follow && forall u: Url, l: string :: c.join(u, l) == Some(u)
    ensures |Run(c, Start(url, verb, body, headers, DigestAuth), ChallengeThenRedirect).0| == 2 * HopLimit(c) + 2
  {
    AlternatingServer(c, Start(url, verb, body, headers, DigestAuth));
  }

  // ------------------------------------------------------------------------
  // What the requests carry
  // ------------------------------------------------------------------------

  /** Some hop among these requests, or from the last of them to `url`, changed the origin. */
  predicate Crossed(sent: seq<Request>, url: Url)
  {
    sent != [] &&
    (Origin(sent[|sent| - 1].url) != Origin(url) || Crossed(sent[..|sent| - 1], sent[|sent| - 1].url))
  }

  /** What the caller passed in, as far as the headers' promises depend on it. */
  datatype Caller = Caller(setsHost: bool, digestOnly: bool, verb: string, body: Option<seq<Byte>>)

  ghost predicate OwnHost(caller: Caller, headers: Headers, crossed: bool, url: Url)
  {
    Host in headers && (!caller.setsHost || crossed) ==> headers[Host] == Authority(url)
  }

  /** No credential of the first origin is left; a proxy credential is the proxy's own. */
  ghost predicate NoOriginCredentials(c: Config, headers: Headers)
  {
    && Authorization !in headers && Cookie !in headers
    && XApiKey !in headers && ApiKey !in headers && XGoogApiKey !in headers
    && (ProxyAuthorization in headers ==> Some(headers[ProxyAuthorization]) == c.proxyCredential)
  }

  ghost predicate AnswersOwnRequest(c: Config, header: string, verb: string, url: Url)
  {
    exists challenge: string, n: nat :: header == c.answer(verb, url.path, challenge, n)
  }

  /** Either the caller's verb and body, or a GET without body and entity headers. */
  ghost predicate EntityKept(caller: Caller, verb: string, body: Option<seq<Byte>>, headers: Headers)
  {
    || (verb == caller.verb && body == caller.body)
    || (verb == "GET" && body == None && ContentType !in headers && ContentLength !in headers)
  }

  ghost predicate RequestOk(c: Config, caller: Caller, before: seq<Request>, r: Request)
  {
    && Host in r.headers
    && OwnHost(caller, r.headers, Crossed(before, r.url), r.url)
    && (Crossed(before, r.url) ==> NoOriginCredentials(c, r.headers))
    && (caller.digestOnly && Authorization in r.headers ==> AnswersOwnRequest(c, r.headers[Authorization], r.verb, r.url))
    && EntityKept(caller, r.verb, r.body, r.headers)
  }

  ghost predicate LogOk(c: Config, caller: Caller, sent: seq<Request>)
  {
    sent == [] ||
    (LogOk(c, caller, sent[..|sent| - 1]) && RequestOk(c, caller, sent[..|sent| - 1], sent[|sent| - 1]))
  }

  ghost predicate LoopOk(c: Config, caller: Caller, s: Loop)
  {
    && LogOk(c, caller, s.sent)
    && OwnHost(caller, s.headers, Crossed(s.sent, s.url), s.url)
    && (Crossed(s.sent, s.url) ==> NoOriginCredentials(c, s.headers) && s.auth.NoAuth?)
    && (s.attempted ==> s.auth.DigestAuth?)
    && (caller.digestOnly && Authorization in s.headers ==>
          s.attempted && AnswersOwnRequest(c, s.headers[Authorization], s.verb, s.url))
    && EntityKept(caller, s.verb, s.body, s.headers)
  }

  lemma {:induction false} LogOkAt(c: Config, caller: Caller, sent: seq<Request>, j: nat)
    requires LogOk(c, caller, sent) && j < |sent|
    ensures RequestOk(c, caller, sent[..j], sent[j])
    decreases |sent|
  {
    if j < |sent| - 1 {
      LogOkAt(c, caller, sent[..|sent| - 1], j);
      assert sent[..|sent| - 1][..j] == sent[..j];
    }
  }

  /** The loop once its next request is sent. */
  function Sent(c: Config, s: Loop, reused: bool): Loop
  {
    var h := ConnectedHeaders(c, s, reused);
    s.(headers := h, sent := s.sent + [Request(s.url, s.verb, h, s.body)])
  }

  /** The headers keep their promises when a connection adds its own. */
  lemma ConnectingKeepsOk(c: Config, caller: Caller, s: Loop, reused: bool)
    requires LoopOk(c, caller, s)
    ensures
      var h := ConnectedHeaders(c, s, reused);
      && RequestOk(c, caller, s.sent, Request(s.url, s.verb, h, s.body))
      && (Authorization in h <==> Authorization in s.headers)
      && (Authorization in h ==> h[Authorization] == s.headers[Authorization])
  {
  }

  lemma SendingKeepsOk(c: Config, caller: Caller, s: Loop, reused: bool)
    requires LoopOk(c, caller, s)
    ensures LoopOk(c, caller, Sent(c, s, reused)) && Host in Sent(c, s, reused).headers
    ensures Crossed(Sent(c, s, reused).sent, s.url) == Crossed(s.sent, s.url)
  {
    var t := Sent(c, s, reused);
    assert t.sent[..|t.sent| - 1] == s.sent;
    ConnectingKeepsOk(c, caller, s, reused);
  }

  lemma RedirectKeepsOk(c: Config, caller: Caller, s: Loop, status: int, location: string)
    requires LoopOk(c, caller, s) && s.sent != [] && s.sent[|s.sent| - 1].url == s.url
    requires Redirected(c, s, status, location).Some?
    ensures LoopOk(c, caller, Redirected(c, s, status, location).value)
  {
    var n := Redirected(c, s, status, location).value;
    if Origin(s.url) == Origin(n.url) {
      SameOriginSameAuthority(s.url, n.url);
    }
  }

  ghost predicate TurnOk(c: Config, caller: Caller, turn: Turn)
  {
    match turn
    case Stop(sent, _) => LogOk(c, caller, sent)
    case Again(n) => LoopOk(c, caller, n)
  }

  /** What a turn makes of the loop once its request is sent: the end, a redirect, or a Digest answer. */
  lemma TurnAfterSending(c: Config, s: Loop, x: Exchange)
    requires !x.NoConnection?
    ensures
      var t := Sent(c, s, x.reused);
      match Step(c, s, x)
      case Stop(sent, _) => sent == t.sent
      case Again(n) =>
        if c.follow && IsRedirect(x.status, x.headers) then Redirected(c, t, x.status, x.headers[Location]) == Some(n)
        else
          && t.auth.DigestAuth? && WwwAuthenticate in x.headers
          && (var header := c.answer(t.verb, t.url.path, x.headers[WwwAuthenticate], |t.sent|);
              n == t.(headers := t.headers[Authorization := header], attempted := true))
  {
  }

  lemma StepKeepsOk(c: Config, caller: Caller, s: Loop, x: Exchange)
    requires LoopOk(c, caller, s)
    ensures TurnOk(c, caller, Step(c, s, x))
  {
    if !x.NoConnection? {
      var t := Sent(c, s, x.reused);
      SendingKeepsOk(c, caller, s, x.reused);
      TurnAfterSending(c, s, x);
      if Step(c, s, x).Again? && c.follow && IsRedirect(x.status, x.headers) {
        RedirectKeepsOk(c, caller, t, x.status, x.headers[Location]);
      }
    }
  }

  lemma {:induction false} RunKeepsOk(c: Config, caller: Caller, s: Loop, network: nat -> Exchange)
    requires LoopOk(c, caller, s)
    ensures LogOk(c, caller, Run(c, s, network).0)
    decreases HopsLeft(c, s), !s.attempted
  {
    var turn := Step(c, s, network(|s.sent|));
    StepKeepsOk(c, caller, s, network(|s.sent|));
    if turn.Again? {
      RunKeepsOk(c, caller, turn.next, network);
    }
  }

  /**
   For every network: each request has a Host header, its own URL's authority
   unless the caller set one, and after the first change of origin in any case;
   after that change no request carries a credential of the first origin; a
   Digest header always answers for its own verb and path; and a request has the
   caller's verb and body, or is a GET that carries no entity at all.
   */
  lemma RequestsCarryOnlyTheirOwn(
      c: Config, url: Url, verb: string, body: Option<seq<Byte>>, user: Headers, contentType: Option<string>,
      auth: Auth, network: nat -> Exchange)
    ensures
      var s := Start(url, verb, body, PrepareHeaders(user, contentType, body, auth), auth);
      var caller := Caller(Host in user, auth.DigestAuth? && Authorization !in user, verb, body);
      var sent := Run(c, s, network).0;
      forall j :: 0 <= j < |sent| ==> RequestOk(c, caller, sent[..j], sent[j])
  {
    var s := Start(url, verb, body, PrepareHeaders(user, contentType, body, auth), auth);
    var caller := Caller(Host in user, auth.DigestAuth? && Authorization !in user, verb, body);
    var sent := Run(c, s, network).0;
    assert LoopOk(c, caller, s);
    RunKeepsOk(c, caller, s, network);
    forall j | 0 <= j < |sent|
      ensures RequestOk(c, caller, sent[..j], sent[j])
    {
      LogOkAt(c, caller, sent, j);
    }
  }
}
