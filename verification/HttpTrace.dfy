/**
 What the request loop does on the network, told from the requests sent and the
 exchanges that answered them: why each further request was sent, where it went
 and what it carried, and how the call ended.
 */
module HttpTraces {
  import opened Common
  import opened Bytes
  import opened HttpRequests

  // ------------------------------------------------------------------------
  // Reading exchanges
  // ------------------------------------------------------------------------

  /** A redirect that the caller wants followed. */
  predicate RedirectsBy(c: Config, x: Exchange)
  {
    && c.follow && x.Response? && Location in x.headers
    && (x.status == 301 || x.status == 302 || x.status == 303 || x.status == 307 || x.status == 308)
  }

  predicate Challenges(x: Exchange)
  {
    && x.Response? && x.status == 401
    && WwwAuthenticate in x.headers && "digest" <= Lower(x.headers[WwwAuthenticate])
  }

  /** How many of the first `n` exchanges were redirects. */
  function Hops(c: Config, network: nat -> Exchange, n: nat): nat
  {
    if n == 0 then 0 else Hops(c, network, n - 1) + if RedirectsBy(c, network(n - 1)) then 1 else 0
  }

  predicate OtherOrigin(u: Url, v: Url)
  {
    u.scheme != v.scheme || u.host != v.host || u.port != v.port
  }

  /** Some hop among these requests, or from the last of them to `url`, left its origin. */
  predicate LeftOrigin(sent: seq<Request>, url: Url)
  {
    sent != [] &&
    (OtherOrigin(sent[|sent| - 1].url, url) || LeftOrigin(sent[..|sent| - 1], sent[|sent| - 1].url))
  }

  /** Request `j` repeats the one before it with a Digest answer. */
  predicate AnswersChallenge(c: Config, network: nat -> Exchange, j: nat)
  {
    j > 0 && !RedirectsBy(c, network(j - 1))
  }

  /** Exchange `j` makes the client send another request. */
  predicate GoesOn(c: Config, auth: Auth, network: nat -> Exchange, sent: seq<Request>, j: nat)
    requires j < |sent|
  {
    var x := network(j);
    if RedirectsBy(c, x) then
      Hops(c, network, j) < c.maxRedirects && c.join(sent[j].url, x.headers[Location]).Some?
    else
      && Challenges(x) && auth.DigestAuth?
      && !LeftOrigin(sent[..j], sent[j].url) && !AnswersChallenge(c, network, j)
  }

  // ------------------------------------------------------------------------
  // The next request
  // ------------------------------------------------------------------------

  /** Headers that depend on the connection. */
  predicate OfConnection(n: Name)
  {
    n == Host || n == Connection || n == ProxyAuthorization
  }

  /** The method is rewritten to GET. */
  predicate Rewrites(status: int, verb: string)
  {
    status == 303 || ((status == 301 || status == 302) && verb == "POST")
  }

  predicate Credential(n: Name)
  {
    n == Authorization || n == Cookie || n == XApiKey || n == ApiKey || n == XGoogApiKey
  }

  /** Header `n` does not survive the redirect: a Digest answer, an entity header, a credential of another origin. */
  predicate Removed(n: Name, status: int, verb: string, crosses: bool, answered: bool)
  {
    || (answered && n == Authorization)
    || (Rewrites(status, verb) && (n == ContentType || n == ContentLength))
    || (crosses && Credential(n))
  }

  /** What request `r`, the `j`-th, and its exchange make of the next URL, method, body and headers. */
  ghost predicate LeadsTo(
      c: Config, network: nat -> Exchange, j: nat, r: Request,
      url: Url, verb: string, body: Option<seq<Byte>>, headers: Headers)
  {
    var x := network(j);
    if RedirectsBy(c, x) then
      && c.join(r.url, x.headers[Location]) == Some(url)
      && verb == (if Rewrites(x.status, r.verb) then "GET" else r.verb)
      && body == (if Rewrites(x.status, r.verb) then None else r.body)
      && (forall n :: !OfConnection(n) ==>
            var removed := Removed(n, x.status, r.verb, OtherOrigin(r.url, url), AnswersChallenge(c, network, j));
            (n in headers <==> n in r.headers && !removed) && (n in headers ==> headers[n] == r.headers[n]))
    else
      && Challenges(x)
      && url == r.url && verb == r.verb && body == r.body
      && Authorization in headers
      && headers[Authorization] == c.answer(r.verb, r.url.path, x.headers[WwwAuthenticate], j + 1)
      && (forall n :: !OfConnection(n) && n != Authorization ==>
            (n in headers <==> n in r.headers) && (n in headers ==> headers[n] == r.headers[n]))
  }

  /** Caller's headers before the library's defaults and behind Basic credentials. */
  ghost predicate Prepared(headers: Headers, user: Headers, contentType: Option<string>, body: Option<seq<Byte>>, auth: Auth)
  {
    && (forall n :: n in user && !(auth.BasicAuth? && n == Authorization) ==> n in headers && headers[n] == user[n])
    && (auth.BasicAuth? ==> Authorization in headers && headers[Authorization] == auth.header)
    && (body.Some? && ContentLength !in user ==>
          ContentLength in headers && headers[ContentLength] == Decimal(|body.value|))
    && (contentType.Some? && ContentType !in user ==> ContentType in headers && headers[ContentType] == contentType.value)
    && (forall n :: n in headers ==>
          || n in user || n == UserAgent || n == AcceptEncoding
          || (n == ContentType && contentType.Some?) || (n == ContentLength && body.Some?)
          || (n == Authorization && auth.BasicAuth?))
  }

  lemma PreparedHeaders(user: Headers, contentType: Option<string>, body: Option<seq<Byte>>, auth: Auth)
    ensures Prepared(PrepareHeaders(user, contentType, body, auth), user, contentType, body, auth)
  {
  }

  /** What the connection adds to a request: Host at least, the proxy's credential, keep-alive. */
  ghost predicate OverConnection(c: Config, x: Exchange, r: Request)
  {
    && !x.NoConnection?
    && Host in r.headers
    && (c.proxy && c.proxyCredential.Some? && r.url.scheme != "https" ==>
          ProxyAuthorization in r.headers && r.headers[ProxyAuthorization] == c.proxyCredential.value)
    && (c.pooling && !c.proxy ==> Connection in r.headers && (x.reused ==> r.headers[Connection] == "keep-alive"))
  }

  /** The first request is the caller's, with Host from its own URL if the caller gave none. */
  ghost predicate IsFirst(first: Loop, r: Request)
  {
    && r.url == first.url && r.verb == first.verb && r.body == first.body
    && (forall n :: !OfConnection(n) ==>
          (n in r.headers <==> n in first.headers) && (n in r.headers ==> r.headers[n] == first.headers[n]))
    && Host in r.headers
    && r.headers[Host] == if Host in first.headers then first.headers[Host] else Authority(first.url)
  }

  /** Request `next` is the one that request `r`, the `j`-th, and its exchange lead to. */
  ghost predicate Succeeds(c: Config, network: nat -> Exchange, j: nat, r: Request, next: Request)
  {
    && LeadsTo(c, network, j, r, next.url, next.verb, next.body, next.headers)
    && Host in r.headers && Host in next.headers
    && next.headers[Host] == if OtherOrigin(r.url, next.url) then Authority(next.url) else r.headers[Host]
  }

  /** The requests of a call, each with the reason for the next. */
  ghost predicate Trace(c: Config, first: Loop, network: nat -> Exchange, sent: seq<Request>)
  {
    && (sent != [] ==> IsFirst(first, sent[0]))
    && (forall j :: 0 <= j < |sent| ==> OverConnection(c, network(j), sent[j]))
    && (forall j :: 0 <= j < |sent| - 1 ==>
          GoesOn(c, first.auth, network, sent, j) && Succeeds(c, network, j, sent[j], sent[j + 1]))
  }

  /** What the last exchange of a call makes of it. */
  function EndOf(c: Config, network: nat -> Exchange, k: nat): Outcome
  {
    var x := network(k);
    if !x.Response? || x.status == 101 then Raised
    else if RedirectsBy(c, x) then (if Hops(c, network, k) + 1 > c.maxRedirects then TooManyRedirects else Raised)
    else if c.stream then Streaming(x.status)
    else if x.bodyReads then Buffered(x.status)
    else Raised
  }

  /** A call from its first request to its end. */
  ghost predicate WholeCall(c: Config, first: Loop, network: nat -> Exchange, sent: seq<Request>, outcome: Outcome)
  {
    && Trace(c, first, network, sent)
    && (if sent == [] || GoesOn(c, first.auth, network, sent, |sent| - 1)
        then network(|sent|).NoConnection? && outcome == Raised
        else outcome == EndOf(c, network, |sent| - 1))
  }

  // ------------------------------------------------------------------------
  // The loop's variables
  // ------------------------------------------------------------------------

  /** The counters and the credentials, as the exchanges so far explain them. */
  ghost predicate Counters(c: Config, auth: Auth, network: nat -> Exchange, s: Loop)
  {
    && s.redirects == Hops(c, network, |s.sent|)
    && s.auth == (if LeftOrigin(s.sent, s.url) then NoAuth else auth)
    && (s.attempted <==> AnswersChallenge(c, network, |s.sent|))
    && (s.attempted ==> s.auth.DigestAuth?)
  }

  /** Before it is sent, the next request lacks only what the connection adds. */
  ghost predicate Prospect(c: Config, first: Loop, network: nat -> Exchange, s: Loop)
  {
    var k := |s.sent|;
    if k == 0 then s.url == first.url && s.verb == first.verb && s.body == first.body && s.headers == first.headers
    else
      var r := s.sent[k - 1];
      && LeadsTo(c, network, k - 1, r, s.url, s.verb, s.body, s.headers)
      && Host in r.headers
      && (if OtherOrigin(r.url, s.url) then Host !in s.headers
          else Host in s.headers && s.headers[Host] == r.headers[Host])
  }

  /** Every request so far but the last led on to the next; the loop goes on from the last. */
  ghost predicate OnTrack(c: Config, first: Loop, network: nat -> Exchange, s: Loop)
  {
    && Trace(c, first, network, s.sent)
    && Counters(c, first.auth, network, s)
    && Prospect(c, first, network, s)
    && (s.sent != [] ==> GoesOn(c, first.auth, network, s.sent, |s.sent| - 1))
  }

  // ------------------------------------------------------------------------
  // Sending
  // ------------------------------------------------------------------------

  lemma ConnectionAdds(c: Config, s: Loop, x: Exchange)
    requires !x.NoConnection?
    ensures
      var h := ConnectedHeaders(c, s, x.reused);
      && OverConnection(c, x, Request(s.url, s.verb, h, s.body))
      && (forall n :: !OfConnection(n) ==> (n in h <==> n in s.headers) && (n in h ==> h[n] == s.headers[n]))
      && h[Host] == if Host in s.headers then s.headers[Host] else Authority(s.url)
  {
  }

  lemma LeadsToAlike(
      c: Config, network: nat -> Exchange, j: nat, r: Request,
      url: Url, verb: string, body: Option<seq<Byte>>, h: Headers, g: Headers)
    requires LeadsTo(c, network, j, r, url, verb, body, h)
    requires forall n :: !OfConnection(n) ==> (n in g <==> n in h) && (n in g ==> g[n] == h[n])
    ensures LeadsTo(c, network, j, r, url, verb, body, g)
  {
  }

  lemma ProspectSent(c: Config, first: Loop, network: nat -> Exchange, s: Loop, x: Exchange)
    requires Prospect(c, first, network, s) && !x.NoConnection?
    ensures
      var r := Request(s.url, s.verb, ConnectedHeaders(c, s, x.reused), s.body);
      if s.sent == [] then IsFirst(first, r) else Succeeds(c, network, |s.sent| - 1, s.sent[|s.sent| - 1], r)
  {
    ConnectionAdds(c, s, x);
    if s.sent != [] {
      LeadsToAlike(c, network, |s.sent| - 1, s.sent[|s.sent| - 1], s.url, s.verb, s.body, s.headers,
                   ConnectedHeaders(c, s, x.reused));
    }
  }

  lemma GoesOnIsLocal(c: Config, auth: Auth, network: nat -> Exchange, sent: seq<Request>, r: Request, j: nat)
    requires j < |sent|
    ensures GoesOn(c, auth, network, sent + [r], j) == GoesOn(c, auth, network, sent, j)
  {
    assert (sent + [r])[..j] == sent[..j] && (sent + [r])[j] == sent[j];
  }

  lemma TraceExtends(c: Config, first: Loop, network: nat -> Exchange, sent: seq<Request>, r: Request)
    requires Trace(c, first, network, sent) && OverConnection(c, network(|sent|), r)
    requires sent == [] ==> IsFirst(first, r)
    requires sent != [] ==>
      && GoesOn(c, first.auth, network, sent, |sent| - 1)
      && Succeeds(c, network, |sent| - 1, sent[|sent| - 1], r)
    ensures Trace(c, first, network, sent + [r])
  {
    var more := sent + [r];
    forall j | 0 <= j < |sent|
      ensures GoesOn(c, first.auth, network, more, j) && Succeeds(c, network, j, more[j], more[j + 1])
    {
      GoesOnIsLocal(c, first.auth, network, sent, r, j);
      assert more[j] == sent[j] && more[j + 1] == if j + 1 < |sent| then sent[j + 1] else r;
    }
  }

  lemma SendingExtendsTrace(c: Config, first: Loop, network: nat -> Exchange, s: Loop)
    requires OnTrack(c, first, network, s) && !network(|s.sent|).NoConnection?
    ensures Trace(c, first, network, Sent(c, s, network(|s.sent|).reused).sent)
  {
    var x := network(|s.sent|);
    ConnectionAdds(c, s, x);
    ProspectSent(c, first, network, s, x);
    TraceExtends(c, first, network, s.sent, Request(s.url, s.verb, ConnectedHeaders(c, s, x.reused), s.body));
  }

  lemma LastSent(c: Config, s: Loop, reused: bool)
    ensures
      var t := Sent(c, s, reused);
      && |t.sent| == |s.sent| + 1 && t.sent[..|s.sent|] == s.sent && Host in t.headers
      && t.sent[|s.sent|] == Request(s.url, s.verb, t.headers, s.body)
      && forall url :: LeftOrigin(t.sent, url) <==> OtherOrigin(s.url, url) || LeftOrigin(s.sent, s.url)
  {
    var t := Sent(c, s, reused);
    assert t.sent[..|t.sent| - 1] == s.sent;
  }

  // ------------------------------------------------------------------------
  // One turn
  // ------------------------------------------------------------------------

  /** What a turn makes of the loop once its request is sent. */
  lemma TurnDecided(c: Config, s: Loop, x: Exchange)
    requires !x.NoConnection?
    ensures
      var t := Sent(c, s, x.reused);
      match Step(c, s, x)
      case Stop(sent, _) => sent == t.sent
      case Again(n) =>
        x.Response? && n.sent == t.sent &&
        if RedirectsBy(c, x) then
          s.redirects + 1 <= c.maxRedirects && Redirected(c, t, x.status, x.headers[Location]) == Some(n)
        else
          && Challenges(x) && s.auth.DigestAuth? && !s.attempted
          && (var header := c.answer(s.verb, s.url.path, x.headers[WwwAuthenticate], |t.sent|);
              n == t.(headers := t.headers[Authorization := header], attempted := true))
  {
  }

  /** `_compute_redirect`: where it leads. */
  lemma RedirectMoves(c: Config, t: Loop, status: int, location: string, n: Loop)
    requires Redirected(c, t, status, location) == Some(n)
    ensures c.join(t.url, location) == Some(n.url)
    ensures n.verb == (if Rewrites(status, t.verb) then "GET" else t.verb)
    ensures n.body == (if Rewrites(status, t.verb) then None else t.body)
    ensures n.sent == t.sent && n.redirects == t.redirects + 1
    ensures n.auth == if OtherOrigin(t.url, n.url) then NoAuth else t.auth
    ensures n.attempted == (t.attempted && !t.auth.DigestAuth?)
  {
  }

  /** `_compute_redirect`, header by header. */
  lemma RedirectStrips(c: Config, t: Loop, status: int, location: string, n: Loop)
    requires Redirected(c, t, status, location) == Some(n)
    ensures forall h :: !OfConnection(h) ==>
      var removed := Removed(h, status, t.verb, OtherOrigin(t.url, n.url), t.auth.DigestAuth? && t.attempted);
      (h in n.headers <==> h in t.headers && !removed) && (h in n.headers ==> n.headers[h] == t.headers[h])
    ensures if OtherOrigin(t.url, n.url) then Host !in n.headers
            else (Host in n.headers <==> Host in t.headers) && (Host in n.headers ==> n.headers[Host] == t.headers[Host])
  {
  }

  /** Once request `k` is sent, the counters are those of the exchanges before it. */
  predicate SentOn(c: Config, auth: Auth, network: nat -> Exchange, k: nat, t: Loop)
  {
    && |t.sent| == k + 1 && t.sent[k].url == t.url
    && t.redirects == Hops(c, network, k)
    && t.auth == (if LeftOrigin(t.sent[..k], t.url) then NoAuth else auth)
    && (t.attempted <==> AnswersChallenge(c, network, k))
    && (t.attempted ==> t.auth.DigestAuth?)
  }

  lemma RedirectCounts(c: Config, auth: Auth, network: nat -> Exchange, k: nat, t: Loop, n: Loop)
    requires SentOn(c, auth, network, k, t) && RedirectsBy(c, network(k)) && t.redirects + 1 <= c.maxRedirects
    requires Redirected(c, t, network(k).status, network(k).headers[Location]) == Some(n)
    ensures Counters(c, auth, network, n) && GoesOn(c, auth, network, n.sent, k)
  {
    RedirectMoves(c, t, network(k).status, network(k).headers[Location], n);
    assert t.sent[..|t.sent| - 1] == t.sent[..k];
  }

  lemma DigestCounts(c: Config, auth: Auth, network: nat -> Exchange, k: nat, t: Loop, n: Loop)
    requires SentOn(c, auth, network, k, t) && !RedirectsBy(c, network(k)) && Challenges(network(k))
    requires t.auth.DigestAuth? && !t.attempted && n == t.(headers := n.headers, attempted := true)
    ensures Counters(c, auth, network, n) && GoesOn(c, auth, network, n.sent, k)
  {
    assert t.sent[..|t.sent| - 1] == t.sent[..k];
  }

  lemma TurnCounts(c: Config, auth: Auth, network: nat -> Exchange, s: Loop, n: Loop)
    requires Counters(c, auth, network, s) && !network(|s.sent|).NoConnection?
    requires Step(c, s, network(|s.sent|)) == Again(n)
    ensures Counters(c, auth, network, n) && GoesOn(c, auth, network, n.sent, |s.sent|)
    ensures n.sent == Sent(c, s, network(|s.sent|).reused).sent
  {
    var k, x := |s.sent|, network(|s.sent|);
    var t := Sent(c, s, x.reused);
    LastSent(c, s, x.reused);
    TurnDecided(c, s, x);
    if RedirectsBy(c, x) {
      RedirectCounts(c, auth, network, k, t, n);
      RedirectMoves(c, t, x.status, x.headers[Location], n);
    } else {
      DigestCounts(c, auth, network, k, t, n);
    }
  }

  lemma TurnUsesUp(c: Config, network: nat -> Exchange, s: Loop, n: Loop)
    requires Step(c, s, network(|s.sent|)) == Again(n)
    ensures HopsLeft(c, n) < HopsLeft(c, s) || (HopsLeft(c, n) == HopsLeft(c, s) && !s.attempted && n.attempted)
  {
  }

  lemma RedirectProspect(c: Config, first: Loop, network: nat -> Exchange, k: nat, t: Loop, n: Loop)
    requires |t.sent| == k + 1 && t.sent[k] == Request(t.url, t.verb, t.headers, t.body) && Host in t.headers
    requires RedirectsBy(c, network(k))
    requires Redirected(c, t, network(k).status, network(k).headers[Location]) == Some(n)
    requires (t.auth.DigestAuth? && t.attempted) == AnswersChallenge(c, network, k)
    ensures Prospect(c, first, network, n)
  {
    RedirectMoves(c, t, network(k).status, network(k).headers[Location], n);
    RedirectStrips(c, t, network(k).status, network(k).headers[Location], n);
  }

  lemma DigestProspect(c: Config, first: Loop, network: nat -> Exchange, k: nat, t: Loop, n: Loop)
    requires |t.sent| == k + 1 && t.sent[k] == Request(t.url, t.verb, t.headers, t.body) && Host in t.headers
    requires !RedirectsBy(c, network(k)) && Challenges(network(k))
    requires
      var header := c.answer(t.verb, t.url.path, network(k).headers[WwwAuthenticate], k + 1);
      n == t.(headers := t.headers[Authorization := header], attempted := true)
    ensures Prospect(c, first, network, n)
  {
  }

  lemma TurnLeadsOn(c: Config, first: Loop, network: nat -> Exchange, s: Loop, n: Loop)
    requires Counters(c, first.auth, network, s) && !network(|s.sent|).NoConnection?
    requires Step(c, s, network(|s.sent|)) == Again(n)
    ensures Prospect(c, first, network, n)
  {
    var x := network(|s.sent|);
    var t := Sent(c, s, x.reused);
    LastSent(c, s, x.reused);
    TurnDecided(c, s, x);
    if RedirectsBy(c, x) {
      RedirectProspect(c, first, network, |s.sent|, t, n);
    } else {
      DigestProspect(c, first, network, |s.sent|, t, n);
    }
  }

  lemma TurnStays(c: Config, first: Loop, network: nat -> Exchange, s: Loop, n: Loop)
    requires OnTrack(c, first, network, s) && !network(|s.sent|).NoConnection?
    requires Step(c, s, network(|s.sent|)) == Again(n)
    ensures OnTrack(c, first, network, n)
  {
    SendingExtendsTrace(c, first, network, s);
    TurnCounts(c, first.auth, network, s, n);
    TurnLeadsOn(c, first, network, s, n);
    LastSent(c, s, network(|s.sent|).reused);
  }

  lemma TurnEnds(c: Config, first: Loop, network: nat -> Exchange, s: Loop)
    requires OnTrack(c, first, network, s) && Step(c, s, network(|s.sent|)).Stop?
    ensures
      var turn := Step(c, s, network(|s.sent|));
      WholeCall(c, first, network, turn.sent, turn.outcome)
  {
    var x := network(|s.sent|);
    if !x.NoConnection? {
      SendingExtendsTrace(c, first, network, s);
      LastSent(c, s, x.reused);
      TurnDecided(c, s, x);
      EndDecided(c, first.auth, network, s);
    }
  }

  lemma EndDecided(c: Config, auth: Auth, network: nat -> Exchange, s: Loop)
    requires Counters(c, auth, network, s) && !network(|s.sent|).NoConnection?
    requires Step(c, s, network(|s.sent|)).Stop?
    ensures
      var x := network(|s.sent|);
      && Step(c, s, x).outcome == EndOf(c, network, |s.sent|)
      && !GoesOn(c, auth, network, Sent(c, s, x.reused).sent, |s.sent|)
  {
    LastSent(c, s, network(|s.sent|).reused);
  }

  // ------------------------------------------------------------------------
  // The whole call
  // ------------------------------------------------------------------------

  /** The run from `s` ends as its turn does, or as the run from the next turn. */
  lemma RunTurn(c: Config, s: Loop, network: nat -> Exchange)
    ensures
      var turn := Step(c, s, network(|s.sent|));
      Run(c, s, network) == if turn.Stop? then (turn.sent, turn.outcome) else Run(c, turn.next, network)
  {
  }

  lemma {:induction false} RunIsWholeCall(c: Config, first: Loop, network: nat -> Exchange, s: Loop)
    requires OnTrack(c, first, network, s)
    ensures WholeCall(c, first, network, Run(c, s, network).0, Run(c, s, network).1)
    decreases HopsLeft(c, s), !s.attempted
  {
    var turn := Step(c, s, network(|s.sent|));
    RunTurn(c, s, network);
    if turn.Again? {
      TurnStays(c, first, network, s, turn.next);
      TurnUsesUp(c, network, s, turn.next);
      RunIsWholeCall(c, first, network, turn.next);
    } else {
      TurnEnds(c, first, network, s);
    }
  }

  /**
   On every network: the first request is the caller's. Every further one is
   either the request before it again, with the answer to its Digest challenge,
   or goes where the redirect before it leads, with the method, body and headers
   that this redirect leaves; and one is sent exactly if there is such a reason.
   The call ends as its last exchange says, or because no connection was to be
   had for the next request.
   */
  lemma RequestsFollowExchanges(
      c: Config, url: Url, verb: string, body: Option<seq<Byte>>, user: Headers, contentType: Option<string>,
      auth: Auth, network: nat -> Exchange)
    ensures
      var first := Start(url, verb, body, PrepareHeaders(user, contentType, body, auth), auth);
      && first.url == url && first.verb == verb && first.body == body && first.auth == auth
      && Prepared(first.headers, user, contentType, body, auth)
      && WholeCall(c, first, network, Run(c, first, network).0, Run(c, first, network).1)
  {
    var first := Start(url, verb, body, PrepareHeaders(user, contentType, body, auth), auth);
    PreparedHeaders(user, contentType, body, auth);
    RunIsWholeCall(c, first, network, first);
  }
}
