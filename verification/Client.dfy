/** The request engine: retries around redirects around one hop. */
module Client {
  import opened Wrappers
  import opened Text
  import opened Proxy
  import opened Routing
  import opened Retry
  import opened Http

  datatype CookieStore = CookieStore(url: Url, values: seq<string>)

  /** What the client does, in order. */
  datatype Event =
    | Dialed(host: string, port: Port)
    | Sent(pooled: bool, request: Request)
    | Stored(cookies: CookieStore)
    | Slept(delay: Duration)

  type History = seq<Event>

  /** Every request put on the wire so far. */
  function Requests(h: History): seq<Request> {
    if h == [] then
      []
    else
      Requests(h[..|h| - 1]) + (if h[|h| - 1].Sent? then [h[|h| - 1].request] else [])
  }

  /** Everything stored in the cookie jar so far. */
  function Stores(h: History): seq<CookieStore> {
    if h == [] then
      []
    else
      Stores(h[..|h| - 1]) + (if h[|h| - 1].Stored? then [h[|h| - 1].cookies] else [])
  }

  /** A peer's answer to a request: no usable head, or a head and a body that may break off. */
  datatype Answer = NoHead(error: NetError) | Head(status: nat, headers: Headers, data: seq<int>, broken: Option<NetError>)

  /** Any server, URL resolver, cookie jar and clock: the server answers the last of the requests
      it has seen, the jar is a function of what was stored in it. */
  datatype World = World(
    serve: seq<Request> -> Answer,
    resolve: (Url, string) -> Option<Url>,
    cookieHeader: (seq<CookieStore>, Url) -> Option<string>,
    validValue: string -> bool,
    parseRetryAfter: (History, string) -> Option<Duration>)

  /** The rest of the machine: whether the pool has a connection, whether dialing fails, and draws. */
  datatype Machine = Machine(
    takes: History -> bool,
    dials: History -> Option<NetError>,
    draw: History -> u64)

  datatype RedirectPolicy = Follow(max: nat) | NoRedirects

  datatype Settings = Settings(
    redirects: RedirectPolicy, cookieJar: bool, pool: bool, proxy: Option<Server>, bypass: seq<string>)

  // One hop

  /** The dial phase of a hop: one resolve and connect sequence to where the hop is routed. */
  function AfterDial(s: Settings, request: Request, h: History): History {
    var target := TargetOf(request.url, ActiveProxy(s.proxy, s.bypass, request.url));
    h + [Dialed(target.connectHost, target.connectPort)]
  }

  /** A dial phase and one attempt on the connection it gives. */
  function FreshAttempt(w: World, m: Machine, s: Settings, request: Request, h: History): (Answer, History) {
    var dialed := AfterDial(s, request, h);
    match m.dials(dialed)
    case Some(e) => (NoHead(e), dialed)
    case None =>
      var sent := dialed + [Sent(false, request)];
      (w.serve(Requests(sent)), sent)
  }

  function ResponseOf(a: Answer, url: Url): Result<Response, Error> {
    match a
    case NoHead(e) => Err(Net(e))
    case Head(status, headers, data, broken) =>
      if broken.Some? then Err(Net(broken.value)) else Ok(Response(status, headers, url, data))
  }

  /** `send_one_hop`: any failure on a pooled connection, body included, is tried again on a fresh one. */
  function OneHop(w: World, m: Machine, s: Settings, request: Request, h: History): (Result<Response, Error>, History) {
    if s.pool && m.takes(h) then
      var sent := h + [Sent(true, request)];
      var first := ResponseOf(w.serve(Requests(sent)), request.url);
      if first.Ok? then
        (first, sent)
      else
        var (a, after) := FreshAttempt(w, m, s, request, sent);
        (ResponseOf(a, request.url), after)
    else
      var (a, after) := FreshAttempt(w, m, s, request, h);
      (ResponseOf(a, request.url), after)
  }

  /** `send_one_hop_streaming`: only the head has to arrive. */
  function OneHopStreaming(w: World, m: Machine, s: Settings, request: Request, h: History): (Answer, History) {
    if s.pool && m.takes(h) then
      var sent := h + [Sent(true, request)];
      var first := w.serve(Requests(sent));
      if first.Head? then (first, sent) else FreshAttempt(w, m, s, request, sent)
    else
      FreshAttempt(w, m, s, request, h)
  }

  // Wire headers

  const ACCEPT: string := "Accept"
  const COOKIE: string := "Cookie"
  const CONNECTION: string := "Connection"
  const CONTENT_LENGTH: string := "Content-Length"
  const TRANSFER_ENCODING: string := "Transfer-Encoding"
  const AUTHORIZATION: string := "Authorization"

  function WithAccept(h: Headers): Headers {
    if Has(h, ACCEPT) then h else Insert(h, ACCEPT, "*/*")
  }

  /** Jar cookies are appended to a caller-set `Cookie`; an invalid value is an error. */
  function WithCookies(w: World, s: Settings, history: History, url: Url, h: Headers): Option<Headers> {
    var jar := if s.cookieJar then w.cookieHeader(Stores(history), url) else None;
    if jar.None? then
      Some(h)
    else
      var merged := if Has(h, COOKIE) then Http.Get(h, COOKIE).value + "; " + jar.value else jar.value;
      if w.validValue(merged) then Some(Insert(h, COOKIE, merged)) else None
  }

  function WithConnection(s: Settings, h: Headers): Headers {
    if s.pool then h else Insert(h, CONNECTION, "close")
  }

  function WithFraming(body: Body, h: Headers): Headers {
    match ContentLength(body)
    case Some(n) => Insert(h, CONTENT_LENGTH, DecimalText(n))
    case None => Insert(h, TRANSFER_ENCODING, "chunked")
  }

  /** `build_wire_headers`. */
  function WireHeaders(w: World, s: Settings, history: History, url: Url, body: Body, hopHeaders: Headers): Option<Headers> {
    var h :- WithCookies(w, s, history, url, WithAccept(hopHeaders));
    Some(WithFraming(body, WithConnection(s, h)))
  }

  method BuildWireHeaders(w: World, s: Settings, history: History, url: Url, body: Body, hopHeaders: Headers)
    returns (r: Option<Headers>)
    ensures r == WireHeaders(w, s, history, url, body, hopHeaders)
  {
    var headers := hopHeaders;
    if !Has(headers, ACCEPT) {
      headers := Insert(headers, ACCEPT, "*/*");
    }
    if s.cookieJar {
      var jar := w.cookieHeader(Stores(history), url);
      if jar.Some? {
        var merged := jar.value;
        var existing := Http.Get(headers, COOKIE);
        if existing.Some? {
          merged := existing.value + "; " + jar.value;
        }
        if !w.validValue(merged) {
          return None;
        }
        headers := Insert(headers, COOKIE, merged);
      }
    }
    if !s.pool {
      headers := Insert(headers, CONNECTION, "close");
    }
    match ContentLength(body) {
      case Some(n) => headers := Insert(headers, CONTENT_LENGTH, DecimalText(n));
      case None => headers := Insert(headers, TRANSFER_ENCODING, "chunked");
    }
    r := Some(headers);
  }

  // The redirect loop

  /** The loop's variables at the head of a turn. */
  datatype Chain = Chain(verb: Method, url: Url, headers: Headers, body: Body, hop: nat)

  /** A turn ends the loop or hands over to the next one. */
  datatype Turn = Done(result: Result<Response, Error>) | Next(chain: Chain)

  /** The request this turn puts on the wire, if its headers can be built. */
  function HopRequest(w: World, s: Settings, c: Chain, h: History): Result<Request, Error> {
    if !Supported(c.url) then
      Err(UnsupportedScheme(c.url.scheme))
    else
      match WireHeaders(w, s, h, c.url, c.body, c.headers)
      case None => Err(Net(BadHeader))
      case Some(headers) => Ok(Request(c.verb, c.url, headers, c.body))
  }

  /** Cookies of every hop go into the jar, if there is one and there are any. */
  function StoreCookies(s: Settings, url: Url, headers: Headers, h: History): History {
    var values := All(headers, "set-cookie");
    if s.cookieJar && values != [] then h + [Stored(CookieStore(url, values))] else h
  }

  function AfterHop(w: World, s: Settings, c: Chain, status: nat, headers: Headers): Result<Chain, Error> {
    match Http.Get(headers, "location")
    case None => Err(NoLocation(status))
    case Some(location) =>
      match w.resolve(c.url, location)
      case None => Err(InvalidUrl)
      case Some(next) =>
        var hopHeaders := if SameOrigin(next, c.url) then c.headers else Remove(c.headers, AUTHORIZATION);
        var (verb, body) := AfterRedirect(status, c.verb, c.body);
        Ok(Chain(verb, next, hopHeaders, body, c.hop + 1))
  }

  /** What becomes of a response that has arrived. */
  function Decide(w: World, s: Settings, c: Chain, r: Response): Turn {
    if !IsRedirect(r.status) || s.redirects.NoRedirects? then
      Done(Ok(r))
    else if c.hop >= s.redirects.max then
      Done(Err(TooManyRedirects(s.redirects.max)))
    else
      match AfterHop(w, s, c, r.status, r.headers)
      case Err(e) => Done(Err(e))
      case Ok(next) => Next(next)
  }

  /** One turn of `send_with_redirects`. */
  function BufferedTurn(w: World, m: Machine, s: Settings, c: Chain, h: History): (Turn, History) {
    match HopRequest(w, s, c, h)
    case Err(e) => (Done(Err(e)), h)
    case Ok(request) =>
      var (r, after) := OneHop(w, m, s, request, h);
      match r
      case Err(e) => (Done(Err(e)), after)
      case Ok(response) => (Decide(w, s, c, response), StoreCookies(s, c.url, response.headers, after))
  }

  /** A redirect hop's body is drained before the next hop, and a break in it is an error. */
  function DecideStreaming(w: World, s: Settings, c: Chain, r: Response, broken: Option<NetError>): Turn {
    if !IsRedirect(r.status) || s.redirects.NoRedirects? then
      Done(Ok(r))
    else if c.hop >= s.redirects.max then
      Done(Err(TooManyRedirects(s.redirects.max)))
    else if broken.Some? then
      Done(Err(Net(broken.value)))
    else
      match AfterHop(w, s, c, r.status, r.headers)
      case Err(e) => Done(Err(e))
      case Ok(next) => Next(next)
  }

  /** One turn of `send_with_redirects_streaming`. */
  function StreamingTurn(w: World, m: Machine, s: Settings, c: Chain, h: History): (Turn, History) {
    match HopRequest(w, s, c, h)
    case Err(e) => (Done(Err(e)), h)
    case Ok(request) =>
      var (a, after) := OneHopStreaming(w, m, s, request, h);
      match a
      case NoHead(e) => (Done(Err(Net(e))), after)
      case Head(status, headers, data, broken) =>
        var r := Response(status, headers, c.url, data);
        (DecideStreaming(w, s, c, r, broken), StoreCookies(s, c.url, headers, after))
  }

  /** Turns left; a turn hands over only below the cap. */
  function Left(s: Settings, c: Chain): nat {
    if s.redirects.Follow? && c.hop < s.redirects.max then s.redirects.max - c.hop else 0
  }

  /** The loop of `send_with_redirects` from the head of a turn. */
  function Buffered(w: World, m: Machine, s: Settings, c: Chain, h: History): (Result<Response, Error>, History)
    decreases Left(s, c)
  {
    var (turn, after) := BufferedTurn(w, m, s, c, h);
    match turn
    case Done(result) => (result, after)
    case Next(next) => Buffered(w, m, s, next, after)
  }

  function Streaming(w: World, m: Machine, s: Settings, c: Chain, h: History): (Result<Response, Error>, History)
    decreases Left(s, c)
  {
    var (turn, after) := StreamingTurn(w, m, s, c, h);
    match turn
    case Done(result) => (result, after)
    case Next(next) => Streaming(w, m, s, next, after)
  }

  method SendOneHop(w: World, m: Machine, s: Settings, request: Request, h: History)
    returns (r: Result<Response, Error>, after: History)
    ensures (r, after) == OneHop(w, m, s, request, h)
  {
    after := h;
    if s.pool {
      if m.takes(h) {
        after := after + [Sent(true, request)];
        r := ResponseOf(w.serve(Requests(after)), request.url);
        if r.Ok? {
          return;
        }
      }
    }
    var target := TargetOf(request.url, ActiveProxy(s.proxy, s.bypass, request.url));
    after := after + [Dialed(target.connectHost, target.connectPort)];
    var failed := m.dials(after);
    if failed.Some? {
      r := Err(Net(failed.value));
      return;
    }
    after := after + [Sent(false, request)];
    r := ResponseOf(w.serve(Requests(after)), request.url);
  }

  method SendOneHopStreaming(w: World, m: Machine, s: Settings, request: Request, h: History)
    returns (a: Answer, after: History)
    ensures (a, after) == OneHopStreaming(w, m, s, request, h)
  {
    after := h;
    if s.pool {
      if m.takes(h) {
        after := after + [Sent(true, request)];
        a := w.serve(Requests(after));
        if a.Head? {
          return;
        }
      }
    }
    var target := TargetOf(request.url, ActiveProxy(s.proxy, s.bypass, request.url));
    after := after + [Dialed(target.connectHost, target.connectPort)];
    var failed := m.dials(after);
    if failed.Some? {
      a := NoHead(failed.value);
      return;
    }
    after := after + [Sent(false, request)];
    a := w.serve(Requests(after));
  }

  /** The end of a turn of either loop, once the response is known to be a redirect to follow. */
  method NextHop(w: World, s: Settings, c: Chain, status: nat, headers: Headers) returns (r: Result<Chain, Error>)
    ensures r == AfterHop(w, s, c, status, headers)
  {
    var location := Http.Get(headers, "location");
    if location.None? {
      return Err(NoLocation(status));
    }
    var next := w.resolve(c.url, location.value);
    if next.None? {
      return Err(InvalidUrl);
    }
    var hopHeaders := c.headers;
    var crossOrigin := !SameIgnoringCase(next.value.host, c.url.host) || next.value.port != c.url.port;
    if crossOrigin {
      hopHeaders := Remove(hopHeaders, AUTHORIZATION);
    }
    var redirected := AfterRedirect(status, c.verb, c.body);
    r := Ok(Chain(redirected.0, next.value, hopHeaders, redirected.1, c.hop + 1));
  }

  /** One turn of the loop of `send_with_redirects`, from scheme check to next hop. */
  method TakeTurn(w: World, m: Machine, s: Settings, c: Chain, h: History) returns (turn: Turn, history: History)
    ensures (turn, history) == BufferedTurn(w, m, s, c, h)
  {
    history := h;
    if c.url.scheme != "http" && c.url.scheme != "https" {
      return Done(Err(UnsupportedScheme(c.url.scheme))), history;
    }
    var wire := BuildWireHeaders(w, s, history, c.url, c.body, c.headers);
    if wire.None? {
      return Done(Err(Net(BadHeader))), history;
    }
    var r;
    r, history := SendOneHop(w, m, s, Request(c.verb, c.url, wire.value, c.body), history);
    if r.Err? {
      return Done(Err(r.error)), history;
    }
    history := StoreCookies(s, c.url, r.value.headers, history);
    if !IsRedirect(r.value.status) {
      return Done(Ok(r.value)), history;
    }
    if s.redirects.NoRedirects? {
      return Done(Ok(r.value)), history;
    }
    if c.hop >= s.redirects.max {
      return Done(Err(TooManyRedirects(s.redirects.max))), history;
    }
    var next := NextHop(w, s, c, r.value.status, r.value.headers);
    turn := if next.Ok? then Next(next.value) else Done(Err(next.error));
  }

  /** `send_with_redirects`: the loop's variables change together from turn to turn. */
  method SendWithRedirects(w: World, m: Machine, s: Settings, request: Request, h: History)
    returns (result: Result<Response, Error>, history: History)
    ensures (result, history) == Buffered(w, m, s, Start(request), h)
  {
    var c := Start(request);
    history := h;
    while true
      invariant Buffered(w, m, s, Start(request), h) == Buffered(w, m, s, c, history)
      decreases Left(s, c)
    {
      var turn;
      turn, history := TakeTurn(w, m, s, c, history);
      match turn {
        case Done(r) => return r, history;
        case Next(next) => c := next;
      }
    }
  }

  /** One turn of the loop of `send_with_redirects_streaming`. */
  method TakeTurnStreaming(w: World, m: Machine, s: Settings, c: Chain, h: History)
    returns (turn: Turn, history: History)
    ensures (turn, history) == StreamingTurn(w, m, s, c, h)
  {
    history := h;
    if c.url.scheme != "http" && c.url.scheme != "https" {
      return Done(Err(UnsupportedScheme(c.url.scheme))), history;
    }
    var wire := BuildWireHeaders(w, s, history, c.url, c.body, c.headers);
    if wire.None? {
      return Done(Err(Net(BadHeader))), history;
    }
    var a;
    a, history := SendOneHopStreaming(w, m, s, Request(c.verb, c.url, wire.value, c.body), history);
    if a.NoHead? {
      return Done(Err(Net(a.error))), history;
    }
    history := StoreCookies(s, c.url, a.headers, history);
    if !IsRedirect(a.status) {
      return Done(Ok(Response(a.status, a.headers, c.url, a.data))), history;
    }
    if s.redirects.NoRedirects? {
      return Done(Ok(Response(a.status, a.headers, c.url, a.data))), history;
    }
    if c.hop >= s.redirects.max {
      return Done(Err(TooManyRedirects(s.redirects.max))), history;
    }
    if a.broken.Some? {
      return Done(Err(Net(a.broken.value))), history;
    }
    var next := NextHop(w, s, c, a.status, a.headers);
    turn := if next.Ok? then Next(next.value) else Done(Err(next.error));
  }

  /** `send_with_redirects_streaming`. */
  method SendWithRedirectsStreaming(w: World, m: Machine, s: Settings, request: Request, h: History)
    returns (result: Result<Response, Error>, history: History)
    ensures (result, history) == Streaming(w, m, s, Start(request), h)
  {
    var c := Start(request);
    history := h;
    while true
      invariant Streaming(w, m, s, Start(request), h) == Streaming(w, m, s, c, history)
      decreases Left(s, c)
    {
      var turn;
      turn, history := TakeTurnStreaming(w, m, s, c, history);
      match turn {
        case Done(r) => return r, history;
        case Next(next) => c := next;
      }
    }
  }

  function Start(request: Request): Chain {
    Chain(request.verb, request.url, request.headers, request.body, 0)
  }

  // The retry loop

  /** Whether a chain's result asks for another, and the server's wish for the delay. */
  function Verdict(w: World, p: Policy, result: Result<Response, Error>, h: History): (bool, Option<Duration>) {
    match result
    case Ok(r) =>
      var raw := Http.Get(r.headers, "retry-after");
      var parsed := if raw.Some? then w.parseRetryAfter(h, raw.value) else None;
      (RetriesStatus(p, r.status), RetryAfter(p, parsed))
    case Err(e) => (p.retryIoErrors && e == Net(Io), None)
  }

  predicate Retries(w: World, p: Policy, verb: Method, attempt: nat, result: Result<Response, Error>, h: History) {
    Verdict(w, p, result, h).0 && AllowsMethod(p, verb) && attempt < p.maxRetries
  }

  function Pause(w: World, m: Machine, p: Policy, attempt: nat, result: Result<Response, Error>, h: History): Duration {
    Delay(p, attempt, Verdict(w, p, result, h).1, m.draw(h))
  }

  /** The loop of `send_with_retries` from the head of a turn: every chain starts over. */
  function Retrying(w: World, m: Machine, s: Settings, p: Policy, request: Request, attempt: nat, h: History)
    : (Result<Response, Error>, History)
    decreases if attempt < p.maxRetries then p.maxRetries - attempt else 0
  {
    var (result, after) := Buffered(w, m, s, Start(request), h);
    if Retries(w, p, request.verb, attempt, result, after) then
      Retrying(w, m, s, p, request, attempt + 1, after + [Slept(Pause(w, m, p, attempt, result, after))])
    else
      (result, after)
  }

  /** `send_with_retries`. */
  method SendWithRetries(w: World, m: Machine, s: Settings, policy: Option<Policy>, request: Request, h: History)
    returns (result: Result<Response, Error>, history: History)
    ensures (result, history)
         == if policy.Some? then Retrying(w, m, s, policy.value, request, 0, h) else Buffered(w, m, s, Start(request), h)
  {
    if policy.None? {
      result, history := SendWithRedirects(w, m, s, request, h);
      return;
    }
    var p := policy.value;
    var attempt := 0;
    history := h;
    while true
      invariant Retrying(w, m, s, p, request, 0, h) == Retrying(w, m, s, p, request, attempt, history)
      decreases if attempt < p.maxRetries then p.maxRetries - attempt else 0
    {
      result, history := SendWithRedirects(w, m, s, request, history);
      var verdict := Verdict(w, p, result, history);
      if !verdict.0 || !AllowsMethod(p, request.verb) || attempt >= p.maxRetries {
        return;
      }
      history := history + [Slept(Delay(p, attempt, verdict.1, m.draw(history)))];
      attempt := attempt + 1;
    }
  }
}
