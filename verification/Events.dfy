/** What one hop and one turn add to the history. */
module Events {
  import opened Wrappers
  import opened Proxy
  import opened Text
  import opened Routing
  import opened Http
  import opened Client

  function Dials(h: History): nat {
    if h == [] then 0 else Dials(h[..|h| - 1]) + (if h[|h| - 1].Dialed? then 1 else 0)
  }

  function SleptTotal(h: History): nat {
    if h == [] then 0 else SleptTotal(h[..|h| - 1]) + (if h[|h| - 1].Slept? then h[|h| - 1].delay else 0)
  }

  lemma Snoc(h: History, e: Event)
    ensures Requests(h + [e]) == if e.Sent? then Requests(h) + [e.request] else Requests(h)
    ensures Stores(h + [e]) == if e.Stored? then Stores(h) + [e.cookies] else Stores(h)
    ensures Dials(h + [e]) == Dials(h) + (if e.Dialed? then 1 else 0)
    ensures SleptTotal(h + [e]) == SleptTotal(h) + (if e.Slept? then e.delay else 0)
  {
    assert (h + [e])[..|h|] == h;
    assert Requests(h) + [] == Requests(h);
    assert Stores(h) + [] == Stores(h);
  }

  /** A hop's part of the history: at most one dial phase, its own request at most twice. */
  predicate HopEvents(h: History, after: History, request: Request) {
    && Stores(after) == Stores(h) && SleptTotal(after) == SleptTotal(h)
    && Dials(h) <= Dials(after) <= Dials(h) + 1
    && SentAtMostTwice(Requests(h), Requests(after), request)
  }

  predicate SentAtMostTwice(before: seq<Request>, after: seq<Request>, request: Request) {
    after == before || after == before + [request] || after == before + [request] + [request]
  }

  // One hop, whichever of the two

  /** `send_one_hop` reads the whole body, `send_one_hop_streaming` waits for the head only. */
  datatype Delivery = Whole | Streamed

  /** Whether a hop makes do with an answer. */
  predicate Usable(d: Delivery, a: Answer) {
    a.Head? && (d.Whole? ==> a.broken.None?)
  }

  function HeadOf(a: Answer, url: Url): Option<Response> {
    if a.Head? then Some(Response(a.status, a.headers, url, a.data)) else None
  }

  /** The response of a hop, if one arrived. */
  function HopResponse(d: Delivery, w: World, m: Machine, s: Settings, request: Request, h: History): Option<Response> {
    match d
    case Whole =>
      var r := OneHop(w, m, s, request, h).0;
      if r.Ok? then Some(r.value) else None
    case Streamed => HeadOf(OneHopStreaming(w, m, s, request, h).0, request.url)
  }

  function HopEnd(d: Delivery, w: World, m: Machine, s: Settings, request: Request, h: History): History {
    match d
    case Whole => OneHop(w, m, s, request, h).1
    case Streamed => OneHopStreaming(w, m, s, request, h).1
  }

  lemma DialEvents(s: Settings, request: Request, h: History)
    ensures var dialed := AfterDial(s, request, h);
            && Requests(dialed) == Requests(h) && Stores(dialed) == Stores(h)
            && SleptTotal(dialed) == SleptTotal(h) && Dials(dialed) == Dials(h) + 1
  {
    var target := TargetOf(request.url, ActiveProxy(s.proxy, s.bypass, request.url));
    Snoc(h, Dialed(target.connectHost, target.connectPort));
  }

  lemma SentEvents(pooled: bool, request: Request, h: History)
    ensures var sent := h + [Sent(pooled, request)];
            && Requests(sent) == Requests(h) + [request] && Stores(sent) == Stores(h)
            && SleptTotal(sent) == SleptTotal(h) && Dials(sent) == Dials(h)
  {
    Snoc(h, Sent(pooled, request));
  }

  /** Where a hop's history ends: the request went out on a pooled connection, then, if that did
      not do, after a dial phase on a fresh one. */
  function Reused(request: Request, h: History): History {
    h + [Sent(true, request)]
  }

  function Refreshed(m: Machine, s: Settings, request: Request, h: History): History {
    var dialed := AfterDial(s, request, h);
    if m.dials(dialed).None? then dialed + [Sent(false, request)] else dialed
  }

  lemma FreshEnds(w: World, m: Machine, s: Settings, request: Request, h: History)
    ensures var (a, after) := FreshAttempt(w, m, s, request, h);
            && after == Refreshed(m, s, request, h)
            && (if m.dials(AfterDial(s, request, h)).None? then a == w.serve(Requests(after)) else a.NoHead?)
  {
  }

  predicate FreshEvents(sends: bool, h: History, after: History, request: Request) {
    && Stores(after) == Stores(h) && SleptTotal(after) == SleptTotal(h)
    && Dials(after) == Dials(h) + 1
    && Requests(after) == (if sends then Requests(h) + [request] else Requests(h))
  }

  lemma RefreshedEvents(m: Machine, s: Settings, request: Request, h: History)
    ensures FreshEvents(m.dials(AfterDial(s, request, h)).None?, h, Refreshed(m, s, request, h), request)
  {
    DialEvents(s, request, h);
    SentEvents(false, request, AfterDial(s, request, h));
  }

  /** Whether the pooled attempt of a hop settles it, fails it, or is not made. */
  predicate Settled(d: Delivery, w: World, m: Machine, s: Settings, request: Request, h: History) {
    s.pool && m.takes(h) && Usable(d, w.serve(Requests(h) + [request]))
  }

  predicate StaleReuse(d: Delivery, w: World, m: Machine, s: Settings, request: Request, h: History) {
    s.pool && m.takes(h) && !Usable(d, w.serve(Requests(h) + [request]))
  }

  /** Both hops, in one form. */
  lemma HopForm(d: Delivery, w: World, m: Machine, s: Settings, request: Request, h: History)
    ensures HopEnd(d, w, m, s, request, h)
         == if Settled(d, w, m, s, request, h) then Reused(request, h)
            else if StaleReuse(d, w, m, s, request, h) then Refreshed(m, s, request, Reused(request, h))
            else Refreshed(m, s, request, h)
  {
    SentEvents(true, request, h);
    FreshEnds(w, m, s, request, h);
    FreshEnds(w, m, s, request, Reused(request, h));
  }

  /** A hop's part of the history. */
  lemma HopStaysWithin(d: Delivery, w: World, m: Machine, s: Settings, request: Request, h: History)
    ensures HopEvents(h, HopEnd(d, w, m, s, request, h), request)
  {
    HopForm(d, w, m, s, request, h);
    SentEvents(true, request, h);
    RefreshedEvents(m, s, request, Reused(request, h));
    RefreshedEvents(m, s, request, h);
  }

  /** A request goes out twice exactly when a pooled connection failed it and a dial phase then
      gave a fresh one; that is one dial phase. */
  lemma SecondAttemptExactly(d: Delivery, w: World, m: Machine, s: Settings, request: Request, h: History)
    ensures var after := HopEnd(d, w, m, s, request, h);
            && (|Requests(after)| == |Requests(h)| + 2
                <==> && StaleReuse(d, w, m, s, request, h)
                     && m.dials(AfterDial(s, request, Reused(request, h))).None?)
            && (|Requests(after)| == |Requests(h)| + 2 ==> Dials(after) == Dials(h) + 1)
  {
    HopForm(d, w, m, s, request, h);
    SentEvents(true, request, h);
    RefreshedEvents(m, s, request, Reused(request, h));
    RefreshedEvents(m, s, request, h);
  }

  /** A hop that succeeds does so with the peer's answer to the last request on the wire, its own. */
  lemma SuccessIsLastAnswer(d: Delivery, w: World, m: Machine, s: Settings, request: Request, h: History)
    ensures var after := HopEnd(d, w, m, s, request, h);
            var a := w.serve(Requests(after));
            var r := HopResponse(d, w, m, s, request, h);
            r.Some? ==> Usable(d, a) && r == HeadOf(a, request.url) && |Requests(after)| > |Requests(h)|
  {
    SentEvents(true, request, h);
    FreshEnds(w, m, s, request, h);
    FreshEnds(w, m, s, request, Reused(request, h));
    if HopResponse(d, w, m, s, request, h).Some? {
      SuccessWasSent(d, w, m, s, request, h);
    }
  }

  /** A response comes on the pooled connection, or on a fresh one that was dialed. */
  lemma SuccessWasSent(d: Delivery, w: World, m: Machine, s: Settings, request: Request, h: History)
    requires HopResponse(d, w, m, s, request, h).Some?
    ensures |Requests(HopEnd(d, w, m, s, request, h))| > |Requests(h)|
  {
    HopForm(d, w, m, s, request, h);
    SentEvents(true, request, h);
    RefreshedEvents(m, s, request, Reused(request, h));
    RefreshedEvents(m, s, request, h);
    ResponseDialed(d, w, m, s, request, h);
  }

  lemma ResponseDialed(d: Delivery, w: World, m: Machine, s: Settings, request: Request, h: History)
    requires HopResponse(d, w, m, s, request, h).Some?
    ensures (s.pool && m.takes(h)) || m.dials(AfterDial(s, request, h)).None?
  {
  }

  lemma StreamedAnswer(w: World, m: Machine, s: Settings, request: Request, h: History)
    ensures var (a, after) := OneHopStreaming(w, m, s, request, h);
            a.Head? ==> a == w.serve(Requests(after))
  {
    FreshEnds(w, m, s, request, h);
    FreshEnds(w, m, s, request, Reused(request, h));
  }

  /** The error of a hop that got no response. */
  function HopError(d: Delivery, w: World, m: Machine, s: Settings, request: Request, h: History): Option<Error> {
    match d
    case Whole =>
      var r := OneHop(w, m, s, request, h).0;
      if r.Err? then Some(r.error) else None
    case Streamed =>
      var a := OneHopStreaming(w, m, s, request, h).0;
      if a.NoHead? then Some(Net(a.error)) else None
  }

  /** What is wrong with an answer that will not do. */
  function FaultOf(a: Answer): Option<NetError> {
    if a.NoHead? then Some(a.error) else a.broken
  }

  /** A hop that fails does so with the failure of its dial phase, or else with what was wrong with
      the answer to its last request; what failed on a pooled connection is forgotten. */
  lemma FailureIsLastFault(d: Delivery, w: World, m: Machine, s: Settings, request: Request, h: History)
    requires HopResponse(d, w, m, s, request, h).None?
    ensures var from := if s.pool && m.takes(h) then Reused(request, h) else h;
            var dialing := m.dials(AfterDial(s, request, from));
            var fault := if dialing.Some? then dialing else FaultOf(w.serve(Requests(HopEnd(d, w, m, s, request, h))));
            fault.Some? && HopError(d, w, m, s, request, h) == Some(Net(fault.value))
  {
    SentEvents(true, request, h);
    FreshEnds(w, m, s, request, h);
    FreshEnds(w, m, s, request, Reused(request, h));
  }

  /** Requests to the URL go through the proxy: there is one, and no rule is `*` or names the host
      from the start of one of its labels on. */
  ghost predicate Proxied(s: Settings, url: Url) {
    && s.proxy.Some? && "*" !in s.bypass
    && forall i: nat :: LabelStart(Lower(url.host), i) ==> Lower(url.host)[i..] !in s.bypass
  }

  /** A dial phase goes to the proxy's host and port if requests to the URL go through it, and to
      the URL's own otherwise. */
  lemma DialsWhereRouted(s: Settings, request: Request, h: History)
    ensures AfterDial(s, request, h)
         == h + [if Proxied(s, request.url) then Dialed(s.proxy.value.host, s.proxy.value.port)
                 else Dialed(request.url.host, request.url.port)]
  {
    BypassesAtLabels(s.bypass, request.url.host);
  }

  /** What a response adds to the jar. */
  function Cookies(s: Settings, url: Url, headers: Headers): seq<CookieStore> {
    var values := All(headers, "set-cookie");
    if s.cookieJar && values != [] then [CookieStore(url, values)] else []
  }

  lemma StoreStaysWithin(s: Settings, url: Url, headers: Headers, h: History)
    ensures var after := StoreCookies(s, url, headers, h);
            && Requests(after) == Requests(h) && Dials(after) == Dials(h) && SleptTotal(after) == SleptTotal(h)
            && Stores(after) == Stores(h) + Cookies(s, url, headers)
  {
    assert Stores(h) + [] == Stores(h);
    Snoc(h, Stored(CookieStore(url, All(headers, "set-cookie"))));
  }

  /** A turn's part of the history. */
  predicate TurnEvents(h: History, after: History, made: Option<Request>) {
    && SleptTotal(after) == SleptTotal(h)
    && Dials(after) <= Dials(h) + 1
    && if made.Some? then
         SentAtMostTwice(Requests(h), Requests(after), made.value)
       else
         Requests(after) == Requests(h)
  }

  function Made(w: World, s: Settings, c: Chain, h: History): Option<Request> {
    var made := HopRequest(w, s, c, h);
    if made.Ok? then Some(made.value) else None
  }

  /** A turn of the loop that uses that hop. */
  function TurnOf(d: Delivery, w: World, m: Machine, s: Settings, c: Chain, h: History): (Turn, History) {
    match d
    case Whole => BufferedTurn(w, m, s, c, h)
    case Streamed => StreamingTurn(w, m, s, c, h)
  }

  lemma NextIsNearer(d: Delivery, w: World, m: Machine, s: Settings, c: Chain, h: History)
    requires TurnOf(d, w, m, s, c, h).0.Next?
    ensures Left(s, TurnOf(d, w, m, s, c, h).0.chain) < Left(s, c)
  {
  }

  /** The loop. */
  function Following(d: Delivery, w: World, m: Machine, s: Settings, c: Chain, h: History): (Result<Response, Error>, History) {
    match d
    case Whole => Buffered(w, m, s, c, h)
    case Streamed => Streaming(w, m, s, c, h)
  }

  /** What either loop does when called on a request. */
  function Sending(d: Delivery, w: World, m: Machine, s: Settings, request: Request, h: History)
    : (Result<Response, Error>, History)
  {
    Following(d, w, m, s, Start(request), h)
  }

  function Received(d: Delivery, w: World, m: Machine, s: Settings, made: Option<Request>, h: History): Option<Response> {
    if made.None? then None else HopResponse(d, w, m, s, made.value, h)
  }

  /** The history at the end of a turn. */
  lemma TurnForm(d: Delivery, w: World, m: Machine, s: Settings, c: Chain, h: History)
    ensures var made := Made(w, s, c, h);
            var response := Received(d, w, m, s, made, h);
            var end := if made.None? then h else HopEnd(d, w, m, s, made.value, h);
            TurnOf(d, w, m, s, c, h).1
            == if response.Some? then StoreCookies(s, c.url, response.value.headers, end) else end
  {
  }

  lemma TurnStaysWithin(d: Delivery, w: World, m: Machine, s: Settings, c: Chain, h: History)
    ensures TurnEvents(h, TurnOf(d, w, m, s, c, h).1, Made(w, s, c, h))
  {
    var made := Made(w, s, c, h);
    TurnForm(d, w, m, s, c, h);
    if made.Some? {
      HopStaysWithin(d, w, m, s, made.value, h);
      var response := Received(d, w, m, s, made, h);
      if response.Some? {
        StoreStaysWithin(s, c.url, response.value.headers, HopEnd(d, w, m, s, made.value, h));
      }
    }
  }

  /** The response is the peer's answer to the last request on the wire, and its cookies, and
      nothing else, were stored. */
  predicate TurnAnswer(
    d: Delivery, w: World, s: Settings, url: Url, h: History, after: History, response: Option<Response>)
  {
    match response
    case None => Stores(after) == Stores(h)
    case Some(r) =>
      && |Requests(after)| > |Requests(h)|
      && Usable(d, w.serve(Requests(after))) && HeadOf(w.serve(Requests(after)), url) == Some(r)
      && Stores(after) == Stores(h) + Cookies(s, url, r.headers)
  }

  lemma TurnAnswers(d: Delivery, w: World, m: Machine, s: Settings, c: Chain, h: History)
    ensures TurnAnswer(d, w, s, c.url, h, TurnOf(d, w, m, s, c, h).1, Received(d, w, m, s, Made(w, s, c, h), h))
  {
    var made := Made(w, s, c, h);
    TurnForm(d, w, m, s, c, h);
    if made.Some? {
      MadeFor(w, s, c, h);
      HopStaysWithin(d, w, m, s, made.value, h);
      SuccessIsLastAnswer(d, w, m, s, made.value, h);
      var response := Received(d, w, m, s, made, h);
      if response.Some? {
        StoreStaysWithin(s, c.url, response.value.headers, HopEnd(d, w, m, s, made.value, h));
      }
    }
  }

  /** The request carries the loop's variables. */
  lemma MadeFor(w: World, s: Settings, c: Chain, h: History)
    ensures var made := HopRequest(w, s, c, h);
            made.Ok? ==> made.value.url == c.url && made.value.verb == c.verb && made.value.body == c.body
  {
  }
}
