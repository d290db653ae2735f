/** The streaming redirect loop against the buffered one. */
module StreamingLaws {
  import opened Wrappers
  import opened Proxy
  import opened Routing
  import opened Http
  import opened Client
  import opened Events

  ghost predicate NeverFails(w: World) {
    forall rs: seq<Request> :: w.serve(rs).Head? && w.serve(rs).broken.None?
  }

  ghost predicate AlwaysDials(m: Machine) {
    forall h: History :: m.dials(h).None?
  }

  /** The same traffic so far, whatever connections carried it. */
  predicate SameTraffic(a: History, b: History) {
    Requests(a) == Requests(b) && Stores(a) == Stores(b)
  }

  /** One more request than before, and nothing stored. */
  predicate SentOne(h: History, after: History, request: Request) {
    Requests(after) == Requests(h) + [request] && Stores(after) == Stores(h)
  }

  lemma FreshOk(w: World, m: Machine, s: Settings, request: Request, h: History)
    requires AlwaysDials(m)
    ensures var (a, after) := FreshAttempt(w, m, s, request, h);
            a == w.serve(Requests(h) + [request]) && SentOne(h, after, request)
  {
    var target := TargetOf(request.url, ActiveProxy(s.proxy, s.bypass, request.url));
    var dial := Dialed(target.connectHost, target.connectPort);
    var dialed := h + [dial];
    Snoc(h, dial);
    assert m.dials(dialed).None?;
    Snoc(dialed, Sent(false, request));
  }

  /** Where nothing fails, a hop is one request, on whatever connection. */
  lemma BufferedHopOk(w: World, m: Machine, s: Settings, request: Request, h: History)
    requires NeverFails(w) && AlwaysDials(m)
    ensures var (r, after) := OneHop(w, m, s, request, h);
            && r == ResponseOf(w.serve(Requests(h) + [request]), request.url) && r.Ok?
            && SentOne(h, after, request)
  {
    Snoc(h, Sent(true, request));
    FreshOk(w, m, s, request, h);
    assert w.serve(Requests(h) + [request]).broken.None?;
  }

  lemma StreamingHopOk(w: World, m: Machine, s: Settings, request: Request, h: History)
    requires NeverFails(w) && AlwaysDials(m)
    ensures var (a, after) := OneHopStreaming(w, m, s, request, h);
            && a == w.serve(Requests(h) + [request]) && a.Head? && a.broken.None?
            && SentOne(h, after, request)
  {
    Snoc(h, Sent(true, request));
    FreshOk(w, m, s, request, h);
    assert w.serve(Requests(h) + [request]).broken.None?;
  }

  lemma SameStores(s: Settings, url: Url, headers: Headers, a: History, b: History)
    requires SameTraffic(a, b)
    ensures SameTraffic(StoreCookies(s, url, headers, a), StoreCookies(s, url, headers, b))
  {
    Snoc(a, Stored(CookieStore(url, All(headers, "set-cookie"))));
    Snoc(b, Stored(CookieStore(url, All(headers, "set-cookie"))));
  }

  lemma DecideAlike(w: World, s: Settings, c: Chain, r: Response)
    ensures DecideStreaming(w, s, c, r, None) == Decide(w, s, c, r)
  {
  }

  lemma SameRequest(w: World, s: Settings, c: Chain, a: History, b: History)
    requires SameTraffic(a, b)
    ensures HopRequest(w, s, c, a) == HopRequest(w, s, c, b)
  {
  }

  lemma RequestUrl(w: World, s: Settings, c: Chain, h: History)
    ensures var made := HopRequest(w, s, c, h); made.Ok? ==> made.value.url == c.url
  {
  }

  lemma TurnsAgree(w: World, m: Machine, n: Machine, s: Settings, c: Chain, a: History, b: History)
    requires NeverFails(w) && AlwaysDials(m) && AlwaysDials(n) && SameTraffic(a, b)
    ensures BufferedTurn(w, m, s, c, a).0 == StreamingTurn(w, n, s, c, b).0
    ensures SameTraffic(BufferedTurn(w, m, s, c, a).1, StreamingTurn(w, n, s, c, b).1)
  {
    SameRequest(w, s, c, a, b);
    RequestUrl(w, s, c, a);
    var made := HopRequest(w, s, c, a);
    if made.Ok? {
      BufferedHopOk(w, m, s, made.value, a);
      StreamingHopOk(w, n, s, made.value, b);
      var (r, afterA) := OneHop(w, m, s, made.value, a);
      var (answer, afterB) := OneHopStreaming(w, n, s, made.value, b);
      SameStores(s, c.url, answer.headers, afterA, afterB);
      DecideAlike(w, s, c, r.value);
    }
  }

  /** Chains that end alike from the next turns on end alike from these. */
  lemma GoOnAlike(
      w: World, m: Machine, n: Machine, s: Settings, c: Chain, a: History, b: History, next: Chain, afterA: History,
      afterB: History)
    requires BufferedTurn(w, m, s, c, a) == (Next(next), afterA)
    requires StreamingTurn(w, n, s, c, b) == (Next(next), afterB)
    ensures Buffered(w, m, s, c, a) == Buffered(w, m, s, next, afterA)
    ensures Streaming(w, n, s, c, b) == Streaming(w, n, s, next, afterB)
  {
  }

  lemma EndAlike(
      w: World, m: Machine, n: Machine, s: Settings, c: Chain, a: History, b: History, result: Result<Response, Error>,
      afterA: History, afterB: History)
    requires BufferedTurn(w, m, s, c, a) == (Done(result), afterA)
    requires StreamingTurn(w, n, s, c, b) == (Done(result), afterB)
    ensures Buffered(w, m, s, c, a) == (result, afterA)
    ensures Streaming(w, n, s, c, b) == (result, afterB)
  {
  }

  predicate SameEnd(x: (Result<Response, Error>, History), y: (Result<Response, Error>, History)) {
    x.0 == y.0 && SameTraffic(x.1, y.1)
  }

  /** When nothing fails, both loops send the same requests, store the same cookies in the same
      order and end alike, even if the pool and the dialer behave differently under them. */
  lemma {:induction false} StreamingSimulatesBuffered(
      w: World, m: Machine, n: Machine, s: Settings, c: Chain, a: History, b: History)
    requires NeverFails(w) && AlwaysDials(m) && AlwaysDials(n) && SameTraffic(a, b)
    ensures SameEnd(Buffered(w, m, s, c, a), Streaming(w, n, s, c, b))
    decreases Left(s, c)
  {
    TurnsAgree(w, m, n, s, c, a, b);
    var (turn, afterA) := BufferedTurn(w, m, s, c, a);
    var afterB := StreamingTurn(w, n, s, c, b).1;
    match turn
    case Done(result) =>
      EndAlike(w, m, n, s, c, a, b, result, afterA, afterB);
    case Next(next) =>
      NextIsNearer(Whole, w, m, s, c, a);
      StreamingSimulatesBuffered(w, m, n, s, next, afterA, afterB);
      GoOnAlike(w, m, n, s, c, a, b, next, afterA, afterB);
  }

  /** The body of the answer a turn gets without a pool, if any, does not break off. */
  predicate Unbroken(w: World, m: Machine, s: Settings, c: Chain, h: History) {
    var made := HopRequest(w, s, c, h);
    made.Ok? ==>
      var a := FreshAttempt(w, m, s, made.value, h).0;
      a.Head? ==> a.broken.None?
  }

  lemma SameTurnWithoutPool(w: World, m: Machine, s: Settings, c: Chain, h: History)
    requires !s.pool && Unbroken(w, m, s, c, h)
    ensures StreamingTurn(w, m, s, c, h) == BufferedTurn(w, m, s, c, h)
  {
    RequestUrl(w, s, c, h);
    var made := HopRequest(w, s, c, h);
    if made.Ok? {
      var a := FreshAttempt(w, m, s, made.value, h).0;
      if a.Head? {
        DecideAlike(w, s, c, Response(a.status, a.headers, c.url, a.data));
      }
    }
  }

  /** Without a pool, dialing and heads may fail too: only a body that breaks off tells them apart. */
  lemma {:induction false} StreamingIsBufferedWithoutPool(w: World, m: Machine, s: Settings, c: Chain, h: History)
    requires !s.pool
    requires forall rs: seq<Request> :: w.serve(rs).Head? ==> w.serve(rs).broken.None?
    ensures Streaming(w, m, s, c, h) == Buffered(w, m, s, c, h)
    decreases Left(s, c)
  {
    AnswerUnbroken(w, m, s, c, h);
    SameTurnWithoutPool(w, m, s, c, h);
    var (turn, after) := BufferedTurn(w, m, s, c, h);
    if turn.Next? {
      StreamingIsBufferedWithoutPool(w, m, s, turn.chain, after);
    }
  }

  lemma AnswerUnbroken(w: World, m: Machine, s: Settings, c: Chain, h: History)
    requires forall rs: seq<Request> :: w.serve(rs).Head? ==> w.serve(rs).broken.None?
    ensures Unbroken(w, m, s, c, h)
  {
  }

  lemma WentOnUnbroken(w: World, m: Machine, s: Settings, c: Chain, h: History)
    requires !s.pool
    requires var turn := BufferedTurn(w, m, s, c, h).0; turn.Next? || turn.result.Ok?
    ensures Unbroken(w, m, s, c, h)
  {
  }

  /** Whatever server and dialer do, a chain that succeeds buffered succeeds streaming with the
      same response and the same history. */
  lemma {:induction false} StreamingSucceedsToo(w: World, m: Machine, s: Settings, c: Chain, h: History)
    requires !s.pool && Buffered(w, m, s, c, h).0.Ok?
    ensures Streaming(w, m, s, c, h) == Buffered(w, m, s, c, h)
    decreases Left(s, c)
  {
    WentOnUnbroken(w, m, s, c, h);
    SameTurnWithoutPool(w, m, s, c, h);
    var (turn, after) := BufferedTurn(w, m, s, c, h);
    if turn.Next? {
      StreamingSucceedsToo(w, m, s, turn.chain, after);
    }
  }
}
