/** Laws of whole redirect chains, for the buffered and the streaming loop alike: nothing is assumed
    of the server, the dialer or the pool. */
module RedirectLaws {
  import opened Wrappers
  import opened Sequences
  import opened Text
  import opened Proxy
  import opened Retry
  import opened Http
  import opened Client
  import opened Events
  import opened WireLaws

  // The turns of a chain

  /** A turn: the loop's variables and the history at its head, the request it made, the response
      it received, and what came of it. */
  datatype Visit = Visit(
    chain: Chain, before: History, made: Option<Request>, response: Option<Response>, turn: Turn, after: History)

  function VisitOf(d: Delivery, w: World, m: Machine, s: Settings, c: Chain, h: History): Visit {
    var (turn, after) := TurnOf(d, w, m, s, c, h);
    var made := Made(w, s, c, h);
    Visit(c, h, made, Received(d, w, m, s, made, h), turn, after)
  }

  /** The turns of either loop, first to last. */
  function Trail(d: Delivery, w: World, m: Machine, s: Settings, c: Chain, h: History): (t: seq<Visit>)
    decreases Left(s, c)
  {
    var (turn, after) := TurnOf(d, w, m, s, c, h);
    [VisitOf(d, w, m, s, c, h)] +
    (if turn.Next? then NextIsNearer(d, w, m, s, c, h); Trail(d, w, m, s, turn.chain, after) else [])
  }

  predicate RedirectReceived(v: Visit) {
    v.response.Some? && v.response.value.status in {301, 302, 303, 307, 308}
  }

  /** A `Location` leads from one URL to the next. */
  predicate Leads(w: World, url: Url, location: Option<string>, next: Url) {
    location.Some? && w.resolve(url, location.value) == Some(next)
  }

  /** The same host, in any case, and the same port. */
  predicate AtHome(url: Url, home: Url) {
    Lower(url.host) == Lower(home.host) && url.port == home.port
  }

  /** How a turn leads to the next one. */
  predicate Link(w: World, s: Settings, a: Visit, b: Visit) {
    && RedirectReceived(a)
    && Leads(w, a.chain.url, Http.Get(a.response.value.headers, "location"), b.chain.url)
    && s.redirects.Follow? && a.chain.hop < s.redirects.max && b.chain.hop == a.chain.hop + 1
    && (b.chain.verb, b.chain.body) == AfterRedirect(a.response.value.status, a.chain.verb, a.chain.body)
    && b.chain.headers
       == (if AtHome(b.chain.url, a.chain.url) then a.chain.headers else Remove(a.chain.headers, "Authorization"))
    && b.before == a.after
  }

  /** When a turn reports too many redirects. */
  predicate Fails(s: Settings, v: Visit, max: nat) {
    v.turn == Done(Err(TooManyRedirects(max)))
    <==> s.redirects == Follow(max) && RedirectReceived(v) && v.chain.hop >= max
  }

  /** When a turn returns a response. */
  predicate Succeeds(s: Settings, v: Visit, r: Response) {
    v.turn == Done(Ok(r)) <==> v.response == Some(r) && (r.status !in {301, 302, 303, 307, 308} || s.redirects.NoRedirects?)
  }

  /** A turn's request is the loop's variables with the wire headers; what the turn adds to the
      history is that request's and its response's. */
  predicate WellMade(d: Delivery, w: World, s: Settings, v: Visit) {
    && v.made == Made(w, s, v.chain, v.before)
    && TurnEvents(v.before, v.after, v.made)
    && TurnAnswer(d, w, s, v.chain.url, v.before, v.after, v.response)
  }

  ghost predicate Linked(d: Delivery, w: World, s: Settings, c: Chain, h: History, t: seq<Visit>) {
    && t != [] && t[0].chain == c && t[0].before == h
    && (forall i :: 0 < i < |t| ==> Link(w, s, t[i - 1], t[i]))
    && (forall i :: 0 <= i < |t| ==> WellMade(d, w, s, t[i]))
  }

  ghost predicate EndsWith(s: Settings, last: Visit, result: Result<Response, Error>, after: History) {
    && last.turn == Done(result) && last.after == after
    && (forall max: nat :: Fails(s, last, max))
    && (forall r: Response :: Succeeds(s, last, r))
  }

  /** The result of a turn that ends the loop, case by case. */
  function EndOf(d: Delivery, w: World, m: Machine, s: Settings, v: Visit): Result<Response, Error> {
    if v.made.None? then
      if v.chain.url.scheme == "http" || v.chain.url.scheme == "https" then Err(Net(BadHeader))
      else Err(UnsupportedScheme(v.chain.url.scheme))
    else if v.response.None? then
      var error := HopError(d, w, m, s, v.made.value, v.before);
      if error.Some? then Err(error.value) else Err(Net(Io))
    else
      var r := v.response.value;
      var broken := FaultOf(w.serve(Requests(v.after)));
      if r.status !in {301, 302, 303, 307, 308} || s.redirects.NoRedirects? then Ok(r)
      else if v.chain.hop >= s.redirects.max then Err(TooManyRedirects(s.redirects.max))
      else if broken.Some? then Err(Net(broken.value))
      else if Http.Get(r.headers, "location").None? then Err(NoLocation(r.status))
      else Err(InvalidUrl)
  }

  /** A turn hands over exactly when a whole redirect response below the cap leads somewhere. */
  predicate HandsOver(w: World, s: Settings, v: Visit) {
    && RedirectReceived(v) && s.redirects.Follow? && v.chain.hop < s.redirects.max
    && FaultOf(w.serve(Requests(v.after))).None?
    && var location := Http.Get(v.response.value.headers, "location");
       location.Some? && w.resolve(v.chain.url, location.value).Some?
  }

  lemma NothingReceived(d: Delivery, w: World, m: Machine, s: Settings, c: Chain, h: History)
    requires Received(d, w, m, s, Made(w, s, c, h), h).None?
    ensures TurnOf(d, w, m, s, c, h).0 == Done(EndOf(d, w, m, s, VisitOf(d, w, m, s, c, h)))
    ensures var end := EndOf(d, w, m, s, VisitOf(d, w, m, s, c, h)); end.Err? && !end.error.TooManyRedirects?
  {
    MadeExactly(w, s, c, h);
    var made := HopRequest(w, s, c, h);
    if made.Ok? {
      NetErrors(w, m, s, made.value, h);
    }
  }

  lemma NetErrors(w: World, m: Machine, s: Settings, request: Request, h: History)
    ensures var r := OneHop(w, m, s, request, h).0; r.Err? ==> r.error.Net?
  {
  }

  /** The decision of either loop about a response that has arrived. */
  lemma SomethingReceived(d: Delivery, w: World, m: Machine, s: Settings, c: Chain, h: History)
    requires Received(d, w, m, s, Made(w, s, c, h), h).Some?
    ensures var r := Received(d, w, m, s, Made(w, s, c, h), h).value;
            var (turn, after) := TurnOf(d, w, m, s, c, h);
            && turn == DecideStreaming(w, s, c, r, FaultOf(w.serve(Requests(after))))
            && r == Response(r.status, r.headers, c.url, r.data)
  {
    MadeFor(w, s, c, h);
    var request := HopRequest(w, s, c, h).value;
    var response := HopResponse(d, w, m, s, request, h).value;
    TurnForm(d, w, m, s, c, h);
    SuccessIsLastAnswer(d, w, m, s, request, h);
    StoreStaysWithin(s, c.url, response.headers, HopEnd(d, w, m, s, request, h));
    match d
    case Whole => WholeDecides(w, s, c, response);
    case Streamed => StreamedAnswer(w, m, s, request, h);
  }

  lemma WholeDecides(w: World, s: Settings, c: Chain, r: Response)
    ensures Decide(w, s, c, r) == DecideStreaming(w, s, c, r, None)
  {
  }

  lemma VisitEnds(d: Delivery, w: World, m: Machine, s: Settings, c: Chain, h: History)
    ensures var v := VisitOf(d, w, m, s, c, h);
            if HandsOver(w, s, v) then v.turn.Next? else v.turn == Done(EndOf(d, w, m, s, v))
  {
    var v := VisitOf(d, w, m, s, c, h);
    if Received(d, w, m, s, Made(w, s, c, h), h).Some? {
      SomethingReceived(d, w, m, s, c, h);
      DecisionEnds(d, w, m, s, v);
    } else {
      NothingReceived(d, w, m, s, c, h);
      assert !HandsOver(w, s, v);
    }
  }

  lemma DecisionEnds(d: Delivery, w: World, m: Machine, s: Settings, v: Visit)
    requires v.made.Some? && v.response.Some?
    requires v.response.value.url == v.chain.url
    requires v.turn == DecideStreaming(w, s, v.chain, v.response.value, FaultOf(w.serve(Requests(v.after))))
    ensures if HandsOver(w, s, v) then v.turn.Next? else v.turn == Done(EndOf(d, w, m, s, v))
  {
  }

  lemma EndFails(d: Delivery, w: World, m: Machine, s: Settings, c: Chain, h: History, max: nat)
    ensures Fails(s, VisitOf(d, w, m, s, c, h), max)
  {
    VisitEnds(d, w, m, s, c, h);
    if Received(d, w, m, s, Made(w, s, c, h), h).None? {
      NothingReceived(d, w, m, s, c, h);
    }
  }

  lemma EndSucceeds(d: Delivery, w: World, m: Machine, s: Settings, c: Chain, h: History, r: Response)
    ensures Succeeds(s, VisitOf(d, w, m, s, c, h), r)
  {
    VisitEnds(d, w, m, s, c, h);
    if Received(d, w, m, s, Made(w, s, c, h), h).None? {
      NothingReceived(d, w, m, s, c, h);
    }
  }

  lemma VisitLinks(d: Delivery, w: World, m: Machine, s: Settings, c: Chain, h: History, b: Visit)
    requires var (turn, after) := TurnOf(d, w, m, s, c, h); turn.Next? && b.chain == turn.chain && b.before == after
    ensures Link(w, s, VisitOf(d, w, m, s, c, h), b)
  {
    if Received(d, w, m, s, Made(w, s, c, h), h).Some? {
      SomethingReceived(d, w, m, s, c, h);
    } else {
      NothingReceived(d, w, m, s, c, h);
    }
  }

  lemma {:induction false} LinkedCons(d: Delivery, w: World, s: Settings, c: Chain, h: History, v: Visit, next: Chain, after: History, rest: seq<Visit>)
    requires v.chain == c && v.before == h && WellMade(d, w, s, v)
    requires Linked(d, w, s, next, after, rest) && Link(w, s, v, rest[0])
    ensures Linked(d, w, s, c, h, [v] + rest)
  {
    var t := [v] + rest;
    forall i | 0 < i < |t| ensures Link(w, s, t[i - 1], t[i]) {
      if i > 1 {
        assert Link(w, s, rest[i - 2], rest[i - 1]);
      }
    }
    forall i | 0 <= i < |t| ensures WellMade(d, w, s, t[i]) {
      if i > 0 {
        assert WellMade(d, w, s, rest[i - 1]);
      }
    }
  }

  lemma WellMadeVisit(d: Delivery, w: World, m: Machine, s: Settings, c: Chain, h: History)
    ensures WellMade(d, w, s, VisitOf(d, w, m, s, c, h))
  {
    TurnStaysWithin(d, w, m, s, c, h);
    TurnAnswers(d, w, m, s, c, h);
  }

  lemma LastVisit(d: Delivery, w: World, m: Machine, s: Settings, c: Chain, h: History)
    requires TurnOf(d, w, m, s, c, h).0.Done?
    ensures var (turn, after) := TurnOf(d, w, m, s, c, h); EndsWith(s, VisitOf(d, w, m, s, c, h), turn.result, after)
  {
    var v := VisitOf(d, w, m, s, c, h);
    forall max: nat ensures Fails(s, v, max) {
      EndFails(d, w, m, s, c, h, max);
    }
    forall r: Response ensures Succeeds(s, v, r) {
      EndSucceeds(d, w, m, s, c, h, r);
    }
  }

  /** A whole chain: linked turns, the last of which gives its result. */
  ghost predicate IsTrail(d: Delivery, w: World, s: Settings, c: Chain, h: History, t: seq<Visit>, end: (Result<Response, Error>, History)) {
    Linked(d, w, s, c, h, t) && EndsWith(s, t[|t| - 1], end.0, end.1)
  }

  lemma TrailOne(d: Delivery, w: World, s: Settings, v: Visit, end: (Result<Response, Error>, History))
    requires WellMade(d, w, s, v) && EndsWith(s, v, end.0, end.1)
    ensures IsTrail(d, w, s, v.chain, v.before, [v], end)
  {
  }

  lemma TrailCons(d: Delivery, w: World, s: Settings, v: Visit, rest: seq<Visit>, end: (Result<Response, Error>, History))
    requires WellMade(d, w, s, v) && v.turn.Next?
    requires IsTrail(d, w, s, v.turn.chain, v.after, rest, end) && Link(w, s, v, rest[0])
    ensures IsTrail(d, w, s, v.chain, v.before, [v] + rest, end)
  {
    LinkedCons(d, w, s, v.chain, v.before, v, v.turn.chain, v.after, rest);
    var t := [v] + rest;
    assert t[|t| - 1] == rest[|rest| - 1];
  }

  lemma Unfold(d: Delivery, w: World, m: Machine, s: Settings, c: Chain, h: History)
    ensures var v := VisitOf(d, w, m, s, c, h);
            if v.turn.Next? then
              && Trail(d, w, m, s, c, h) == [v] + Trail(d, w, m, s, v.turn.chain, v.after)
              && Following(d, w, m, s, c, h) == Following(d, w, m, s, v.turn.chain, v.after)
            else
              && Trail(d, w, m, s, c, h) == [v]
              && Following(d, w, m, s, c, h) == (v.turn.result, v.after)
  {
    assert [VisitOf(d, w, m, s, c, h)] + [] == [VisitOf(d, w, m, s, c, h)];
  }

  lemma TrailEnds(d: Delivery, w: World, m: Machine, s: Settings, c: Chain, h: History)
    requires VisitOf(d, w, m, s, c, h).turn.Done?
    ensures IsTrail(d, w, s, c, h, Trail(d, w, m, s, c, h), Following(d, w, m, s, c, h))
  {
    Unfold(d, w, m, s, c, h);
    WellMadeVisit(d, w, m, s, c, h);
    LastVisit(d, w, m, s, c, h);
    TrailOne(d, w, s, VisitOf(d, w, m, s, c, h), Following(d, w, m, s, c, h));
  }

  lemma TrailGoesOn(
      d: Delivery, w: World, m: Machine, s: Settings, c: Chain, h: History, v: Visit, rest: seq<Visit>,
      end: (Result<Response, Error>, History))
    requires v == VisitOf(d, w, m, s, c, h) && v.turn.Next?
    requires IsTrail(d, w, s, v.turn.chain, v.after, rest, end)
    ensures IsTrail(d, w, s, c, h, [v] + rest, end)
  {
    WellMadeVisit(d, w, m, s, c, h);
    VisitLinks(d, w, m, s, c, h, rest[0]);
    TrailCons(d, w, s, v, rest, end);
  }

  /** The trail accounts for the whole chain. */
  lemma {:induction false} TrailOfChain(d: Delivery, w: World, m: Machine, s: Settings, c: Chain, h: History)
    ensures IsTrail(d, w, s, c, h, Trail(d, w, m, s, c, h), Following(d, w, m, s, c, h))
    decreases Left(s, c)
  {
    var v := VisitOf(d, w, m, s, c, h);
    match v.turn
    case Done(_) =>
      TrailEnds(d, w, m, s, c, h);
    case Next(next) =>
      NextIsNearer(d, w, m, s, c, h);
      TrailOfChain(d, w, m, s, next, v.after);
      TrailGoesOn(d, w, m, s, c, h, v, Trail(d, w, m, s, next, v.after), Following(d, w, m, s, next, v.after));
      Unfold(d, w, m, s, c, h);
  }

  /** A chain goes on exactly while its turns hand over, and ends with what its last turn comes to. */
  lemma {:induction false} EndOfChain(d: Delivery, w: World, m: Machine, s: Settings, c: Chain, h: History)
    ensures var t := Trail(d, w, m, s, c, h);
            && t != []
            && Following(d, w, m, s, c, h).0 == EndOf(d, w, m, s, t[|t| - 1])
            && forall i :: 0 <= i < |t| ==> (HandsOver(w, s, t[i]) <==> i < |t| - 1)
    decreases Left(s, c)
  {
    var v := VisitOf(d, w, m, s, c, h);
    Unfold(d, w, m, s, c, h);
    VisitEnds(d, w, m, s, c, h);
    match v.turn
    case Done(_) =>
    case Next(next) =>
      NextIsNearer(d, w, m, s, c, h);
      EndOfChain(d, w, m, s, next, v.after);
      HandedOn(w, s, v, Trail(d, w, m, s, next, v.after));
  }

  lemma HandedOn(w: World, s: Settings, v: Visit, rest: seq<Visit>)
    requires rest != [] && HandsOver(w, s, v)
    requires forall i :: 0 <= i < |rest| ==> (HandsOver(w, s, rest[i]) <==> i < |rest| - 1)
    ensures var t := [v] + rest;
            && t[|t| - 1] == rest[|rest| - 1]
            && forall i :: 0 <= i < |t| ==> (HandsOver(w, s, t[i]) <==> i < |t| - 1)
  {
    var t := [v] + rest;
    forall i | 0 <= i < |t| ensures HandsOver(w, s, t[i]) <==> i < |t| - 1 {
      if i > 0 {
        assert t[i] == rest[i - 1];
      }
    }
  }

  // Authorization

  predicate StaysHome(t: seq<Visit>, k: nat)
    requires k < |t|
  {
    forall j :: 0 <= j <= k ==>
      Lower(t[j].chain.url.host) == Lower(t[0].chain.url.host) && t[j].chain.url.port == t[0].chain.url.port
  }

  lemma {:induction false} LinkedHeaders(d: Delivery, w: World, s: Settings, c: Chain, h: History, t: seq<Visit>, k: nat)
    requires Linked(d, w, s, c, h, t) && k < |t|
    ensures t[k].chain.headers == if StaysHome(t, k) then c.headers else Remove(c.headers, "Authorization")
  {
    if k > 0 {
      LinkedHeaders(d, w, s, c, h, t, k - 1);
      assert Link(w, s, t[k - 1], t[k]);
      RemoveTwice(c.headers, "Authorization");
      if StaysHome(t, k) {
        assert AtHome(t[k].chain.url, t[0].chain.url) && AtHome(t[k - 1].chain.url, t[0].chain.url);
      }
    }
  }

  /** The loop's headers are the caller's, or the caller's without Authorization; the former exactly
      while every hop so far has the first hop's host and port. */
  lemma HeadersOfTrail(d: Delivery, w: World, m: Machine, s: Settings, c: Chain, h: History, k: nat)
    requires k < |Trail(d, w, m, s, c, h)|
    ensures var t := Trail(d, w, m, s, c, h);
            t[k].chain.headers == if StaysHome(t, k) then c.headers else Remove(c.headers, "Authorization")
  {
    TrailOfChain(d, w, m, s, c, h);
    LinkedHeaders(d, w, s, c, h, Trail(d, w, m, s, c, h), k);
  }

  lemma LowerAuthorization()
    ensures Lower("Authorization") == "authorization"
  {
    LowerNames();
  }

  lemma WireAuthorization(w: World, s: Settings, c: Chain, h: History)
    requires Made(w, s, c, h).Some?
    ensures Http.Get(Made(w, s, c, h).value.headers, "Authorization") == Http.Get(c.headers, "Authorization")
    ensures Made(w, s, c, h).value.url == c.url
  {
    LowerAuthorization();
    MadeFields(w, s, c, h, "Authorization");
    GetIsFirst(c.headers, "Authorization");
    MadeExactly(w, s, c, h);
  }

  /** On the wire, a hop carries the caller's Authorization exactly while the chain has not left
      the first hop's host and port; once it has, never again. */
  lemma AuthorizationOnWire(d: Delivery, w: World, m: Machine, s: Settings, c: Chain, h: History, k: nat)
    requires var t := Trail(d, w, m, s, c, h); k < |t| && t[k].made.Some?
    ensures var t := Trail(d, w, m, s, c, h);
            Http.Get(t[k].made.value.headers, "Authorization")
            == (if StaysHome(t, k) then Http.Get(c.headers, "Authorization") else None)
  {
    TrailOfChain(d, w, m, s, c, h);
    LinkedAuthorization(d, w, s, c, h, Trail(d, w, m, s, c, h), k);
  }

  lemma LinkedAuthorization(d: Delivery, w: World, s: Settings, c: Chain, h: History, t: seq<Visit>, k: nat)
    requires Linked(d, w, s, c, h, t) && k < |t| && t[k].made.Some?
    ensures Http.Get(t[k].made.value.headers, "Authorization")
         == (if StaysHome(t, k) then Http.Get(c.headers, "Authorization") else None)
    ensures t[k].made.value.url == t[k].chain.url
  {
    assert WellMade(d, w, s, t[k]);
    LinkedHeaders(d, w, s, c, h, t, k);
    WireAuthorization(w, s, t[k].chain, t[k].before);
    GetRemove(c.headers, "Authorization", "Authorization");
  }

  // Framing

  predicate BothFramings(h: Headers) {
    Has(h, "Content-Length") && Has(h, "Transfer-Encoding")
  }

  lemma LowerFramings()
    ensures Lower("Content-Length") == "content-length" && Lower("Transfer-Encoding") == "transfer-encoding"
  {
    LowerNames();
  }

  /** A request's framing follows its own body; the caller's other framing header stays. */
  predicate FramedBy(request: Request, callers: Headers) {
    var length := LengthText(request.body);
    && Http.Get(request.headers, "Content-Length")
       == (if length.Some? then length else Http.Get(callers, "Content-Length"))
    && Http.Get(request.headers, "Transfer-Encoding")
       == (if length.Some? then Http.Get(callers, "Transfer-Encoding") else Some("chunked"))
  }

  lemma FramingSurvives(h: Headers, name: string)
    requires name == "Content-Length" || name == "Transfer-Encoding"
    ensures Http.Get(Remove(h, "Authorization"), name) == Http.Get(h, name)
  {
    LowerAuthorization();
    LowerFramings();
    GetRemove(h, "Authorization", name);
  }

  lemma WireFraming(w: World, s: Settings, c: Chain, h: History)
    requires Made(w, s, c, h).Some?
    ensures Made(w, s, c, h).value.body == c.body && FramedBy(Made(w, s, c, h).value, c.headers)
  {
    LowerFramings();
    MadeExactly(w, s, c, h);
    MadeFields(w, s, c, h, "Content-Length");
    MadeFields(w, s, c, h, "Transfer-Encoding");
    GetIsFirst(c.headers, "Content-Length");
    GetIsFirst(c.headers, "Transfer-Encoding");
  }

  lemma LinkedFraming(d: Delivery, w: World, s: Settings, c: Chain, h: History, t: seq<Visit>, k: nat)
    requires Linked(d, w, s, c, h, t) && k < |t| && t[k].made.Some?
    ensures t[k].made.value.body == t[k].chain.body && FramedBy(t[k].made.value, c.headers)
  {
    assert WellMade(d, w, s, t[k]);
    LinkedHeaders(d, w, s, c, h, t, k);
    WireFraming(w, s, t[k].chain, t[k].before);
    FramingSurvives(c.headers, "Content-Length");
    FramingSurvives(c.headers, "Transfer-Encoding");
  }

  /** Each hop is framed by its own body, and carries exactly one framing header unless the caller
      set the one its body does not use. */
  lemma FramingOnWire(d: Delivery, w: World, m: Machine, s: Settings, c: Chain, h: History, k: nat)
    requires var t := Trail(d, w, m, s, c, h); k < |t| && t[k].made.Some?
    ensures var v := Trail(d, w, m, s, c, h)[k];
            var request := v.made.value;
            var unused := if LengthText(v.chain.body).Some? then "Transfer-Encoding" else "Content-Length";
            && request.body == v.chain.body && FramedBy(request, c.headers)
            && (BothFramings(request.headers) <==> Has(c.headers, unused))
            && (Has(request.headers, "Content-Length") || Has(request.headers, "Transfer-Encoding"))
  {
    TrailOfChain(d, w, m, s, c, h);
    LinkedFraming(d, w, s, c, h, Trail(d, w, m, s, c, h), k);
  }

  // Method and body

  /** What redirects received so far leave of the caller's method and body. */
  function AfterStatuses(verb: Method, body: Body, statuses: seq<nat>): (Method, Body) {
    if 303 in statuses then (Method.Get, Empty)
    else if verb == Method.Get || verb == Method.Head then (verb, body)
    else if forall i :: 0 <= i < |statuses| ==> statuses[i] == 307 || statuses[i] == 308 then (verb, body)
    else (Method.Get, Empty)
  }

  /** The statuses received before turn k. */
  function StatusesBefore(t: seq<Visit>, k: nat): seq<nat>
    requires k <= |t|
  {
    if k == 0 then []
    else StatusesBefore(t, k - 1) + (if t[k - 1].response.Some? then [t[k - 1].response.value.status] else [])
  }

  /** One more redirect at the end of the history. */
  lemma RedirectLast(status: nat, verb: Method, body: Body, statuses: seq<nat>)
    ensures var (v, b) := AfterStatuses(verb, body, statuses);
            AfterRedirect(status, v, b) == AfterStatuses(verb, body, statuses + [status])
  {
    var all := statuses + [status];
    assert all[|statuses|] == status;
    assert forall i :: 0 <= i < |statuses| ==> all[i] == statuses[i];
    assert 303 in all <==> 303 in statuses || status == 303;
    if forall i :: 0 <= i < |statuses| ==> statuses[i] == 307 || statuses[i] == 308 {
      assert 303 !in statuses;
    }
  }

  lemma {:induction false} LinkedMethod(d: Delivery, w: World, s: Settings, c: Chain, h: History, t: seq<Visit>, k: nat)
    requires Linked(d, w, s, c, h, t) && k < |t|
    ensures |StatusesBefore(t, k)| == k
    ensures (t[k].chain.verb, t[k].chain.body) == AfterStatuses(c.verb, c.body, StatusesBefore(t, k))
  {
    if k > 0 {
      LinkedMethod(d, w, s, c, h, t, k - 1);
      assert Link(w, s, t[k - 1], t[k]);
      RedirectLast(t[k - 1].response.value.status, c.verb, c.body, StatusesBefore(t, k - 1));
    }
  }

  /** The method and body of each hop, as a closed form of the statuses received before it. */
  lemma MethodOfTrail(d: Delivery, w: World, m: Machine, s: Settings, c: Chain, h: History, k: nat)
    requires k < |Trail(d, w, m, s, c, h)|
    ensures var t := Trail(d, w, m, s, c, h);
            && |StatusesBefore(t, k)| == k
            && (t[k].chain.verb, t[k].chain.body) == AfterStatuses(c.verb, c.body, StatusesBefore(t, k))
  {
    TrailOfChain(d, w, m, s, c, h);
    LinkedMethod(d, w, s, c, h, Trail(d, w, m, s, c, h), k);
  }

  // What a chain ends with

  /** The response is that answer, complete unless it is streamed. */
  predicate AnsweredBy(d: Delivery, a: Answer, url: Url, r: Response) {
    Usable(d, a) && HeadOf(a, url) == Some(r)
  }

  /** A chain succeeds with exactly the last response received, the peer's answer to the last
      request on the wire, and only if that is not a redirect to follow. */
  lemma SuccessOfChain(d: Delivery, w: World, m: Machine, s: Settings, c: Chain, h: History, r: Response)
    ensures var t := Trail(d, w, m, s, c, h);
            var (result, after) := Following(d, w, m, s, c, h);
            && (result == Ok(r) <==> t[|t| - 1].response == Some(r) && (r.status !in {301, 302, 303, 307, 308} || s.redirects.NoRedirects?))
            && (result == Ok(r) ==> AnsweredBy(d, w.serve(Requests(after)), t[|t| - 1].chain.url, r))
  {
    TrailOfChain(d, w, m, s, c, h);
    var t := Trail(d, w, m, s, c, h);
    LinkedSuccess(d, w, s, c, h, t, Following(d, w, m, s, c, h), r);
  }

  lemma LinkedSuccess(
      d: Delivery, w: World, s: Settings, c: Chain, h: History, t: seq<Visit>, end: (Result<Response, Error>, History), r: Response)
    requires Linked(d, w, s, c, h, t) && EndsWith(s, t[|t| - 1], end.0, end.1)
    ensures end.0 == Ok(r) <==> t[|t| - 1].response == Some(r) && (r.status !in {301, 302, 303, 307, 308} || s.redirects.NoRedirects?)
    ensures end.0 == Ok(r) ==> AnsweredBy(d, w.serve(Requests(end.1)), t[|t| - 1].chain.url, r)
  {
    var last := t[|t| - 1];
    assert WellMade(d, w, s, last) && Succeeds(s, last, r);
  }

  function CookiesOf(s: Settings, v: Visit): seq<CookieStore> {
    if v.response.Some? then Cookies(s, v.chain.url, v.response.value.headers) else []
  }

  /** The cookies of the first k responses. */
  function CookiesUpTo(s: Settings, t: seq<Visit>, k: nat): seq<CookieStore>
    requires k <= |t|
  {
    if k == 0 then [] else CookiesUpTo(s, t, k - 1) + CookiesOf(s, t[k - 1])
  }

  lemma VisitStores(d: Delivery, w: World, s: Settings, v: Visit)
    requires WellMade(d, w, s, v)
    ensures Stores(v.after) == Stores(v.before) + CookiesOf(s, v)
  {
    assert Stores(v.before) + [] == Stores(v.before);
  }

  lemma {:induction false} LinkedCookies(d: Delivery, w: World, s: Settings, c: Chain, h: History, t: seq<Visit>, k: nat)
    requires Linked(d, w, s, c, h, t) && k < |t|
    ensures Stores(t[k].before) == Stores(h) + CookiesUpTo(s, t, k)
    ensures Stores(t[k].after) == Stores(h) + CookiesUpTo(s, t, k + 1)
  {
    VisitStores(d, w, s, t[k]);
    if k == 0 {
      assert Stores(h) + [] == Stores(h);
    } else {
      LinkedCookies(d, w, s, c, h, t, k - 1);
      assert Link(w, s, t[k - 1], t[k]);
    }
    Assoc(Stores(h), CookiesUpTo(s, t, k), CookiesOf(s, t[k]));
  }

  /** Every hop's cookies are in the jar when the next hop looks it up, in order, and none else. */
  lemma CookiesOfTrail(d: Delivery, w: World, m: Machine, s: Settings, c: Chain, h: History, k: nat)
    requires k < |Trail(d, w, m, s, c, h)|
    ensures var t := Trail(d, w, m, s, c, h); Stores(t[k].before) == Stores(h) + CookiesUpTo(s, t, k)
    ensures Stores(Following(d, w, m, s, c, h).1)
         == Stores(h) + CookiesUpTo(s, Trail(d, w, m, s, c, h), |Trail(d, w, m, s, c, h)|)
  {
    TrailOfChain(d, w, m, s, c, h);
    var t := Trail(d, w, m, s, c, h);
    LinkedCookies(d, w, s, c, h, t, k);
    LinkedCookies(d, w, s, c, h, t, |t| - 1);
  }

  // The redirect cap

  ghost predicate AllRedirects(t: seq<Visit>) {
    forall i :: 0 <= i < |t| ==> RedirectReceived(t[i])
  }

  lemma {:induction false} LinkedHops(d: Delivery, w: World, s: Settings, c: Chain, h: History, t: seq<Visit>, k: nat)
    requires Linked(d, w, s, c, h, t) && k < |t|
    ensures t[k].chain.hop == c.hop + k
    ensures k > 0 ==> s.redirects.Follow? && t[k].chain.hop <= s.redirects.max && RedirectReceived(t[k - 1])
  {
    if k > 0 {
      LinkedHops(d, w, s, c, h, t, k - 1);
      assert Link(w, s, t[k - 1], t[k]);
    }
  }

  /** `TooManyRedirects(max)` comes out exactly when max + 1 redirect responses came in. */
  lemma TooManyExactly(d: Delivery, w: World, m: Machine, s: Settings, request: Request, h: History, max: nat)
    ensures var t := Trail(d, w, m, s, Start(request), h);
            Sending(d, w, m, s, request, h).0 == Err(TooManyRedirects(max))
            <==> s.redirects == Follow(max) && |t| == max + 1 && AllRedirects(t)
  {
    var t := Trail(d, w, m, s, Start(request), h);
    TrailOfChain(d, w, m, s, Start(request), h);
    LinkedTooMany(d, w, s, Start(request), h, t, Sending(d, w, m, s, request, h), max);
  }

  lemma LinkedTooMany(
      d: Delivery, w: World, s: Settings, c: Chain, h: History, t: seq<Visit>, end: (Result<Response, Error>, History), max: nat)
    requires Linked(d, w, s, c, h, t) && EndsWith(s, t[|t| - 1], end.0, end.1) && c.hop == 0
    ensures end.0 == Err(TooManyRedirects(max)) <==> s.redirects == Follow(max) && |t| == max + 1 && AllRedirects(t)
  {
    var last := |t| - 1;
    assert Fails(s, t[last], max);
    LinkedHops(d, w, s, c, h, t, last);
    if RedirectReceived(t[last]) {
      forall i | 0 <= i < |t| ensures RedirectReceived(t[i]) {
        if i < last {
          LinkedHops(d, w, s, c, h, t, i + 1);
        }
      }
    }
  }

  // Everything a chain puts on the wire

  function Turns(s: Settings): nat {
    if s.redirects.Follow? then s.redirects.max + 1 else 1
  }

  /** The request is one that a turn up to the k-th made. */
  ghost predicate MadeUpTo(t: seq<Visit>, k: nat, request: Request)
    requires k < |t|
  {
    exists j :: 0 <= j <= k && t[j].made == Some(request)
  }

  predicate Spent(h: History, after: History, turns: nat) {
    && SleptTotal(after) == SleptTotal(h)
    && Dials(after) <= Dials(h) + turns
    && Requests(h) <= Requests(after)
    && |Requests(after)| <= |Requests(h)| + 2 * turns
  }

  lemma SpentByTurn(h: History, before: History, after: History, made: Option<Request>, turns: nat)
    requires Spent(h, before, turns) && TurnEvents(before, after, made)
    ensures Spent(h, after, turns + 1)
  {
  }

  lemma {:induction false} LinkedSpends(d: Delivery, w: World, s: Settings, c: Chain, h: History, t: seq<Visit>, k: nat)
    requires Linked(d, w, s, c, h, t) && k < |t|
    ensures Spent(h, t[k].after, k + 1)
  {
    assert WellMade(d, w, s, t[k]);
    if k > 0 {
      LinkedSpends(d, w, s, c, h, t, k - 1);
      assert Link(w, s, t[k - 1], t[k]);
    }
    SpentByTurn(h, t[k].before, t[k].after, t[k].made, k);
  }

  lemma MadeByTurn(before: History, after: History, made: Option<Request>, i: nat)
    requires TurnEvents(before, after, made) && i < |Requests(after)|
    ensures if i < |Requests(before)| then Requests(after)[i] == Requests(before)[i] else made == Some(Requests(after)[i])
  {
  }

  lemma {:induction false} LinkedMakes(d: Delivery, w: World, s: Settings, c: Chain, h: History, t: seq<Visit>, k: nat, i: nat)
    requires Linked(d, w, s, c, h, t) && k < |t|
    requires |Requests(h)| <= i < |Requests(t[k].after)|
    ensures MadeUpTo(t, k, Requests(t[k].after)[i])
  {
    assert WellMade(d, w, s, t[k]);
    MadeByTurn(t[k].before, t[k].after, t[k].made, i);
    if i < |Requests(t[k].before)| {
      assert k > 0;
      assert Link(w, s, t[k - 1], t[k]);
      LinkedMakes(d, w, s, c, h, t, k - 1, i);
    }
  }

  lemma ChainSpends(d: Delivery, w: World, m: Machine, s: Settings, request: Request, h: History)
    ensures var after := Sending(d, w, m, s, request, h).1;
            var turns := if s.redirects.Follow? then s.redirects.max + 1 else 1;
            && SleptTotal(after) == SleptTotal(h)
            && Dials(after) <= Dials(h) + turns
            && Requests(h) <= Requests(after) && |Requests(after)| <= |Requests(h)| + 2 * turns
  {
    var c := Start(request);
    var t := Trail(d, w, m, s, c, h);
    TrailOfChain(d, w, m, s, c, h);
    LinkedSpends(d, w, s, c, h, t, |t| - 1);
    LinkedHops(d, w, s, c, h, t, |t| - 1);
  }

  /** A request may carry Authorization only to the caller's host and port, and only the caller's. */
  predicate KeepsCredentials(sent: Request, caller: Request) {
    Has(sent.headers, "Authorization") ==>
      && Lower(sent.url.host) == Lower(caller.url.host) && sent.url.port == caller.url.port
      && Http.Get(sent.headers, "Authorization") == Http.Get(caller.headers, "Authorization")
  }

  /** Whatever a chain puts on the wire keeps the caller's credentials at the caller's origin. */
  lemma ChainKeepsCredentials(d: Delivery, w: World, m: Machine, s: Settings, request: Request, h: History, i: nat)
    requires |Requests(h)| <= i < |Requests(Sending(d, w, m, s, request, h).1)|
    ensures KeepsCredentials(Requests(Sending(d, w, m, s, request, h).1)[i], request)
  {
    var c := Start(request);
    var t := Trail(d, w, m, s, c, h);
    TrailOfChain(d, w, m, s, c, h);
    LinkedCredentials(d, w, s, request, h, t, i);
  }

  lemma LinkedCredentials(d: Delivery, w: World, s: Settings, request: Request, h: History, t: seq<Visit>, i: nat)
    requires Linked(d, w, s, Start(request), h, t)
    requires |Requests(h)| <= i < |Requests(t[|t| - 1].after)|
    ensures KeepsCredentials(Requests(t[|t| - 1].after)[i], request)
  {
    var sent := Requests(t[|t| - 1].after)[i];
    LinkedMakes(d, w, s, Start(request), h, t, |t| - 1, i);
    var j :| 0 <= j < |t| && t[j].made == Some(sent);
    LinkedAuthorization(d, w, s, Start(request), h, t, j);
    if StaysHome(t, j) {
      assert AtHome(t[j].chain.url, t[0].chain.url);
    }
  }
}
