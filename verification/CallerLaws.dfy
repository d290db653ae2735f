/** What becomes of the caller's own request: the chain's first request, and every later one as a
    function of it. */
module CallerLaws {
  import opened Wrappers
  import opened Text
  import opened Http
  import opened Client
  import opened Events
  import opened WireLaws
  import opened RedirectLaws

  /** If a chain has put anything new on the wire, it began with its first turn's request. */
  lemma {:induction false} LinkedFirst(d: Delivery, w: World, s: Settings, c: Chain, h: History, t: seq<Visit>, k: nat)
    requires Linked(d, w, s, c, h, t) && k < |t| && |Requests(t[k].after)| > |Requests(h)|
    ensures t[0].made == Some(Requests(t[k].after)[|Requests(h)|])
  {
    assert WellMade(d, w, s, t[k]);
    MadeByTurn(t[k].before, t[k].after, t[k].made, |Requests(h)|);
    if k > 0 {
      assert Link(w, s, t[k - 1], t[k]);
      assert WellMade(d, w, s, t[k - 1]);
      LinkedGrows(d, w, s, c, h, t, k - 1);
      LinkedFirst(d, w, s, c, h, t, k - 1);
    }
  }

  /** A turn that received a response had sent a request. */
  lemma LinkedGrows(d: Delivery, w: World, s: Settings, c: Chain, h: History, t: seq<Visit>, k: nat)
    requires Linked(d, w, s, c, h, t) && k < |t| && t[k].response.Some?
    ensures |Requests(t[k].after)| > |Requests(h)|
  {
    assert WellMade(d, w, s, t[k]);
    if k > 0 {
      LinkedSpends(d, w, s, c, h, t, k - 1);
      assert Link(w, s, t[k - 1], t[k]);
    }
  }

  /** The request is the caller's: verb, URL and body are, and every field is what the wire headers
      make of the caller's. */
  ghost predicate IsCallers(w: World, s: Settings, h: History, sent: Request, caller: Request) {
    && sent.verb == caller.verb && sent.url == caller.url && sent.body == caller.body
    && forall name: string :: All(sent.headers, name) == WireValues(w, s, h, caller.url, caller.body, caller.headers, name)
  }

  lemma MadeIsCallers(w: World, s: Settings, request: Request, h: History)
    requires Made(w, s, Start(request), h).Some?
    ensures IsCallers(w, s, h, Made(w, s, Start(request), h).value, request)
  {
    var c := Start(request);
    var sent := Made(w, s, c, h).value;
    MadeExactly(w, s, c, h);
    forall name: string
      ensures All(sent.headers, name) == WireValues(w, s, h, request.url, request.body, request.headers, name)
    {
      MadeFields(w, s, c, h, name);
    }
  }

  /** The first request either loop puts on the wire for a caller's request is that request. */
  lemma FirstRequest(d: Delivery, w: World, m: Machine, s: Settings, request: Request, h: History)
    requires |Requests(Sending(d, w, m, s, request, h).1)| > |Requests(h)|
    ensures IsCallers(w, s, h, Requests(Sending(d, w, m, s, request, h).1)[|Requests(h)|], request)
  {
    var c := Start(request);
    var t := Trail(d, w, m, s, c, h);
    TrailOfChain(d, w, m, s, c, h);
    FirstOfTrail(d, w, s, request, h, t);
  }

  lemma FirstOfTrail(d: Delivery, w: World, s: Settings, request: Request, h: History, t: seq<Visit>)
    requires Linked(d, w, s, Start(request), h, t) && |Requests(t[|t| - 1].after)| > |Requests(h)|
    ensures IsCallers(w, s, h, Requests(t[|t| - 1].after)[|Requests(h)|], request)
  {
    LinkedFirst(d, w, s, Start(request), h, t, |t| - 1);
    assert WellMade(d, w, s, t[0]);
    MadeIsCallers(w, s, request, h);
  }

  /** The turns either loop takes for a caller's request. */
  function Journey(d: Delivery, w: World, m: Machine, s: Settings, request: Request, h: History): seq<Visit> {
    Trail(d, w, m, s, Start(request), h)
  }

  /** A hop carries the caller's Authorization exactly while the hosts of all hops up to it, in small
      letters, and their ports are those of the URL the caller asked for. */
  lemma CallersAuthorization(d: Delivery, w: World, m: Machine, s: Settings, request: Request, h: History, k: nat)
    requires var t := Journey(d, w, m, s, request, h); k < |t| && t[k].made.Some?
    ensures var t := Journey(d, w, m, s, request, h);
            Http.Get(t[k].made.value.headers, "Authorization")
            == if forall j :: 0 <= j <= k ==>
                    Lower(t[j].chain.url.host) == Lower(request.url.host) && t[j].chain.url.port == request.url.port
               then Http.Get(request.headers, "Authorization") else None
    ensures var v := Journey(d, w, m, s, request, h)[k]; v.made.value.url == v.chain.url
  {
    var c := Start(request);
    TrailOfChain(d, w, m, s, c, h);
    AuthorizationOfTrail(d, w, s, request, h, Trail(d, w, m, s, c, h), k);
  }

  lemma AuthorizationOfTrail(d: Delivery, w: World, s: Settings, request: Request, h: History, t: seq<Visit>, k: nat)
    requires Linked(d, w, s, Start(request), h, t) && k < |t| && t[k].made.Some?
    ensures Http.Get(t[k].made.value.headers, "Authorization")
         == if forall j :: 0 <= j <= k ==>
                 Lower(t[j].chain.url.host) == Lower(request.url.host) && t[j].chain.url.port == request.url.port
            then Http.Get(request.headers, "Authorization") else None
    ensures t[k].made.value.url == t[k].chain.url
  {
    LinkedAuthorization(d, w, s, Start(request), h, t, k);
    assert t[0].chain.url == request.url;
  }

  /** Verb and body of a hop's request, from the caller's and the statuses received before it. */
  lemma CallersMethod(d: Delivery, w: World, m: Machine, s: Settings, request: Request, h: History, k: nat)
    requires var t := Journey(d, w, m, s, request, h); k < |t| && t[k].made.Some?
    ensures var t := Journey(d, w, m, s, request, h);
            && |StatusesBefore(t, k)| == k
            && (t[k].made.value.verb, t[k].made.value.body)
               == AfterStatuses(request.verb, request.body, StatusesBefore(t, k))
  {
    var c := Start(request);
    TrailOfChain(d, w, m, s, c, h);
    MethodOfLinked(d, w, s, request, h, Trail(d, w, m, s, c, h), k);
  }

  lemma MethodOfLinked(d: Delivery, w: World, s: Settings, request: Request, h: History, t: seq<Visit>, k: nat)
    requires Linked(d, w, s, Start(request), h, t) && k < |t| && t[k].made.Some?
    ensures |StatusesBefore(t, k)| == k
    ensures (t[k].made.value.verb, t[k].made.value.body) == AfterStatuses(request.verb, request.body, StatusesBefore(t, k))
  {
    LinkedMethod(d, w, s, Start(request), h, t, k);
    assert WellMade(d, w, s, t[k]);
    MadeExactly(w, s, t[k].chain, t[k].before);
  }
}
