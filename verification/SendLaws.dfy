/** Laws of whole sends: retries around redirect chains. */
module SendLaws {
  import opened Wrappers
  import opened Retry
  import opened Http
  import opened Client
  import opened Events
  import opened RedirectLaws
  import opened CallerLaws

  /** A chain of the send: the history when it starts, its result, the history when it ends. */
  datatype Outcome = Outcome(before: History, result: Result<Response, Error>, after: History)

  /** Chains left to run from this attempt on, at most. */
  function Tries(p: Policy, attempt: nat): nat {
    if attempt < p.maxRetries then p.maxRetries - attempt + 1 else 1
  }

  function OutcomeOf(w: World, m: Machine, s: Settings, request: Request, h: History): Outcome {
    var (result, after) := Buffered(w, m, s, Start(request), h);
    Outcome(h, result, after)
  }

  /** The pause after the chain that ended as `a`. */
  function PauseAfter(w: World, m: Machine, p: Policy, attempt: nat, a: Outcome): Duration {
    Pause(w, m, p, attempt, a.result, a.after)
  }

  /** The chains a send runs, first to last. */
  function Outcomes(w: World, m: Machine, s: Settings, p: Policy, request: Request, attempt: nat, h: History): (r: seq<Outcome>)
    decreases Tries(p, attempt)
  {
    var o := OutcomeOf(w, m, s, request, h);
    [o] + (if Retries(w, p, request.verb, attempt, o.result, o.after) then
             Outcomes(w, m, s, p, request, attempt + 1, o.after + [Slept(PauseAfter(w, m, p, attempt, o))])
           else [])
  }

  /** How the chain of an attempt leads to the next: it was retryable, and the client slept. */
  predicate Follows(w: World, m: Machine, p: Policy, request: Request, attempt: nat, a: Outcome, b: Outcome) {
    && Retries(w, p, request.verb, attempt, a.result, a.after)
    && b.before == a.after + [Slept(PauseAfter(w, m, p, attempt, a))]
  }

  ghost predicate IsRun(w: World, m: Machine, p: Policy, request: Request, attempt: nat, h: History, os: seq<Outcome>) {
    && os != [] && os[0].before == h
    && (forall i :: 0 < i < |os| ==> Follows(w, m, p, request, attempt + i - 1, os[i - 1], os[i]))
  }

  /** Each is a whole redirect chain, started over from the caller's request. */
  ghost predicate AreChains(w: World, m: Machine, s: Settings, request: Request, os: seq<Outcome>) {
    forall i :: 0 <= i < |os| ==> os[i] == OutcomeOf(w, m, s, request, os[i].before)
  }

  /** The end is the last chain's, which was not to be retried. */
  predicate EndsAs(
    w: World, p: Policy, request: Request, attempt: nat, os: seq<Outcome>, end: (Result<Response, Error>, History))
  {
    && os != []
    && var last := os[|os| - 1];
       end == (last.result, last.after) && !Retries(w, p, request.verb, attempt + |os| - 1, last.result, last.after)
  }

  lemma RunCons(
      w: World, m: Machine, p: Policy, request: Request, attempt: nat, o: Outcome, later: History, rest: seq<Outcome>,
      end: (Result<Response, Error>, History))
    requires IsRun(w, m, p, request, attempt + 1, later, rest) && Follows(w, m, p, request, attempt, o, rest[0])
    requires EndsAs(w, p, request, attempt + 1, rest, end)
    ensures IsRun(w, m, p, request, attempt, o.before, [o] + rest)
    ensures EndsAs(w, p, request, attempt, [o] + rest, end)
  {
    var os := [o] + rest;
    forall i | 0 < i < |os| ensures Follows(w, m, p, request, attempt + i - 1, os[i - 1], os[i]) {
      if i > 1 {
        assert Follows(w, m, p, request, (attempt + 1) + (i - 1) - 1, rest[i - 2], rest[i - 1]);
      }
    }
  }

  lemma Unfold(w: World, m: Machine, s: Settings, p: Policy, request: Request, attempt: nat, h: History)
    ensures var o := OutcomeOf(w, m, s, request, h);
            var later := o.after + [Slept(PauseAfter(w, m, p, attempt, o))];
            if Retries(w, p, request.verb, attempt, o.result, o.after) then
              && Outcomes(w, m, s, p, request, attempt, h) == [o] + Outcomes(w, m, s, p, request, attempt + 1, later)
              && Retrying(w, m, s, p, request, attempt, h) == Retrying(w, m, s, p, request, attempt + 1, later)
            else
              && Outcomes(w, m, s, p, request, attempt, h) == [o]
              && Retrying(w, m, s, p, request, attempt, h) == (o.result, o.after)
  {
  }

  lemma {:induction false} OutcomesAreRun(w: World, m: Machine, s: Settings, p: Policy, request: Request, attempt: nat, h: History)
    ensures IsRun(w, m, p, request, attempt, h, Outcomes(w, m, s, p, request, attempt, h))
    ensures EndsAs(w, p, request, attempt, Outcomes(w, m, s, p, request, attempt, h), Retrying(w, m, s, p, request, attempt, h))
    decreases Tries(p, attempt)
  {
    var o := OutcomeOf(w, m, s, request, h);
    Unfold(w, m, s, p, request, attempt, h);
    if Retries(w, p, request.verb, attempt, o.result, o.after) {
      var later := o.after + [Slept(PauseAfter(w, m, p, attempt, o))];
      OutcomesAreRun(w, m, s, p, request, attempt + 1, later);
      RunCons(w, m, p, request, attempt, o, later, Outcomes(w, m, s, p, request, attempt + 1, later),
              Retrying(w, m, s, p, request, attempt + 1, later));
    }
  }

  lemma {:induction false} OutcomesAreChains(w: World, m: Machine, s: Settings, p: Policy, request: Request, attempt: nat, h: History)
    ensures AreChains(w, m, s, request, Outcomes(w, m, s, p, request, attempt, h))
    decreases Tries(p, attempt)
  {
    var o := OutcomeOf(w, m, s, request, h);
    Unfold(w, m, s, p, request, attempt, h);
    if Retries(w, p, request.verb, attempt, o.result, o.after) {
      OutcomesAreChains(w, m, s, p, request, attempt + 1, o.after + [Slept(PauseAfter(w, m, p, attempt, o))]);
    }
  }

  /** A chain is followed by another: retries are left, the method may be retried, and the result is a
      status the policy lists, or an I/O error if it retries those. */
  predicate GoesOn(p: Policy, verb: Method, attempt: nat, result: Result<Response, Error>) {
    && attempt < p.maxRetries
    && (|| p.retryNonIdempotent
        || verb == Method.Get || verb == Method.Head || verb == Method.Put || verb == Method.Delete || verb == Method.Options)
    && match result
       case Ok(r) => r.status in p.retryStatuses
       case Err(e) => e == Net(Io) && p.retryIoErrors
  }

  lemma RetriesExactly(w: World, p: Policy, verb: Method, attempt: nat, result: Result<Response, Error>, h: History)
    ensures Retries(w, p, verb, attempt, result, h) <==> GoesOn(p, verb, attempt, result)
  {
  }

  /** Each chain but the last goes on, the last does not, and the end is the last one's. */
  ghost predicate EndsProperly(p: Policy, request: Request, os: seq<Outcome>, end: (Result<Response, Error>, History)) {
    && 1 <= |os| <= p.maxRetries + 1
    && (forall i :: 0 <= i < |os| ==> (GoesOn(p, request.verb, i, os[i].result) <==> i < |os| - 1))
    && end == (os[|os| - 1].result, os[|os| - 1].after)
  }

  /** Each chain of a send starts over from the caller's request and is followed by another exactly
      when it goes on; the send ends with the last one's result. */
  lemma SendOutcome(w: World, m: Machine, s: Settings, p: Policy, request: Request, h: History)
    ensures var os := Outcomes(w, m, s, p, request, 0, h);
            && (forall i :: 0 <= i < |os| ==>
                  Sending(Whole, w, m, s, request, os[i].before) == (os[i].result, os[i].after))
            && EndsProperly(p, request, os, Retrying(w, m, s, p, request, 0, h))
  {
    OutcomesAreRun(w, m, s, p, request, 0, h);
    OutcomesAreChains(w, m, s, p, request, 0, h);
    RunOutcome(w, m, p, request, h, Outcomes(w, m, s, p, request, 0, h), Retrying(w, m, s, p, request, 0, h));
    ChainsAreSendings(w, m, s, request, Outcomes(w, m, s, p, request, 0, h));
  }

  lemma ChainsAreSendings(w: World, m: Machine, s: Settings, request: Request, os: seq<Outcome>)
    requires AreChains(w, m, s, request, os)
    ensures forall i :: 0 <= i < |os| ==> Sending(Whole, w, m, s, request, os[i].before) == (os[i].result, os[i].after)
  {
    forall i | 0 <= i < |os| ensures Sending(Whole, w, m, s, request, os[i].before) == (os[i].result, os[i].after) {
      assert os[i] == OutcomeOf(w, m, s, request, os[i].before);
    }
  }

  lemma RunOutcome(
      w: World, m: Machine, p: Policy, request: Request, h: History, os: seq<Outcome>, end: (Result<Response, Error>, History))
    requires IsRun(w, m, p, request, 0, h, os) && EndsAs(w, p, request, 0, os, end)
    ensures EndsProperly(p, request, os, end)
  {
    forall i | 0 <= i < |os| ensures GoesOn(p, request.verb, i, os[i].result) <==> i < |os| - 1 {
      RetriesExactly(w, p, request.verb, i, os[i].result, os[i].after);
      if i < |os| - 1 {
        assert Follows(w, m, p, request, (i + 1) - 1, os[(i + 1) - 1], os[i + 1]);
      }
    }
    if |os| > 1 {
      assert GoesOn(p, request.verb, |os| - 2, os[|os| - 2].result);
    }
  }

  /** Without the opt-in, a POST, a PATCH, a CONNECT or any method of another name runs one chain. */
  lemma NotRetried(w: World, m: Machine, s: Settings, p: Policy, request: Request, h: History)
    requires !p.retryNonIdempotent
    requires request.verb == Method.Post || request.verb == Method.Patch || request.verb == Method.Connect || request.verb.Other?
    ensures |Outcomes(w, m, s, p, request, 0, h)| == 1
  {
    SendOutcome(w, m, s, p, request, h);
    NoneGoesOn(p, request, Outcomes(w, m, s, p, request, 0, h), Retrying(w, m, s, p, request, 0, h));
  }

  lemma NoneGoesOn(p: Policy, request: Request, os: seq<Outcome>, end: (Result<Response, Error>, History))
    requires EndsProperly(p, request, os, end) && !p.retryNonIdempotent
    requires request.verb == Method.Post || request.verb == Method.Patch || request.verb == Method.Connect || request.verb.Other?
    ensures |os| == 1
  {
    assert GoesOn(p, request.verb, 0, os[0].result) <==> 0 < |os| - 1;
  }

  /** The first request of every chain of a send is the caller's. */
  lemma FirstOfEachChain(w: World, m: Machine, s: Settings, p: Policy, request: Request, h: History, i: nat)
    requires var os := Outcomes(w, m, s, p, request, 0, h); i < |os| && |Requests(os[i].after)| > |Requests(os[i].before)|
    ensures var o := Outcomes(w, m, s, p, request, 0, h)[i];
            IsCallers(w, s, o.before, Requests(o.after)[|Requests(o.before)|], request)
  {
    SendOutcome(w, m, s, p, request, h);
    var o := Outcomes(w, m, s, p, request, 0, h)[i];
    assert Sending(Whole, w, m, s, request, o.before) == (o.result, o.after);
    FirstRequest(Whole, w, m, s, request, o.before);
  }

  // Traffic

  lemma Distribute(k: nat, n: nat)
    ensures k * (n + 1) == k * n + k && k * n >= 0
  {
  }

  /** Each chain spends at most its turns. */
  ghost predicate Spend(os: seq<Outcome>, turns: nat) {
    forall i :: 0 <= i < |os| ==> Spent(os[i].before, os[i].after, turns)
  }

  lemma ChainsSpend(w: World, m: Machine, s: Settings, request: Request, os: seq<Outcome>)
    requires AreChains(w, m, s, request, os)
    ensures Spend(os, Turns(s))
  {
    forall i | 0 <= i < |os| ensures Spent(os[i].before, os[i].after, Turns(s)) {
      ChainSpends(Whole, w, m, s, request, os[i].before);
    }
  }

  /** A send's chains as a run, each within its bounds. */
  ghost predicate IsSend(
    w: World, m: Machine, s: Settings, p: Policy, request: Request, h: History, os: seq<Outcome>,
    end: (Result<Response, Error>, History))
  {
    && IsRun(w, m, p, request, 0, h, os)
    && EndsAs(w, p, request, 0, os, end)
    && EndsProperly(p, request, os, end)
    && Spend(os, Turns(s))
  }

  lemma SendIsSend(w: World, m: Machine, s: Settings, p: Policy, request: Request, h: History)
    ensures IsSend(w, m, s, p, request, h, Outcomes(w, m, s, p, request, 0, h), Retrying(w, m, s, p, request, 0, h))
  {
    OutcomesAreRun(w, m, s, p, request, 0, h);
    OutcomesAreChains(w, m, s, p, request, 0, h);
    RunOutcome(w, m, p, request, h, Outcomes(w, m, s, p, request, 0, h), Retrying(w, m, s, p, request, 0, h));
    ChainsSpend(w, m, s, request, Outcomes(w, m, s, p, request, 0, h));
  }

  /** The pause between chains puts nothing on the wire. */
  lemma Paused(w: World, m: Machine, p: Policy, request: Request, h: History, os: seq<Outcome>, k: nat)
    requires IsRun(w, m, p, request, 0, h, os) && 0 < k < |os|
    ensures Requests(os[k].before) == Requests(os[k - 1].after)
    ensures Dials(os[k].before) == Dials(os[k - 1].after)
    ensures SleptTotal(os[k].before) == SleptTotal(os[k - 1].after) + PauseAfter(w, m, p, k - 1, os[k - 1])
  {
    assert Follows(w, m, p, request, k - 1, os[k - 1], os[k]);
    Snoc(os[k - 1].after, Slept(PauseAfter(w, m, p, k - 1, os[k - 1])));
  }

  /** What a run has put on the wire so far. */
  predicate SpentOnWire(h: History, after: History, turns: nat) {
    && Dials(after) <= Dials(h) + turns
    && Requests(h) <= Requests(after)
    && |Requests(after)| <= |Requests(h)| + 2 * turns
  }

  lemma {:induction false} RunSpends(
      w: World, m: Machine, p: Policy, request: Request, h: History, os: seq<Outcome>, turns: nat, k: nat)
    requires IsRun(w, m, p, request, 0, h, os) && Spend(os, turns) && k < |os|
    ensures SpentOnWire(h, os[k].after, turns * (k + 1))
  {
    assert Spent(os[k].before, os[k].after, turns);
    Distribute(turns, k);
    if k > 0 {
      RunSpends(w, m, p, request, h, os, turns, k - 1);
      Paused(w, m, p, request, h, os, k);
    }
  }

  lemma RunBounds(
      w: World, m: Machine, s: Settings, p: Policy, request: Request, h: History, os: seq<Outcome>,
      end: (Result<Response, Error>, History))
    requires IsSend(w, m, s, p, request, h, os, end)
    ensures SpentOnWire(h, end.1, Turns(s) * (p.maxRetries + 1))
  {
    var turns := Turns(s);
    RunSpends(w, m, p, request, h, os, turns, |os| - 1);
    Times(turns, |os|, p.maxRetries + 1);
    Distribute(turns, p.maxRetries);
    Widen(h, end.1, turns * |os|, turns * (p.maxRetries + 1));
  }

  lemma Widen(h: History, after: History, few: nat, many: nat)
    requires few <= many && SpentOnWire(h, after, few)
    ensures SpentOnWire(h, after, many)
  {
  }

  /** At most (R + 1)(M + 1) dial phases and twice as many requests on the wire. */
  lemma SendBounds(w: World, m: Machine, s: Settings, p: Policy, request: Request, h: History)
    ensures var after := Retrying(w, m, s, p, request, 0, h).1;
            var turns := if s.redirects.Follow? then s.redirects.max + 1 else 1;
            && Dials(after) <= Dials(h) + turns * (p.maxRetries + 1)
            && |Requests(after)| <= |Requests(h)| + 2 * (turns * (p.maxRetries + 1))
  {
    var os, end := Outcomes(w, m, s, p, request, 0, h), Retrying(w, m, s, p, request, 0, h);
    SendIsSend(w, m, s, p, request, h);
    RunBounds(w, m, s, p, request, h, os, end);
  }

  /** Every request a chain adds keeps the caller's credentials. */
  ghost predicate AddsOnlySafe(before: seq<Request>, after: seq<Request>, caller: Request) {
    forall i :: |before| <= i < |after| ==> KeepsCredentials(after[i], caller)
  }

  lemma OutcomeCredentials(w: World, m: Machine, s: Settings, request: Request, h: History)
    ensures AddsOnlySafe(Requests(h), Requests(OutcomeOf(w, m, s, request, h).after), request)
  {
    var after := Requests(Buffered(w, m, s, Start(request), h).1);
    forall i | |Requests(h)| <= i < |after| ensures KeepsCredentials(after[i], request) {
      ChainKeepsCredentials(Whole, w, m, s, request, h, i);
    }
  }

  lemma {:induction false} RunCredentials(
      w: World, m: Machine, p: Policy, request: Request, h: History, os: seq<Outcome>, turns: nat, k: nat)
    requires IsRun(w, m, p, request, 0, h, os) && Spend(os, turns) && k < |os|
    requires forall i :: 0 <= i < |os| ==> AddsOnlySafe(Requests(os[i].before), Requests(os[i].after), request)
    ensures AddsOnlySafe(Requests(h), Requests(os[k].after), request)
  {
    assert Spent(os[k].before, os[k].after, turns);
    assert AddsOnlySafe(Requests(os[k].before), Requests(os[k].after), request);
    if k > 0 {
      RunCredentials(w, m, p, request, h, os, turns, k - 1);
      Paused(w, m, p, request, h, os, k);
      SafeThenSafe(Requests(h), Requests(os[k].before), Requests(os[k].after), request);
    }
  }

  lemma SafeThenSafe(a: seq<Request>, b: seq<Request>, c: seq<Request>, caller: Request)
    requires AddsOnlySafe(a, b, caller) && AddsOnlySafe(b, c, caller) && b <= c
    ensures AddsOnlySafe(a, c, caller)
  {
    forall i | |a| <= i < |c| ensures KeepsCredentials(c[i], caller) {
      if i < |b| {
        assert c[i] == b[i];
      }
    }
  }

  lemma ChainsSafe(w: World, m: Machine, s: Settings, request: Request, os: seq<Outcome>)
    requires AreChains(w, m, s, request, os)
    ensures forall i :: 0 <= i < |os| ==> AddsOnlySafe(Requests(os[i].before), Requests(os[i].after), request)
  {
    forall i | 0 <= i < |os| ensures AddsOnlySafe(Requests(os[i].before), Requests(os[i].after), request) {
      OutcomeCredentials(w, m, s, request, os[i].before);
    }
  }

  lemma RunKeepsCredentials(
      w: World, m: Machine, s: Settings, p: Policy, request: Request, h: History, os: seq<Outcome>,
      end: (Result<Response, Error>, History))
    requires IsSend(w, m, s, p, request, h, os, end)
    requires forall i :: 0 <= i < |os| ==> AddsOnlySafe(Requests(os[i].before), Requests(os[i].after), request)
    ensures AddsOnlySafe(Requests(h), Requests(end.1), request)
  {
    RunCredentials(w, m, p, request, h, os, Turns(s), |os| - 1);
  }

  /** Nothing a whole send puts on the wire, retries and redirects included, carries Authorization
      anywhere but to the host and port the caller asked for. */
  lemma SendKeepsCredentials(w: World, m: Machine, s: Settings, p: Policy, request: Request, h: History)
    ensures AddsOnlySafe(Requests(h), Requests(Retrying(w, m, s, p, request, 0, h).1), request)
  {
    var os, end := Outcomes(w, m, s, p, request, 0, h), Retrying(w, m, s, p, request, 0, h);
    SendIsSend(w, m, s, p, request, h);
    OutcomesAreChains(w, m, s, p, request, 0, h);
    ChainsSafe(w, m, s, request, os);
    RunKeepsCredentials(w, m, s, p, request, h, os, end);
  }

  // Sleeping

  function Sum(ds: seq<nat>): nat {
    if ds == [] then 0 else Sum(ds[..|ds| - 1]) + ds[|ds| - 1]
  }

  lemma {:induction false} SumBelow(ds: seq<nat>, bound: nat)
    requires forall i :: 0 <= i < |ds| ==> ds[i] <= bound
    ensures Sum(ds) <= bound * |ds|
  {
    if ds != [] {
      SumBelow(ds[..|ds| - 1], bound);
      Distribute(bound, |ds| - 1);
    }
  }

  lemma LinearBound(ds: seq<nat>, bound: nat, n: nat)
    requires |ds| <= n && forall i :: 0 <= i < |ds| ==> ds[i] <= bound
    ensures Sum(ds) <= bound * n
  {
    SumBelow(ds, bound);
    Times(bound, |ds|, n);
  }

  /** The i-th is at most base * 2^i. */
  ghost predicate Doubling(ds: seq<nat>, base: nat) {
    forall i :: 0 <= i < |ds| ==> DoublingAt(ds[i], base, i)
  }

  predicate DoublingAt(d: nat, base: nat, i: nat) {
    d <= base * Pow2(i)
  }

  lemma {:induction false} SumGeometric(ds: seq<nat>, base: nat)
    requires Doubling(ds, base)
    ensures Sum(ds) <= base * (Pow2(|ds|) - 1)
  {
    if ds != [] {
      SumGeometric(ds[..|ds| - 1], base);
      assert DoublingAt(ds[|ds| - 1], base, |ds| - 1);
      Expand(base, Pow2(|ds| - 1));
    }
  }

  lemma GeometricBound(ds: seq<nat>, base: nat, n: nat)
    requires Doubling(ds, base) && |ds| <= n
    ensures Sum(ds) <= base * (Pow2(n) - 1)
  {
    SumGeometric(ds, base);
    Pow2Monotone(|ds|, n);
    Times(base, Pow2(|ds|) - 1, Pow2(n) - 1);
  }

  lemma Expand(base: nat, power: int)
    ensures base * (2 * power - 1) == base * (power - 1) + base * power
  {
  }

  /** The pauses between the first k + 1 chains. */
  function Pauses(w: World, m: Machine, p: Policy, os: seq<Outcome>, k: nat): (ds: seq<nat>)
    requires k < |os|
    ensures |ds| == k && forall i :: 0 <= i < k ==> ds[i] == PauseAfter(w, m, p, i, os[i])
  {
    seq(k, i requires 0 <= i < k => PauseAfter(w, m, p, i, os[i]))
  }

  /** The send sleeps between chains and nowhere else. */
  lemma {:induction false} RunSleeps(
      w: World, m: Machine, p: Policy, request: Request, h: History, os: seq<Outcome>, turns: nat, k: nat)
    requires IsRun(w, m, p, request, 0, h, os) && Spend(os, turns) && k < |os|
    ensures SleptTotal(os[k].after) == SleptTotal(h) + Sum(Pauses(w, m, p, os, k))
  {
    assert Spent(os[k].before, os[k].after, turns);
    if k > 0 {
      RunSleeps(w, m, p, request, h, os, turns, k - 1);
      Paused(w, m, p, request, h, os, k);
      assert Pauses(w, m, p, os, k)[..k - 1] == Pauses(w, m, p, os, k - 1);
    }
  }

  /** What the server asks for after a result, as far as the policy listens. */
  function Wish(w: World, p: Policy, a: Outcome): Option<nat> {
    if p.respectRetryAfter && a.result.Ok? && Http.Get(a.result.value.headers, "retry-after").Some? then
      var asked := w.parseRetryAfter(a.after, Http.Get(a.result.value.headers, "retry-after").value);
      if asked.None? then None else Some(if asked.value < p.maxRetryAfter then asked.value else p.maxRetryAfter)
    else
      None
  }

  /** The delay of a backoff for a draw: fixed, or base * 2^min(attempt, 20) up to max, scaled by the
      draw over 2^64 if there is jitter, in at most 64 bits. */
  function BackoffOf(b: Backoff, attempt: nat, draw: nat): nat {
    match b
    case Fixed(d) => d
    case Exponential(base, max, jitter) =>
      var doubled := base * Pow2(if attempt < 20 then attempt else 20);
      var full: nat := if doubled < max then doubled else max;
      if jitter && full > 0 then
        draw * (if full < 0x1_0000_0000_0000_0000 then full else 0xFFFF_FFFF_FFFF_FFFF) / 0x1_0000_0000_0000_0000
      else
        full
  }

  lemma BackoffExactly(b: Backoff, attempt: nat, draw: u64)
    ensures DelayAfter(b, attempt, draw) == BackoffOf(b, attempt, draw)
  {
    if b.Exponential? {
      CappedIsMin(b.base, b.max, attempt);
    }
  }

  /** The pause after a chain is what the server asks for, if the policy listens, or the backoff's. */
  lemma PauseExactly(w: World, m: Machine, p: Policy, attempt: nat, a: Outcome)
    ensures PauseAfter(w, m, p, attempt, a)
         == if Wish(w, p, a).Some? then Wish(w, p, a).value else BackoffOf(p.backoff, attempt, m.draw(a.after))
  {
    BackoffExactly(p.backoff, attempt, m.draw(a.after));
  }

  /** Between one chain of a send and the next, the client does nothing but sleep that pause. */
  lemma PausesBetween(w: World, m: Machine, s: Settings, p: Policy, request: Request, h: History, i: nat)
    requires i + 1 < |Outcomes(w, m, s, p, request, 0, h)|
    ensures var os := Outcomes(w, m, s, p, request, 0, h);
            exists d: Duration ::
              && os[i + 1].before == os[i].after + [Slept(d)]
              && d == if Wish(w, p, os[i]).Some? then Wish(w, p, os[i]).value
                      else BackoffOf(p.backoff, i, m.draw(os[i].after))
  {
    OutcomesAreRun(w, m, s, p, request, 0, h);
    PauseOfRun(w, m, p, request, h, Outcomes(w, m, s, p, request, 0, h), i);
  }

  lemma PauseOfRun(w: World, m: Machine, p: Policy, request: Request, h: History, os: seq<Outcome>, i: nat)
    requires IsRun(w, m, p, request, 0, h, os) && i + 1 < |os|
    ensures exists d: Duration ::
              && os[i + 1].before == os[i].after + [Slept(d)]
              && d == if Wish(w, p, os[i]).Some? then Wish(w, p, os[i]).value
                      else BackoffOf(p.backoff, i, m.draw(os[i].after))
  {
    assert Follows(w, m, p, request, 0 + (i + 1) - 1, os[(i + 1) - 1], os[i + 1]);
    var d := PauseAfter(w, m, p, i, os[i]);
    PauseExactly(w, m, p, i, os[i]);
    assert os[i + 1].before == os[i].after + [Slept(d)];
  }

  /** Neither the backoff nor the server can make a pause longer. */
  predicate PausesWithin(p: Policy, longest: nat) {
    && p.maxRetryAfter <= longest
    && match p.backoff
       case Fixed(d) => d <= longest
       case Exponential(_, max, _) => max <= longest
  }

  lemma PauseBound(w: World, m: Machine, p: Policy, attempt: nat, a: Outcome, longest: nat)
    requires PausesWithin(p, longest)
    ensures PauseAfter(w, m, p, attempt, a) <= longest
  {
    DelayWithinCap(p.backoff, attempt, m.draw(a.after));
  }

  lemma PauseDoubling(w: World, m: Machine, p: Policy, attempt: nat, a: Outcome)
    requires !p.respectRetryAfter && p.backoff.Exponential?
    ensures DoublingAt(PauseAfter(w, m, p, attempt, a), p.backoff.base, attempt)
  {
    DelayWithinCap(p.backoff, attempt, m.draw(a.after));
  }

  lemma PausesBounded(w: World, m: Machine, p: Policy, os: seq<Outcome>, k: nat, longest: nat)
    requires k < |os| && PausesWithin(p, longest)
    ensures forall i :: 0 <= i < k ==> Pauses(w, m, p, os, k)[i] <= longest
  {
    forall i | 0 <= i < k ensures Pauses(w, m, p, os, k)[i] <= longest {
      PauseBound(w, m, p, i, os[i], longest);
    }
  }

  lemma PausesDouble(w: World, m: Machine, p: Policy, os: seq<Outcome>, k: nat)
    requires k < |os| && !p.respectRetryAfter && p.backoff.Exponential?
    ensures Doubling(Pauses(w, m, p, os, k), p.backoff.base)
  {
    var ds := Pauses(w, m, p, os, k);
    forall i | 0 <= i < |ds| ensures DoublingAt(ds[i], p.backoff.base, i) {
      PauseDoubling(w, m, p, i, os[i]);
    }
  }

  lemma RunSleepTotal(
      w: World, m: Machine, s: Settings, p: Policy, request: Request, h: History, os: seq<Outcome>,
      end: (Result<Response, Error>, History))
    requires IsSend(w, m, s, p, request, h, os, end)
    ensures SleptTotal(end.1) == SleptTotal(h) + Sum(Pauses(w, m, p, os, |os| - 1))
  {
    RunSleeps(w, m, p, request, h, os, Turns(s), |os| - 1);
  }

  /** A send sleeps the policy's pause after each of its chains but the last, and at no other time. */
  lemma SleepTotal(w: World, m: Machine, s: Settings, p: Policy, request: Request, h: History)
    ensures var os := Outcomes(w, m, s, p, request, 0, h);
            && os != []
            && SleptTotal(Retrying(w, m, s, p, request, 0, h).1)
               == SleptTotal(h) + Sum(Pauses(w, m, p, os, |os| - 1))
  {
    SendIsSend(w, m, s, p, request, h);
    RunSleepTotal(w, m, s, p, request, h, Outcomes(w, m, s, p, request, 0, h), Retrying(w, m, s, p, request, 0, h));
  }

  lemma RunSleepBound(
      w: World, m: Machine, s: Settings, p: Policy, request: Request, h: History, os: seq<Outcome>,
      end: (Result<Response, Error>, History), longest: nat)
    requires IsSend(w, m, s, p, request, h, os, end) && PausesWithin(p, longest)
    ensures SleptTotal(end.1) <= SleptTotal(h) + longest * p.maxRetries
    ensures !p.respectRetryAfter && p.backoff.Exponential? ==>
              SleptTotal(end.1) <= SleptTotal(h) + p.backoff.base * (Pow2(p.maxRetries) - 1)
  {
    var k := |os| - 1;
    RunSleeps(w, m, p, request, h, os, Turns(s), k);
    PausesBounded(w, m, p, os, k, longest);
    LinearBound(Pauses(w, m, p, os, k), longest, p.maxRetries);
    if !p.respectRetryAfter && p.backoff.Exponential? {
      PausesDouble(w, m, p, os, k);
      GeometricBound(Pauses(w, m, p, os, k), p.backoff.base, p.maxRetries);
    }
  }

  /** Sleeps add up to at most R times the longest pause, the larger of the backoff's cap and
      max_retry_after; with Retry-After ignored, exponential backoff sleeps at most base * (2^R - 1)
      in all. */
  lemma SleepBound(w: World, m: Machine, s: Settings, p: Policy, request: Request, h: History, longest: nat)
    requires PausesWithin(p, longest)
    ensures var after := Retrying(w, m, s, p, request, 0, h).1;
            && SleptTotal(after) <= SleptTotal(h) + longest * p.maxRetries
            && (!p.respectRetryAfter && p.backoff.Exponential? ==>
                  SleptTotal(after) <= SleptTotal(h) + p.backoff.base * (Pow2(p.maxRetries) - 1))
  {
    var os, end := Outcomes(w, m, s, p, request, 0, h), Retrying(w, m, s, p, request, 0, h);
    SendIsSend(w, m, s, p, request, h);
    RunSleepBound(w, m, s, p, request, h, os, end, longest);
  }
}
