/** What every interleaving of hops over one pool keeps. */
module PoolSafety {
  import opened Wrappers
  import opened Proxy
  import opened Text
  import opened Routing
  import opened KeepAlive
  import opened Pool
  import opened PoolRuns

  // Conservation

  /** A connection ever dialed is held by one hop, or sits in one slot of one bucket, or is gone. */
  lemma ExactlyOnePlace(cfg: Config, steps: seq<Step>, c: Conn)
    requires Run(cfg, steps).Some? && c < Run(cfg, steps).value.dialed
    ensures var s := Run(cfg, steps).value;
            && c in s.place
            && (s.place[c].Gone? <==> (forall hop: nat :: !HeldBy(s, hop, c)) && (forall k: PoolKey, i: nat :: !InSlot(s, k, i, c)))
            && (forall h: nat, g: nat :: HeldBy(s, h, c) && HeldBy(s, g, c) ==> h == g)
            && (forall k: PoolKey, i: nat, l: PoolKey, j: nat :: InSlot(s, k, i, c) && InSlot(s, l, j, c) ==> k == l && i == j)
            && (forall h: nat, k: PoolKey, i: nat :: !(HeldBy(s, h, c) && InSlot(s, k, i, c)))
  {
    RunExact(cfg, steps);
    var s := Run(cfg, steps).value;
    match s.place[c]
    case Gone =>
    case Held(hop) => assert At(s, c, Held(hop)); assert HeldBy(s, hop, c);
    case Slot(k, i) => assert At(s, c, Slot(k, i)); assert InSlot(s, k, i, c);
  }

  lemma GoneStep(cfg: Config, s: State, step: Step, c: Conn)
    requires Exact(s) && Enabled(cfg, s, step) && At(s, c, Gone)
    ensures At(Apply(cfg, s, step), c, Gone)
  {
    forall hop: nat | hop in s.hops && s.hops[hop].phase.Holding? ensures s.hops[hop].phase.conn != c {
      assert HeldBy(s, hop, s.hops[hop].phase.conn);
    }
    if step.Begin? {
      var key := TargetOf(step.url, step.proxy).poolKey;
      var (conn, _) := Take(s.idle, key, s.now, cfg.timeout);
      if conn.Some? {
        TakeIsLastFresh(s.idle[key], s.now, cfg.timeout);
        assert InSlot(s, key, |TakeFrom(s.idle[key], s.now, cfg.timeout).1|, conn.value);
      }
    }
  }

  /** What is gone stays gone, however the run goes on: no hop ever holds it, no bucket keeps it. */
  lemma {:induction false} GoneForGood(cfg: Config, steps: seq<Step>, more: seq<Step>, c: Conn)
    requires Run(cfg, steps + more).Some?
    requires Run(cfg, steps).Some? && At(Run(cfg, steps).value, c, Gone)
    ensures var t := Run(cfg, steps + more).value;
            && At(t, c, Gone)
            && (forall hop: nat :: !HeldBy(t, hop, c))
            && (forall k: PoolKey, i: nat :: !InSlot(t, k, i, c))
  {
    if more == [] {
      assert steps + more == steps;
    } else {
      var init := more[..|more| - 1];
      assert (steps + more)[..|steps + more| - 1] == steps + init;
      GoneForGood(cfg, steps, init, c);
      RunExact(cfg, steps + init);
      GoneStep(cfg, Run(cfg, steps + init).value, more[|more| - 1], c);
    }
    RunExact(cfg, steps + more);
    GoneIsNowhere(Run(cfg, steps + more).value, c);
  }

  lemma GoneIsNowhere(s: State, c: Conn)
    requires Exact(s) && At(s, c, Gone)
    ensures forall hop: nat :: !HeldBy(s, hop, c)
    ensures forall k: PoolKey, i: nat :: !InSlot(s, k, i, c)
  {
    forall hop: nat ensures !HeldBy(s, hop, c) {
      assert !At(s, c, Held(hop));
    }
    forall k: PoolKey, i: nat ensures !InSlot(s, k, i, c) {
      assert !At(s, c, Slot(k, i));
    }
  }

  // Slots only ever gain a connection by `put`

  ghost predicate SlotsKept(s: State, t: State) {
    forall k: PoolKey :: Bucket(t.idle, k) <= Bucket(s.idle, k)
  }

  /** The key a put may add to, and the connection it adds. */
  function PutKey(s: State, step: Step): PoolKey {
    if step.Answered? && step.hop in s.hops then KeyOf(s.hops[step.hop]) else PoolKey("", "", 0)
  }

  function PutConn(s: State, step: Step): Conn {
    if step.Answered? && step.hop in s.hops && s.hops[step.hop].phase.Holding? then s.hops[step.hop].phase.conn else 0
  }

  predicate Puts(step: Step) {
    step.Answered? && Reusable(step.reply)
  }

  lemma BucketsStep(cfg: Config, s: State, step: Step)
    requires Enabled(cfg, s, step)
    ensures !Puts(step) ==> SlotsKept(s, Apply(cfg, s, step))
    ensures Puts(step) ==> Apply(cfg, s, step).idle == Put(s.idle, cfg.maxIdle, PutKey(s, step), PutConn(s, step), s.now)
  {
    if step.Begin? {
      var key := TargetOf(step.url, step.proxy).poolKey;
      TakeIsLastFresh(Bucket(s.idle, key), s.now, cfg.timeout);
    }
  }

  // Caps, stamps, keep-alive and set-up

  ghost predicate Capped(cfg: Config, s: State) {
    forall k: PoolKey :: |Bucket(s.idle, k)| <= cfg.maxIdle
  }

  ghost predicate StampsOk(s: State) {
    forall k: PoolKey :: Stamped(Bucket(s.idle, k), s.now)
  }

  ghost predicate RepliesOk(s: State) {
    forall k: PoolKey, i: nat, c: Conn :: InSlot(s, k, i, c) ==> c in s.replies && Reusable(s.replies[c])
  }

  predicate Legit(cfg: Config, route: (Url, Option<Server>)) {
    Supported(route.0) && (route.1.Some? ==> route.1.value in cfg.proxies)
  }

  function RouteKey(route: (Url, Option<Server>)): PoolKey {
    TargetOf(route.0, route.1).poolKey
  }

  predicate SetUpFor(cfg: Config, s: State, c: Conn, key: PoolKey) {
    c in s.setup && Legit(cfg, s.setup[c]) && RouteKey(s.setup[c]) == key
  }

  ghost predicate LegitHops(cfg: Config, s: State) {
    forall hop: nat :: hop in s.hops ==> Legit(cfg, (s.hops[hop].url, s.hops[hop].proxy))
  }

  ghost predicate SetupOk(cfg: Config, s: State) {
    && LegitHops(cfg, s)
    && (forall k: PoolKey, i: nat, c: Conn :: InSlot(s, k, i, c) ==> SetUpFor(cfg, s, c, k))
    && (forall hop: nat, c: Conn :: HeldBy(s, hop, c) ==> SetUpFor(cfg, s, c, KeyOf(s.hops[hop])))
  }

  lemma CappedStep(cfg: Config, s: State, step: Step)
    requires Enabled(cfg, s, step) && Capped(cfg, s)
    ensures Capped(cfg, Apply(cfg, s, step))
  {
    BucketsStep(cfg, s, step);
    var t := Apply(cfg, s, step);
    forall k: PoolKey ensures |Bucket(t.idle, k)| <= cfg.maxIdle {
      assert |Bucket(s.idle, k)| <= cfg.maxIdle;
    }
  }

  lemma StampsStep(cfg: Config, s: State, step: Step)
    requires Enabled(cfg, s, step) && StampsOk(s)
    ensures StampsOk(Apply(cfg, s, step))
  {
    BucketsStep(cfg, s, step);
    var t := Apply(cfg, s, step);
    forall k: PoolKey ensures Stamped(Bucket(t.idle, k), t.now) {
      assert Stamped(Bucket(s.idle, k), s.now);
    }
  }

  /** Where a connection found idle after a step came from. */
  lemma SlotOrigin(cfg: Config, s: State, step: Step, k: PoolKey, i: nat, c: Conn)
    requires Enabled(cfg, s, step) && InSlot(Apply(cfg, s, step), k, i, c)
    ensures InSlot(s, k, i, c) || (Puts(step) && k == PutKey(s, step) && c == PutConn(s, step))
  {
    BucketsStep(cfg, s, step);
    var t := Apply(cfg, s, step);
    assert Bucket(t.idle, k)[i].conn == c;
    if !Puts(step) {
      assert Bucket(t.idle, k) <= Bucket(s.idle, k);
    }
  }

  lemma RepliesStep(cfg: Config, s: State, step: Step)
    requires Exact(s) && Enabled(cfg, s, step) && RepliesOk(s)
    ensures RepliesOk(Apply(cfg, s, step))
  {
    var t := Apply(cfg, s, step);
    forall k: PoolKey, i: nat, c: Conn | InSlot(t, k, i, c) ensures c in t.replies && Reusable(t.replies[c]) {
      SlotOrigin(cfg, s, step, k, i, c);
      if InSlot(s, k, i, c) {
        assert At(s, c, Slot(k, i));
        if step.Answered? {
          assert HeldBy(s, step.hop, PutConn(s, step));
          assert c != PutConn(s, step);
        }
      }
    }
  }

  lemma HeldOrigin(cfg: Config, s: State, step: Step, hop: nat, c: Conn)
    requires Exact(s) && Enabled(cfg, s, step) && HeldBy(Apply(cfg, s, step), hop, c)
    ensures || HeldBy(s, hop, c)
            || (step.Begin? && hop == s.begun && exists i: nat :: InSlot(s, RouteKey((step.url, step.proxy)), i, c))
            || (step.DialOk? && hop == step.hop && c == s.dialed)
  {
    if step.Begin? && hop == s.begun {
      var key := RouteKey((step.url, step.proxy));
      TakeIsLastFresh(Bucket(s.idle, key), s.now, cfg.timeout);
      assert InSlot(s, key, |TakeFrom(Bucket(s.idle, key), s.now, cfg.timeout).1|, c);
    }
  }

  lemma LegitStep(cfg: Config, s: State, step: Step)
    requires Enabled(cfg, s, step) && LegitHops(cfg, s)
    ensures LegitHops(cfg, Apply(cfg, s, step))
  {
  }

  lemma SlotSetupStep(cfg: Config, s: State, step: Step, k: PoolKey, i: nat, c: Conn)
    requires Exact(s) && Enabled(cfg, s, step) && SetupOk(cfg, s) && InSlot(Apply(cfg, s, step), k, i, c)
    ensures SetUpFor(cfg, Apply(cfg, s, step), c, k)
  {
    SlotOrigin(cfg, s, step, k, i, c);
    if InSlot(s, k, i, c) {
      assert At(s, c, Slot(k, i));
      assert SetUpFor(cfg, s, c, k);
    } else {
      assert HeldBy(s, step.hop, c);
    }
    SetupStays(cfg, s, step, c, k);
  }

  /** A connection's set-up is recorded once. */
  lemma SetupStays(cfg: Config, s: State, step: Step, c: Conn, key: PoolKey)
    requires Exact(s) && Enabled(cfg, s, step) && c in s.place && SetUpFor(cfg, s, c, key)
    ensures SetUpFor(cfg, Apply(cfg, s, step), c, key)
  {
  }

  lemma HeldSetupStep(cfg: Config, s: State, step: Step, hop: nat, c: Conn)
    requires Exact(s) && Enabled(cfg, s, step) && SetupOk(cfg, s) && HeldBy(Apply(cfg, s, step), hop, c)
    ensures SetUpFor(cfg, Apply(cfg, s, step), c, KeyOf(Apply(cfg, s, step).hops[hop]))
  {
    HeldOrigin(cfg, s, step, hop, c);
    if HeldBy(s, hop, c) {
      assert At(s, c, Held(hop));
      SameRoute(cfg, s, step, hop);
      SetupStays(cfg, s, step, c, KeyOf(s.hops[hop]));
    } else if step.Begin? {
      var i: nat :| InSlot(s, RouteKey((step.url, step.proxy)), i, c);
      assert At(s, c, Slot(RouteKey((step.url, step.proxy)), i));
      SetupStays(cfg, s, step, c, RouteKey((step.url, step.proxy)));
    }
  }

  lemma SameRoute(cfg: Config, s: State, step: Step, hop: nat)
    requires hop < s.begun && Enabled(cfg, s, step) && hop in s.hops && hop in Apply(cfg, s, step).hops
    ensures var h := Apply(cfg, s, step).hops[hop]; h.url == s.hops[hop].url && h.proxy == s.hops[hop].proxy
  {
  }

  lemma SetupStep(cfg: Config, s: State, step: Step)
    requires Exact(s) && Enabled(cfg, s, step) && SetupOk(cfg, s)
    ensures SetupOk(cfg, Apply(cfg, s, step))
  {
    var t := Apply(cfg, s, step);
    LegitStep(cfg, s, step);
    forall k: PoolKey, i: nat, c: Conn | InSlot(t, k, i, c) ensures SetUpFor(cfg, t, c, k) {
      SlotSetupStep(cfg, s, step, k, i, c);
    }
    forall hop: nat, c: Conn | HeldBy(t, hop, c) ensures SetUpFor(cfg, t, c, KeyOf(t.hops[hop])) {
      HeldSetupStep(cfg, s, step, hop, c);
    }
  }

  /** All of it, over a whole run. */
  lemma {:induction false} RunSafe(cfg: Config, steps: seq<Step>)
    requires Run(cfg, steps).Some?
    ensures var s := Run(cfg, steps).value;
            Exact(s) && Capped(cfg, s) && StampsOk(s) && RepliesOk(s) && SetupOk(cfg, s)
  {
    RunExact(cfg, steps);
    if steps != [] {
      var init, step := steps[..|steps| - 1], steps[|steps| - 1];
      var s := Run(cfg, init).value;
      RunSafe(cfg, init);
      CappedStep(cfg, s, step);
      StampsStep(cfg, s, step);
      RepliesStep(cfg, s, step);
      SetupStep(cfg, s, step);
    }
  }

  ghost predicate AllUnconfusable(proxies: set<Server>) {
    forall p, q :: p in proxies && q in proxies ==> Unconfusable(p, q)
  }

  ghost predicate NoArrowOrigins(steps: seq<Step>) {
    forall i :: 0 <= i < |steps| && steps[i].Begin? ==> !HoldsArrow(steps[i].url.host)
  }

  ghost predicate OriginsOk(s: State) {
    && (forall hop: nat :: hop in s.hops ==> !HoldsArrow(s.hops[hop].url.host))
    && (forall c: Conn :: c in s.setup ==> !HoldsArrow(s.setup[c].0.host))
  }

  /** Every hop's URL, and every URL a connection was dialed for, is one that a hop began with. */
  lemma {:induction false} OriginsKept(cfg: Config, steps: seq<Step>)
    requires Run(cfg, steps).Some? && NoArrowOrigins(steps)
    ensures OriginsOk(Run(cfg, steps).value)
  {
    if steps != [] {
      OriginsKept(cfg, steps[..|steps| - 1]);
      OriginsStep(cfg, Run(cfg, steps[..|steps| - 1]).value, steps[|steps| - 1]);
    }
  }

  lemma OriginsStep(cfg: Config, s: State, step: Step)
    requires Enabled(cfg, s, step) && OriginsOk(s)
    requires step.Begin? ==> !HoldsArrow(step.url.host)
    ensures OriginsOk(Apply(cfg, s, step))
  {
  }

  /** Whatever connection a hop holds was set up for a target equivalent to the hop's own, if the
      proxies cannot be confused or no origin's host holds an arrow. */
  lemma ReusedConnectionsFit(cfg: Config, steps: seq<Step>, hop: nat, c: Conn)
    requires AllUnconfusable(cfg.proxies) || NoArrowOrigins(steps)
    requires Run(cfg, steps).Some? && HeldBy(Run(cfg, steps).value, hop, c)
    ensures var s := Run(cfg, steps).value;
            var h := s.hops[hop];
            c in s.setup && Equivalent(TargetOf(s.setup[c].0, s.setup[c].1), TargetOf(h.url, h.proxy))
  {
    RunSafe(cfg, steps);
    var s := Run(cfg, steps).value;
    var h := s.hops[hop];
    assert SetUpFor(cfg, s, c, KeyOf(h));
    if NoArrowOrigins(steps) {
      OriginsKept(cfg, steps);
    }
    EqualKeysEquivalent(s.setup[c].0, s.setup[c].1, h.url, h.proxy);
  }

  /** In every run, `take` hands out the freshest connection whose time is not up, or, exactly when
      there is none, nothing, leaving the bucket empty. */
  lemma BeginTakesFreshest(cfg: Config, steps: seq<Step>, url: Url, proxy: Option<Server>)
    requires Run(cfg, steps).Some? && Enabled(cfg, Run(cfg, steps).value, Begin(url, proxy))
    ensures var s := Run(cfg, steps).value;
            var t := Apply(cfg, s, Begin(url, proxy));
            var key := TargetOf(url, proxy).poolKey;
            var before, after := Bucket(s.idle, key), Bucket(t.idle, key);
            if exists i :: 0 <= i < |before| && s.now < before[i].since + cfg.timeout then
              && HeldBy(t, s.begun, before[|before| - 1].conn)
              && s.now < before[|before| - 1].since + cfg.timeout
              && after == before[..|before| - 1]
              && forall i :: 0 <= i < |before| ==> before[i].since <= before[|before| - 1].since
            else
              t.hops[s.begun].phase == Dialing && after == []
  {
    RunSafe(cfg, steps);
    var s := Run(cfg, steps).value;
    var key := TargetOf(url, proxy).poolKey;
    var before := Bucket(s.idle, key);
    assert Stamped(before, s.now);
    TakeIsFreshest(before, s.now, cfg.timeout);
    BeginTakes(cfg, s, url, proxy, TakeFrom(before, s.now, cfg.timeout).0, TakeFrom(before, s.now, cfg.timeout).1);
  }

  /** A hop that begins holds what `take` gave it, and the bucket is what `take` left. */
  lemma BeginTakes(cfg: Config, s: State, url: Url, proxy: Option<Server>, conn: Option<Conn>, rest: seq<Idle>)
    requires (conn, rest) == TakeFrom(Bucket(s.idle, TargetOf(url, proxy).poolKey), s.now, cfg.timeout)
    ensures var t := DoBegin(cfg, s, url, proxy);
            && Bucket(t.idle, TargetOf(url, proxy).poolKey) == rest
            && s.begun in t.hops
            && t.hops[s.begun].phase == if conn.Some? then Holding(conn.value, true) else Dialing
  {
  }

  // When connections are kept, and for how long

  /** Every idle connection's stamp is the time of its last answer. */
  ghost predicate TimesOk(s: State) {
    forall k: PoolKey, i: nat :: i < |Bucket(s.idle, k)| ==> Timed(s, Bucket(s.idle, k)[i])
  }

  predicate Timed(s: State, e: Idle) {
    e.conn in s.answeredAt && e.since == s.answeredAt[e.conn]
  }

  lemma TimedStays(cfg: Config, s: State, step: Step, k: PoolKey, i: nat)
    requires Exact(s) && Enabled(cfg, s, step) && i < |Bucket(s.idle, k)| && Timed(s, Bucket(s.idle, k)[i])
    ensures Timed(Apply(cfg, s, step), Bucket(s.idle, k)[i])
  {
    var c := Bucket(s.idle, k)[i].conn;
    assert InSlot(s, k, i, c);
    assert At(s, c, Slot(k, i));
    if step.Answered? {
      assert HeldBy(s, step.hop, PutConn(s, step));
    }
  }

  lemma TimesStep(cfg: Config, s: State, step: Step)
    requires Exact(s) && Enabled(cfg, s, step) && TimesOk(s)
    ensures TimesOk(Apply(cfg, s, step))
  {
    var t := Apply(cfg, s, step);
    BucketsStep(cfg, s, step);
    forall k: PoolKey, i: nat | i < |Bucket(t.idle, k)| ensures Timed(t, Bucket(t.idle, k)[i]) {
      if i < |Bucket(s.idle, k)| {
        TimedStays(cfg, s, step, k, i);
        assert Bucket(t.idle, k)[i] == Bucket(s.idle, k)[i];
      }
    }
  }

  lemma {:induction false} RunTimes(cfg: Config, steps: seq<Step>)
    requires Run(cfg, steps).Some?
    ensures TimesOk(Run(cfg, steps).value)
  {
    if steps != [] {
      RunTimes(cfg, steps[..|steps| - 1]);
      RunExact(cfg, steps[..|steps| - 1]);
      TimesStep(cfg, Run(cfg, steps[..|steps| - 1]).value, steps[|steps| - 1]);
    }
  }

  /** In every run, a hop that starts on a pooled connection starts within the timeout of that
      connection's last answer. */
  lemma ReusedInTime(cfg: Config, steps: seq<Step>, url: Url, proxy: Option<Server>, c: Conn)
    requires Run(cfg, steps).Some? && Enabled(cfg, Run(cfg, steps).value, Begin(url, proxy))
    requires var s := Run(cfg, steps).value; HeldBy(Apply(cfg, s, Begin(url, proxy)), s.begun, c)
    ensures var s := Run(cfg, steps).value; c in s.answeredAt && s.now < s.answeredAt[c] + cfg.timeout
  {
    RunTimes(cfg, steps);
    BeginTakesFreshest(cfg, steps, url, proxy);
    var s := Run(cfg, steps).value;
    var before := Bucket(s.idle, TargetOf(url, proxy).poolKey);
    assert before != [];
    assert Timed(s, before[|before| - 1]);
  }

  /** A reply leaves its connection usable: it was not read to the end of the connection, and no
      field of its `Connection` header is the word close, in any case. */
  predicate StaysOpen(reply: Reply) {
    && !reply.readToClose
    && (reply.connection.Some? ==>
          forall i :: 0 <= i < |Fields(reply.connection.value)| ==>
            Lower(Trim(Fields(reply.connection.value)[i])) != "close")
  }

  lemma ReusableExactly(reply: Reply)
    ensures Reusable(reply) <==> StaysOpen(reply)
  {
    LowerClose();
  }

  lemma LowerClose()
    ensures Lower("close") == "close"
  {
  }

  /** In every run, an idle connection's last reply left it usable. */
  lemma IdleStaysOpen(cfg: Config, steps: seq<Step>, k: PoolKey, i: nat, c: Conn)
    requires Run(cfg, steps).Some? && InSlot(Run(cfg, steps).value, k, i, c)
    ensures var s := Run(cfg, steps).value; c in s.replies && StaysOpen(s.replies[c])
  {
    RunSafe(cfg, steps);
    ReusableExactly(Run(cfg, steps).value.replies[c]);
  }

  /** An answered hop puts its connection, stamped with the time, on top of its key's bucket exactly
      when the reply left it usable and the bucket has room, and touches no other bucket. */
  lemma AnswerKeeps(cfg: Config, s: State, hop: nat, reply: Reply, k: PoolKey)
    requires Enabled(cfg, s, Answered(hop, reply))
    ensures var t := Apply(cfg, s, Answered(hop, reply));
            var before := Bucket(s.idle, k);
            Bucket(t.idle, k)
            == if k == KeyOf(s.hops[hop]) && StaysOpen(reply) && |before| < cfg.maxIdle then
                 before + [Idle(s.hops[hop].phase.conn, s.now)]
               else
                 before
  {
    ReusableExactly(reply);
  }

  // Peak bound

  function HopsOn(s: State, key: PoolKey): set<nat> {
    set hop | hop in s.hops && KeyOf(s.hops[hop]) == key
  }

  function InFlight(s: State, key: PoolKey): nat {
    |HopsOn(s, key)|
  }

  function Load(s: State, key: PoolKey): nat {
    |Bucket(s.idle, key)| + InFlight(s, key)
  }

  /** The most hops ever in flight at once on `key`. */
  function Peak(cfg: Config, steps: seq<Step>, key: PoolKey): nat {
    var here := if Run(cfg, steps).Some? then InFlight(Run(cfg, steps).value, key) else 0;
    if steps == [] then
      here
    else
      var before := Peak(cfg, steps[..|steps| - 1], key);
      if before > here then before else here
  }

  lemma EndingHop(s: State, t: State, hop: nat, key: PoolKey)
    requires hop in s.hops && t.hops == s.hops - {hop}
    ensures InFlight(t, key) == InFlight(s, key) - (if KeyOf(s.hops[hop]) == key then 1 else 0)
  {
    var before, after := HopsOn(s, key), HopsOn(t, key);
    assert after == before - {hop};
  }

  lemma BeginningHop(s: State, t: State, h: Hop, key: PoolKey)
    requires s.begun !in s.hops && t.hops == s.hops[s.begun := h]
    ensures InFlight(t, key) == InFlight(s, key) + (if KeyOf(h) == key then 1 else 0)
  {
    forall hop: nat ensures hop in HopsOn(t, key) <==> hop in HopsOn(s, key) || (hop == s.begun && KeyOf(h) == key) {
      if hop != s.begun && hop in s.hops {
        assert t.hops[hop] == s.hops[hop];
      }
    }
    OneMore(HopsOn(s, key), HopsOn(t, key), s.begun, KeyOf(h) == key);
  }

  lemma OneMore(before: set<nat>, after: set<nat>, hop: nat, added: bool)
    requires hop !in before
    requires forall x: nat :: x in after <==> x in before || (x == hop && added)
    ensures |after| == |before| + (if added then 1 else 0)
  {
    if added {
      assert after == before + {hop};
    } else {
      assert after == before;
    }
  }

  lemma SameHops(s: State, t: State, key: PoolKey)
    requires t.hops.Keys == s.hops.Keys
    requires forall hop :: hop in s.hops ==> KeyOf(t.hops[hop]) == KeyOf(s.hops[hop])
    ensures InFlight(t, key) == InFlight(s, key)
  {
    assert HopsOn(t, key) == HopsOn(s, key);
  }

  lemma BeginLoad(cfg: Config, s: State, url: Url, proxy: Option<Server>, key: PoolKey)
    requires Exact(s)
    ensures var t := DoBegin(cfg, s, url, proxy); Load(t, key) <= Load(s, key) || Load(t, key) == InFlight(t, key)
  {
    var t := DoBegin(cfg, s, url, proxy);
    BeginningHop(s, t, t.hops[s.begun], key);
    TakeIsLastFresh(Bucket(s.idle, key), s.now, cfg.timeout);
  }

  lemma PutLoad(cfg: Config, s: State, hop: nat, key: PoolKey)
    requires hop in s.hops && s.hops[hop].phase.Holding?
    ensures Load(DoPut(cfg, s, hop), key) <= Load(s, key)
  {
    EndingHop(s, DoPut(cfg, s, hop), hop, key);
  }

  lemma LoseLoad(s: State, hop: nat, key: PoolKey)
    requires hop in s.hops
    ensures Load(Lose(s, hop), key) <= Load(s, key)
  {
    EndingHop(s, Lose(s, hop), hop, key);
  }

  /** A step raises the load of a key only by beginning a hop that finds its bucket empty. */
  lemma LoadStep(cfg: Config, s: State, step: Step, key: PoolKey)
    requires Exact(s) && Enabled(cfg, s, step)
    ensures var t := Apply(cfg, s, step); Load(t, key) <= Load(s, key) || Load(t, key) == InFlight(t, key)
  {
    match step
    case Begin(url, proxy) => BeginLoad(cfg, s, url, proxy, key);
    case DialOk(hop) => SameHops(s, DoDialOk(s, hop), key);
    case DialFailed(hop) => LoseLoad(s, hop, key);
    case AttemptFailed(hop) =>
      if s.hops[hop].phase.pooled {
        SameHops(s, DoAttemptFailed(s, hop), key);
      } else {
        LoseLoad(s, hop, key);
      }
    case Answered(hop, reply) =>
      var told := Told(s, s.hops[hop].phase.conn, reply);
      SameHops(s, told, key);
      if Reusable(reply) {
        PutLoad(cfg, told, hop, key);
      } else {
        LoseLoad(told, hop, key);
      }
    case Streamed(hop) => LoseLoad(s, hop, key);
    case Dropped(hop) => LoseLoad(s, hop, key);
    case Tick(elapsed) => SameHops(s, s.(now := s.now + elapsed), key);
  }

  /** Idle connections plus hops in flight never exceed the peak number of hops in flight. */
  lemma {:induction false} LoadWithinPeak(cfg: Config, steps: seq<Step>, key: PoolKey)
    requires Run(cfg, steps).Some?
    ensures Load(Run(cfg, steps).value, key) <= Peak(cfg, steps, key)
  {
    if steps != [] {
      var init := steps[..|steps| - 1];
      LoadWithinPeak(cfg, init, key);
      RunExact(cfg, init);
      LoadStep(cfg, Run(cfg, init).value, steps[|steps| - 1], key);
    }
  }
}
