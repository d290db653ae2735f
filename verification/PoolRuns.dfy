/** Any number of hops sharing one pool, interleaved step by step. */
module PoolRuns {
  import opened Wrappers
  import opened Proxy
  import opened Routing
  import opened KeepAlive
  import opened Pool

  /** The proxies any hop of the run is routed through, besides the pool's own settings. */
  datatype Config = Config(maxIdle: nat, timeout: nat, proxies: set<Server>)

  /** A hop between `take` and its end: still dialing, or with a connection in hand. */
  datatype Phase = Dialing | Holding(conn: Conn, pooled: bool)

  datatype Hop = Hop(url: Url, proxy: Option<Server>, phase: Phase)

  datatype Place = Gone | Held(hop: nat) | Slot(key: PoolKey, index: nat)

  /** `place`, `setup`, `replies` and `answeredAt` only record what happened; no step looks at them. */
  datatype State = State(
    now: nat,
    idle: Buckets,
    hops: map<nat, Hop>,
    begun: nat,
    dialed: nat,
    place: map<Conn, Place>,
    setup: map<Conn, (Url, Option<Server>)>,
    replies: map<Conn, Reply>,
    answeredAt: map<Conn, nat>)

  datatype Step =
    | Begin(url: Url, proxy: Option<Server>)
    | DialOk(hop: nat)
    | DialFailed(hop: nat)
    | AttemptFailed(hop: nat)
    | Answered(hop: nat, reply: Reply)
    | Streamed(hop: nat)
    | Dropped(hop: nat)
    | Tick(elapsed: nat)

  function KeyOf(h: Hop): PoolKey {
    TargetOf(h.url, h.proxy).poolKey
  }

  const INITIAL: State := State(0, map[], map[], 0, 0, map[], map[], map[], map[])

  /** Where the popped entries of `key`'s bucket go. */
  function AfterTake(place: map<Conn, Place>, key: PoolKey, kept: nat, taken: Option<Conn>, hop: nat): map<Conn, Place> {
    map c | c in place ::
      if taken == Some(c) then Held(hop)
      else if place[c].Slot? && place[c].key == key && place[c].index >= kept then Gone
      else place[c]
  }

  function Release(s: State, hop: nat): State {
    s.(hops := s.hops - {hop})
  }

  /** The hop ends and its connection, if any, is closed or passes to the caller for good. */
  function Lose(s: State, hop: nat): State
    requires hop in s.hops
  {
    var phase := s.hops[hop].phase;
    Release(if phase.Holding? then s.(place := s.place[phase.conn := Gone]) else s, hop)
  }

  function DoBegin(cfg: Config, s: State, url: Url, proxy: Option<Server>): State {
    var key := TargetOf(url, proxy).poolKey;
    var (conn, idle) := Take(s.idle, key, s.now, cfg.timeout);
    s.(idle := idle,
       hops := s.hops[s.begun := Hop(url, proxy, if conn.Some? then Holding(conn.value, true) else Dialing)],
       begun := s.begun + 1,
       place := AfterTake(s.place, key, |Bucket(idle, key)|, conn, s.begun))
  }

  function DoDialOk(s: State, hop: nat): State
    requires hop in s.hops
  {
    var h := s.hops[hop];
    s.(hops := s.hops[hop := h.(phase := Holding(s.dialed, false))],
       dialed := s.dialed + 1,
       place := s.place[s.dialed := Held(hop)],
       setup := s.setup[s.dialed := (h.url, h.proxy)])
  }

  /** A failed pooled attempt goes on to dial; a failed fresh one ends the hop. */
  function DoAttemptFailed(s: State, hop: nat): State
    requires hop in s.hops && s.hops[hop].phase.Holding?
  {
    var h := s.hops[hop];
    if h.phase.pooled then
      s.(hops := s.hops[hop := h.(phase := Dialing)], place := s.place[h.phase.conn := Gone])
    else
      Lose(s, hop)
  }

  function DoPut(cfg: Config, s: State, hop: nat): State
    requires hop in s.hops && s.hops[hop].phase.Holding?
  {
    var key, conn := KeyOf(s.hops[hop]), s.hops[hop].phase.conn;
    var before := Bucket(s.idle, key);
    var stored := |before| < cfg.maxIdle;
    Release(s.(idle := Put(s.idle, cfg.maxIdle, key, conn, s.now),
               place := s.place[conn := if stored then Slot(key, |before|) else Gone]), hop)
  }

  function Told(s: State, conn: Conn, reply: Reply): State {
    s.(replies := s.replies[conn := reply], answeredAt := s.answeredAt[conn := s.now])
  }

  function DoAnswered(cfg: Config, s: State, hop: nat, reply: Reply): State
    requires hop in s.hops && s.hops[hop].phase.Holding?
  {
    var told := Told(s, s.hops[hop].phase.conn, reply);
    if Reusable(reply) then DoPut(cfg, told, hop) else Lose(told, hop)
  }

  /** When a step can happen. */
  predicate Enabled(cfg: Config, s: State, step: Step) {
    match step
    case Begin(url, proxy) => Supported(url) && (proxy.Some? ==> proxy.value in cfg.proxies)
    case DialOk(hop) => hop in s.hops && s.hops[hop].phase.Dialing?
    case DialFailed(hop) => hop in s.hops && s.hops[hop].phase.Dialing?
    case AttemptFailed(hop) => hop in s.hops && s.hops[hop].phase.Holding?
    case Answered(hop, _) => hop in s.hops && s.hops[hop].phase.Holding?
    case Streamed(hop) => hop in s.hops && s.hops[hop].phase.Holding?
    case Dropped(hop) => hop in s.hops
    case Tick(_) => true
  }

  function Apply(cfg: Config, s: State, step: Step): State
    requires Enabled(cfg, s, step)
  {
    match step
    case Begin(url, proxy) => DoBegin(cfg, s, url, proxy)
    case DialOk(hop) => DoDialOk(s, hop)
    case DialFailed(hop) => Release(s, hop)
    case AttemptFailed(hop) => DoAttemptFailed(s, hop)
    case Answered(hop, reply) => DoAnswered(cfg, s, hop, reply)
    case Streamed(hop) => Lose(s, hop)
    case Dropped(hop) => Lose(s, hop)
    case Tick(elapsed) => s.(now := s.now + elapsed)
  }

  /** The state after a run, if every step of it was possible. */
  function Run(cfg: Config, steps: seq<Step>): Option<State> {
    if steps == [] then
      Some(INITIAL)
    else
      var s :- Run(cfg, steps[..|steps| - 1]);
      if Enabled(cfg, s, steps[|steps| - 1]) then Some(Apply(cfg, s, steps[|steps| - 1])) else None
  }

  // Conservation: every connection opened is in one place

  predicate HeldBy(s: State, hop: nat, c: Conn) {
    hop in s.hops && s.hops[hop].phase.Holding? && s.hops[hop].phase.conn == c
  }

  predicate InSlot(s: State, key: PoolKey, i: nat, c: Conn) {
    i < |Bucket(s.idle, key)| && Bucket(s.idle, key)[i].conn == c
  }

  predicate At(s: State, c: Conn, p: Place) {
    c in s.place && s.place[c] == p
  }

  ghost predicate Exact(s: State) {
    && (forall c: Conn :: c in s.place <==> c < s.dialed)
    && (forall hop: nat, c: Conn :: HeldBy(s, hop, c) <==> At(s, c, Held(hop)))
    && (forall key: PoolKey, i: nat, c: Conn :: InSlot(s, key, i, c) <==> At(s, c, Slot(key, i)))
    && (forall hop: nat :: hop in s.hops ==> hop < s.begun)
  }

  lemma BeginExact(cfg: Config, s: State, url: Url, proxy: Option<Server>)
    requires Exact(s)
    ensures Exact(DoBegin(cfg, s, url, proxy))
  {
    var key := TargetOf(url, proxy).poolKey;
    var t := DoBegin(cfg, s, url, proxy);
    var before, after := Bucket(s.idle, key), Bucket(t.idle, key);
    TakeIsLastFresh(before, s.now, cfg.timeout);
    var (conn, _) := Take(s.idle, key, s.now, cfg.timeout);
    assert forall k: PoolKey :: k != key ==> Bucket(t.idle, k) == Bucket(s.idle, k);
    if conn.Some? {
      assert InSlot(s, key, |after|, conn.value);
      assert At(s, conn.value, Slot(key, |after|));
    }
    forall hop: nat, c: Conn ensures HeldBy(t, hop, c) <==> At(t, c, Held(hop)) {
      assert HeldBy(s, hop, c) <==> At(s, c, Held(hop));
    }
    forall k: PoolKey, i: nat, c: Conn ensures InSlot(t, k, i, c) <==> At(t, c, Slot(k, i)) {
      assert InSlot(s, k, i, c) <==> At(s, c, Slot(k, i));
    }
  }

  lemma DialOkExact(s: State, hop: nat)
    requires Exact(s) && hop in s.hops && s.hops[hop].phase.Dialing?
    ensures Exact(DoDialOk(s, hop))
  {
    var t := DoDialOk(s, hop);
    forall h: nat, c: Conn ensures HeldBy(t, h, c) <==> At(t, c, Held(h)) {
      assert HeldBy(s, h, c) <==> At(s, c, Held(h));
    }
    forall k: PoolKey, i: nat, c: Conn ensures InSlot(t, k, i, c) <==> At(t, c, Slot(k, i)) {
      assert InSlot(s, k, i, c) <==> At(s, c, Slot(k, i));
    }
  }

  lemma LoseExact(s: State, hop: nat)
    requires Exact(s) && hop in s.hops
    ensures Exact(Lose(s, hop))
  {
    var t := Lose(s, hop);
    if s.hops[hop].phase.Holding? {
      assert HeldBy(s, hop, s.hops[hop].phase.conn);
    }
    forall h: nat, c: Conn ensures HeldBy(t, h, c) <==> At(t, c, Held(h)) {
      assert HeldBy(s, h, c) <==> At(s, c, Held(h));
    }
    forall k: PoolKey, i: nat, c: Conn ensures InSlot(t, k, i, c) <==> At(t, c, Slot(k, i)) {
      assert InSlot(s, k, i, c) <==> At(s, c, Slot(k, i));
    }
  }

  lemma AttemptFailedExact(s: State, hop: nat)
    requires Exact(s) && hop in s.hops && s.hops[hop].phase.Holding?
    ensures Exact(DoAttemptFailed(s, hop))
  {
    if s.hops[hop].phase.pooled {
      var t := DoAttemptFailed(s, hop);
      assert HeldBy(s, hop, s.hops[hop].phase.conn);
      forall h: nat, c: Conn ensures HeldBy(t, h, c) <==> At(t, c, Held(h)) {
        assert HeldBy(s, h, c) <==> At(s, c, Held(h));
      }
      forall k: PoolKey, i: nat, c: Conn ensures InSlot(t, k, i, c) <==> At(t, c, Slot(k, i)) {
        assert InSlot(s, k, i, c) <==> At(s, c, Slot(k, i));
      }
    } else {
      LoseExact(s, hop);
    }
  }

  lemma PutExact(cfg: Config, s: State, hop: nat)
    requires Exact(s) && hop in s.hops && s.hops[hop].phase.Holding?
    ensures Exact(DoPut(cfg, s, hop))
  {
    var t := DoPut(cfg, s, hop);
    var key, conn := KeyOf(s.hops[hop]), s.hops[hop].phase.conn;
    assert HeldBy(s, hop, conn);
    assert forall k: PoolKey :: k != key ==> Bucket(t.idle, k) == Bucket(s.idle, k);
    forall h: nat, c: Conn ensures HeldBy(t, h, c) <==> At(t, c, Held(h)) {
      assert HeldBy(s, h, c) <==> At(s, c, Held(h));
    }
    forall k: PoolKey, i: nat, c: Conn ensures InSlot(t, k, i, c) <==> At(t, c, Slot(k, i)) {
      assert InSlot(s, k, i, c) <==> At(s, c, Slot(k, i));
    }
  }

  lemma ApplyExact(cfg: Config, s: State, step: Step)
    requires Exact(s) && Enabled(cfg, s, step)
    ensures Exact(Apply(cfg, s, step))
  {
    match step
    case Begin(url, proxy) => BeginExact(cfg, s, url, proxy);
    case DialOk(hop) => DialOkExact(s, hop);
    case DialFailed(hop) => LoseExact(s, hop);
    case AttemptFailed(hop) => AttemptFailedExact(s, hop);
    case Answered(hop, reply) =>
      var told := Told(s, s.hops[hop].phase.conn, reply);
      assert Exact(told) by {
        SameShapeExact(s, told);
      }
      if Reusable(reply) {
        PutExact(cfg, told, hop);
      } else {
        LoseExact(told, hop);
      }
    case Streamed(hop) => LoseExact(s, hop);
    case Dropped(hop) => LoseExact(s, hop);
    case Tick(elapsed) => SameShapeExact(s, s.(now := s.now + elapsed));
  }

  lemma SameShapeExact(s: State, t: State)
    requires Exact(s)
    requires t.place == s.place && t.idle == s.idle && t.hops == s.hops && t.dialed == s.dialed && t.begun == s.begun
    ensures Exact(t)
  {
    forall h: nat, c: Conn ensures HeldBy(t, h, c) <==> At(t, c, Held(h)) {
      assert HeldBy(s, h, c) <==> At(s, c, Held(h));
    }
    forall k: PoolKey, i: nat, c: Conn ensures InSlot(t, k, i, c) <==> At(t, c, Slot(k, i)) {
      assert InSlot(s, k, i, c) <==> At(s, c, Slot(k, i));
    }
  }

  lemma {:induction false} RunExact(cfg: Config, steps: seq<Step>)
    requires Run(cfg, steps).Some?
    ensures Exact(Run(cfg, steps).value)
  {
    if steps != [] {
      RunExact(cfg, steps[..|steps| - 1]);
      ApplyExact(cfg, Run(cfg, steps[..|steps| - 1]).value, steps[|steps| - 1]);
    }
  }
}
