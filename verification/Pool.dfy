/** The idle-connection pool: per-key stacks of stamped connections. */
module Pool {
  import opened Wrappers
  import opened Proxy

  /** A connection's identity; the socket behind it is not modelled. */
  type Conn = nat

  datatype Idle = Idle(conn: Conn, since: nat)

  type Buckets = map<PoolKey, seq<Idle>>

  /** `duration_since`, which saturates at zero. */
  function Age(now: nat, since: nat): nat {
    if now > since then now - since else 0
  }

  predicate Fresh(e: Idle, now: nat, timeout: nat) {
    Age(now, e.since) < timeout
  }

  function Bucket(idle: Buckets, key: PoolKey): seq<Idle> {
    if key in idle then idle[key] else []
  }

  /** Pop until an entry within the timeout turns up. */
  function TakeFrom(entries: seq<Idle>, now: nat, timeout: nat): (Option<Conn>, seq<Idle>) {
    if entries == [] then
      (None, [])
    else
      var last, init := entries[|entries| - 1], entries[..|entries| - 1];
      if Fresh(last, now, timeout) then (Some(last.conn), init) else TakeFrom(init, now, timeout)
  }

  function Take(idle: Buckets, key: PoolKey, now: nat, timeout: nat): (Option<Conn>, Buckets) {
    if key !in idle then
      (None, idle)
    else
      var (conn, rest) := TakeFrom(idle[key], now, timeout);
      (conn, idle[key := rest])
  }

  function Put(idle: Buckets, maxIdle: nat, key: PoolKey, conn: Conn, now: nat): Buckets {
    if maxIdle == 0 then
      idle
    else
      var entries := Bucket(idle, key);
      idle[key := if |entries| < maxIdle then entries + [Idle(conn, now)] else entries]
  }

  /** An entry is fresh while less than the timeout has passed since its stamp. */
  lemma FreshExactly(e: Idle, now: nat, timeout: nat)
    ensures Fresh(e, now, timeout) <==> timeout > 0 && now < e.since + timeout
  {
  }

  /** What popping comes to: the last entry whose time is not up, everything above it dropped
      because its time is; nothing at all, and an empty bucket, exactly when every entry's is. */
  lemma {:induction false} TakeIsLastFresh(entries: seq<Idle>, now: nat, timeout: nat)
    ensures var (conn, rest) := TakeFrom(entries, now, timeout);
            && rest <= entries
            && (forall i :: |rest| < i < |entries| ==> timeout == 0 || entries[i].since + timeout <= now)
            && (conn.Some? ==>
                  |rest| < |entries| && entries[|rest|].conn == conn.value && 0 < timeout && now < entries[|rest|].since + timeout)
            && (conn.None? ==> rest == [])
            && (conn.None? <==> timeout == 0 || forall i :: 0 <= i < |entries| ==> entries[i].since + timeout <= now)
  {
    if entries != [] {
      var last, init := entries[|entries| - 1], entries[..|entries| - 1];
      FreshExactly(last, now, timeout);
      if !Fresh(last, now, timeout) {
        TakeIsLastFresh(init, now, timeout);
        var rest := TakeFrom(entries, now, timeout).1;
        forall i | |rest| < i < |entries| ensures timeout == 0 || entries[i].since + timeout <= now {
          if i < |init| {
            assert entries[i] == init[i];
          }
        }
      }
    }
  }

  predicate Stamped(entries: seq<Idle>, now: nat) {
    && (forall i, j :: 0 <= i < j < |entries| ==> entries[i].since <= entries[j].since)
    && (forall i :: 0 <= i < |entries| ==> entries[i].since <= now)
  }

  /** With stamps in order, the one taken is the freshest there is, and only it leaves. */
  lemma TakeIsFreshest(entries: seq<Idle>, now: nat, timeout: nat)
    requires Stamped(entries, now)
    ensures var (conn, rest) := TakeFrom(entries, now, timeout);
            if exists i :: 0 <= i < |entries| && now < entries[i].since + timeout then
              && rest == entries[..|entries| - 1]
              && conn == Some(entries[|entries| - 1].conn)
              && now < entries[|entries| - 1].since + timeout
              && forall i :: 0 <= i < |entries| ==> entries[i].since <= entries[|entries| - 1].since
            else
              conn.None? && rest == []
  {
    TakeIsLastFresh(entries, now, timeout);
    if i :| 0 <= i < |entries| && now < entries[i].since + timeout {
      assert entries[i].since <= entries[|entries| - 1].since;
      FreshExactly(entries[|entries| - 1], now, timeout);
    }
  }

  class ConnectionPool {
    var idle: Buckets
    const maxIdlePerOrigin: nat
    const idleTimeout: nat

    constructor (maxIdlePerOrigin: nat, idleTimeout: nat)
      ensures idle == map[]
      ensures this.maxIdlePerOrigin == maxIdlePerOrigin && this.idleTimeout == idleTimeout
    {
      idle := map[];
      this.maxIdlePerOrigin := maxIdlePerOrigin;
      this.idleTimeout := idleTimeout;
    }

    /** `now` is read once, under the lock. */
    method TakeConn(key: PoolKey, now: nat) returns (conn: Option<Conn>)
      modifies this
      ensures (conn, idle) == Take(old(idle), key, now, idleTimeout)
      ensures var before, after := Bucket(old(idle), key), Bucket(idle, key);
              && after <= before
              && (conn.Some? ==>
                    |after| < |before| && before[|after|].conn == conn.value
                    && 0 < idleTimeout && now < before[|after|].since + idleTimeout)
              && (conn.None? <==>
                    idleTimeout == 0 || forall i :: 0 <= i < |before| ==> before[i].since + idleTimeout <= now)
    {
      TakeIsLastFresh(Bucket(idle, key), now, idleTimeout);
      if key !in idle {
        return None;
      }
      ghost var before := idle[key];
      while idle[key] != []
        invariant key in idle && idle == old(idle)[key := idle[key]]
        invariant TakeFrom(idle[key], now, idleTimeout) == TakeFrom(before, now, idleTimeout)
        decreases |idle[key]|
      {
        var entries := idle[key];
        var entry := entries[|entries| - 1];
        idle := idle[key := entries[..|entries| - 1]];
        assert idle == old(idle)[key := entries[..|entries| - 1]];
        if Age(now, entry.since) < idleTimeout {
          return Some(entry.conn);
        }
      }
      conn := None;
    }

    method PutConn(key: PoolKey, conn: Conn, now: nat)
      modifies this
      ensures idle == Put(old(idle), maxIdlePerOrigin, key, conn, now)
      ensures var before := Bucket(old(idle), key);
              Bucket(idle, key) == if |before| < maxIdlePerOrigin then before + [Idle(conn, now)] else before
      ensures forall k: PoolKey :: k != key ==> Bucket(idle, k) == Bucket(old(idle), k)
    {
      if maxIdlePerOrigin == 0 {
        return;
      }
      if key !in idle {
        idle := idle[key := []];
      }
      if |idle[key]| < maxIdlePerOrigin {
        idle := idle[key := idle[key] + [Idle(conn, now)]];
      }
    }
  }
}
