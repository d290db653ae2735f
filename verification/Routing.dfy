/** Where a hop connects, and what its pool key tells about that. */
module Routing {
  import opened Wrappers
  import opened Sequences
  import opened Text
  import opened Proxy

  datatype RequestTarget = OriginForm(url: Url) | AbsoluteForm(url: Url)

  datatype HopTarget = HopTarget(
    connectHost: string,
    connectPort: Port,
    connectTunnel: Option<(string, Port)>,
    tlsServerName: Option<string>,
    poolKey: PoolKey,
    requestTarget: RequestTarget)

  function DirectKey(url: Url): PoolKey {
    PoolKey(url.scheme, Lower(url.host), url.port)
  }

  /** `hop_target`. */
  function TargetOf(url: Url, proxy: Option<Server>): HopTarget {
    var isHttps := url.scheme == "https";
    if proxy.Some? && isHttps then
      HopTarget(proxy.value.host, proxy.value.port, Some((url.host, url.port)), Some(url.host),
                TunnelKey(proxy.value, url), OriginForm(url))
    else if proxy.Some? then
      HopTarget(proxy.value.host, proxy.value.port, None, None, ProxyKey(proxy.value), AbsoluteForm(url))
    else
      HopTarget(url.host, url.port, None, if isHttps then Some(url.host) else None, DirectKey(url), OriginForm(url))
  }

  /** The redirect loop lets no other scheme through. */
  predicate Supported(url: Url) {
    url.scheme == "http" || url.scheme == "https"
  }

  predicate SameName(a: Option<string>, b: Option<string>) {
    if a.Some? && b.Some? then SameIgnoringCase(a.value, b.value) else a.None? && b.None?
  }

  predicate SameTunnel(a: Option<(string, Port)>, b: Option<(string, Port)>) {
    if a.Some? && b.Some? then SameIgnoringCase(a.value.0, b.value.0) && a.value.1 == b.value.1 else a.None? && b.None?
  }

  /** A connection set up for one serves the other: same dial address, tunnel and TLS name. */
  predicate Equivalent(a: HopTarget, b: HopTarget) {
    && SameIgnoringCase(a.connectHost, b.connectHost) && a.connectPort == b.connectPort
    && SameTunnel(a.connectTunnel, b.connectTunnel)
    && SameName(a.tlsServerName, b.tlsServerName)
  }

  /** Where bytes written to the connection end up once any tunnel stands. */
  function FarEnd(t: HopTarget): (string, Port) {
    if t.connectTunnel.Some? then t.connectTunnel.value else (t.connectHost, t.connectPort)
  }

  /** An `https` hop reaches its origin and checks its name, through a proxy or not; an `http` hop
      reaches its origin, or asks a proxy for it by the absolute form. */
  lemma HopReachesOrigin(u: Url, proxy: Option<Server>)
    requires Supported(u)
    ensures var t := TargetOf(u, proxy);
            && (FarEnd(t) == (u.host, u.port) || (proxy.Some? && FarEnd(t) == (proxy.value.host, proxy.value.port)))
            && (u.scheme == "https" <==> t.tlsServerName == Some(u.host))
            && (t.tlsServerName.Some? ==> FarEnd(t) == (u.host, u.port))
            && (proxy.Some? ==> t.connectHost == proxy.value.host && t.connectPort == proxy.value.port)
            && (t.requestTarget.AbsoluteForm? <==> proxy.Some? && u.scheme == "http")
  {
  }

  // Decomposing a tunnel key

  lemma SplitAtLast(a: string, b: string, x: string, y: string, c: char)
    requires a + [c] + x == b + [c] + y
    requires c !in x && c !in y
    ensures a == b && x == y
  {
    var s, t := a + [c] + x, b + [c] + y;
    assert s[|a|] == c && t[|b|] == c;
    assert |a| == |b|;
    assert a == s[..|a|] && b == t[..|b|];
    assert x == s[|a| + 1..] && y == t[|b| + 1..];
  }

  /** The text before the host of a tunnel key names one proxy. */
  lemma PrefixNamesProxy(p: Server, q: Server)
    ensures TunnelPrefix(p) == TunnelPrefix(q) <==> SameIgnoringCase(p.host, q.host) && p.port == q.port
  {
    if TunnelPrefix(p) == TunnelPrefix(q) {
      var x, y := DecimalText(p.port) + "->", DecimalText(q.port) + "->";
      DecimalTextDigits(p.port);
      DecimalTextDigits(q.port);
      assert ':' !in "->";
      assert Lower(p.host) + [':'] + x == TunnelPrefix(p);
      assert Lower(q.host) + [':'] + y == TunnelPrefix(q);
      SplitAtLast(Lower(p.host), Lower(q.host), x, y, ':');
      assert DecimalText(p.port) == x[..|x| - 2] && DecimalText(q.port) == y[..|y| - 2];
      DecimalTextInjective(p.port, q.port);
    }
  }

  predicate ProperPrefix(a: string, b: string) {
    a < b
  }

  /** Neither proxy's tunnel prefix starts the other's: the check that rules confusion out. */
  predicate Unconfusable(p: Server, q: Server) {
    !ProperPrefix(TunnelPrefix(p), TunnelPrefix(q)) && !ProperPrefix(TunnelPrefix(q), TunnelPrefix(p))
  }

  lemma EqualFronts(a: string, x: string, b: string, y: string)
    requires a + x == b + y && !(a < b) && !(b < a)
    ensures a == b && x == y
  {
    assert (a + x)[..|a|] == a && (b + y)[..|b|] == b;
    var m := if |a| < |b| then |a| else |b|;
    assert a[..m] == (a + x)[..m] == b[..m];
    assert x == (a + x)[|a|..] && y == (b + y)[|b|..];
  }

  lemma TunnelKeysRoute(p: Server, u: Url, q: Server, v: Url)
    requires TunnelKey(p, u) == TunnelKey(q, v) && Unconfusable(p, q)
    ensures SameIgnoringCase(p.host, q.host) && p.port == q.port
    ensures SameIgnoringCase(u.host, v.host) && u.port == v.port
  {
    EqualFronts(TunnelPrefix(p), Lower(u.host), TunnelPrefix(q), Lower(v.host));
    PrefixNamesProxy(p, q);
  }

  predicate HoldsArrow(host: string) {
    '>' in host
  }

  /** A tunnel key splits the same way again when neither origin holds an arrow: the prefix is
      what ends with the last one. */
  lemma TunnelKeysSplit(p: Server, u: Url, q: Server, v: Url)
    requires TunnelKey(p, u) == TunnelKey(q, v)
    requires !HoldsArrow(u.host) && !HoldsArrow(v.host)
    ensures TunnelPrefix(p) == TunnelPrefix(q) && Lower(u.host) == Lower(v.host)
  {
    LowerArrow(u.host);
    LowerArrow(v.host);
    PrefixEnds(p);
    PrefixEnds(q);
    var a, b := TunnelPrefix(p), TunnelPrefix(q);
    SplitAtLast(a[..|a| - 1], b[..|b| - 1], Lower(u.host), Lower(v.host), '>');
  }

  lemma PrefixEnds(p: Server)
    ensures var s := TunnelPrefix(p); s != [] && s == s[..|s| - 1] + ['>']
  {
  }

  lemma LowerArrow(host: string)
    ensures HoldsArrow(Lower(host)) <==> HoldsArrow(host)
  {
    forall i | 0 <= i < |host| ensures Lower(host)[i] == '>' <==> host[i] == '>' {
    }
    if HoldsArrow(host) {
      var i :| 0 <= i < |host| && host[i] == '>';
      assert Lower(host)[i] == '>';
    }
  }

  /** What rules confusion out for a pair of hops: their proxies, or their origins. */
  predicate Distinguishable(u: Url, p: Option<Server>, v: Url, q: Option<Server>) {
    || (p.Some? && q.Some? ==> Unconfusable(p.value, q.value))
    || (!HoldsArrow(u.host) && !HoldsArrow(v.host))
  }

  /** Equal pool keys mean interchangeable connections. */
  lemma EqualKeysEquivalent(u: Url, p: Option<Server>, v: Url, q: Option<Server>)
    requires Supported(u) && Supported(v)
    requires Distinguishable(u, p, v, q)
    requires TargetOf(u, p).poolKey == TargetOf(v, q).poolKey
    ensures Equivalent(TargetOf(u, p), TargetOf(v, q))
  {
    var a, b := TargetOf(u, p), TargetOf(v, q);
    assert a.poolKey.kind == "connect-tunnel" <==> p.Some? && u.scheme == "https";
    assert b.poolKey.kind == "connect-tunnel" <==> q.Some? && v.scheme == "https";
    assert a.poolKey.kind == "proxy" <==> p.Some? && u.scheme == "http";
    assert b.poolKey.kind == "proxy" <==> q.Some? && v.scheme == "http";
    if p.Some? && u.scheme == "https" {
      if Unconfusable(p.value, q.value) {
        TunnelKeysRoute(p.value, u, q.value, v);
      } else {
        TunnelKeysSplit(p.value, u, q.value, v);
        PrefixNamesProxy(p.value, q.value);
      }
    }
  }

  /** Confusing two hops takes an arrow in an origin's host and one in a proxy's. */
  lemma ConfusionTakesArrows(u: Url, p: Option<Server>, v: Url, q: Option<Server>)
    requires Supported(u) && Supported(v)
    requires TargetOf(u, p).poolKey == TargetOf(v, q).poolKey
    requires !Equivalent(TargetOf(u, p), TargetOf(v, q))
    ensures HoldsArrow(u.host) || HoldsArrow(v.host)
    ensures p.Some? && q.Some? && (HoldsArrow(p.value.host) || HoldsArrow(q.value.host))
  {
    if !HoldsArrow(u.host) && !HoldsArrow(v.host) {
      EqualKeysEquivalent(u, p, v, q);
    }
    if p.None? || q.None? {
      EqualKeysEquivalent(u, p, v, q);
    } else if !HoldsArrow(p.value.host) && !HoldsArrow(q.value.host) {
      HostsWithoutArrow(p.value, q.value);
      EqualKeysEquivalent(u, p, v, q);
    }
  }

  /** Conversely, equivalent targets share a key if both or neither go through a proxy, whatever the
      case of any host, so reuse is not lost. */
  lemma EquivalentShareKey(u: Url, p: Option<Server>, v: Url, q: Option<Server>)
    requires Supported(u) && Supported(v) && p.Some? == q.Some?
    requires Equivalent(TargetOf(u, p), TargetOf(v, q))
    ensures TargetOf(u, p).poolKey == TargetOf(v, q).poolKey
  {
  }

  lemma LowerTail(p: Server, q: Server)
    requires TunnelPrefix(p) <= TunnelPrefix(q)
    ensures var tail := TunnelPrefix(q)[|TunnelPrefix(p)|..]; Lower(tail) == tail
  {
    var s := TunnelPrefix(q);
    DecimalTextDigits(q.port);
    LowerTwice(q.host);
    forall i | 0 <= i < |s| ensures LowerChar(s[i]) == s[i] {
      var host, port := Lower(q.host), DecimalText(q.port);
      if i < |host| {
        assert s[i] == host[i] == Lower(host)[i];
      } else if |host| < i <= |host| + |port| {
        assert s[i] == port[i - |host| - 1];
        assert s[i] in port;
      }
    }
  }

  /** Two `https` origins with hosts that the proxies' tunnel keys do not tell apart. */
  predicate Confused(p: Server, u: Url, q: Server, v: Url) {
    && u.scheme == "https" && v.scheme == "https" && u.host != [] && v.host != []
    && TunnelKey(p, u) == TunnelKey(q, v)
    && !Equivalent(TargetOf(u, Some(p)), TargetOf(v, Some(q)))
  }

  /** Two proxies are confused over some pair of origins exactly when the check fails; which
      origins those are, `ConfusionTakesArrows` says. */
  lemma ConfusedExactly(p: Server, q: Server)
    ensures !Unconfusable(p, q) <==> exists u: Url, v: Url :: Confused(p, u, q, v)
  {
    if ProperPrefix(TunnelPrefix(p), TunnelPrefix(q)) {
      var u, v := Confuse(p, q);
      assert Confused(p, u, q, v);
    } else if ProperPrefix(TunnelPrefix(q), TunnelPrefix(p)) {
      var v, u := Confuse(q, p);
      assert Confused(p, u, q, v);
    }
    if Unconfusable(p, q) {
      forall u: Url, v: Url ensures !Confused(p, u, q, v) {
        if Confused(p, u, q, v) {
          EqualKeysEquivalent(u, Some(p), v, Some(q));
        }
      }
    }
  }

  lemma Confuse(p: Server, q: Server) returns (u: Url, v: Url)
    requires ProperPrefix(TunnelPrefix(p), TunnelPrefix(q))
    ensures Confused(p, u, q, v) && Confused(q, v, p, u)
    ensures u.host == TunnelPrefix(q)[|TunnelPrefix(p)|..] + "a" && v.host == "a"
  {
    var tail := TunnelPrefix(q)[|TunnelPrefix(p)|..];
    LowerTail(p, q);
    u, v := Url("https", tail + "a", 443, ""), Url("https", "a", 443, "");
    LowerConcat(tail, "a");
    assert Lower("a") == "a";
    Assoc(TunnelPrefix(p), tail, "a");
    PrefixNamesProxy(p, q);
  }

  /** Proxy hosts without `>` always pass the check. */
  lemma HostsWithoutArrow(p: Server, q: Server)
    requires !HoldsArrow(p.host) && !HoldsArrow(q.host)
    ensures Unconfusable(p, q)
  {
    ArrowEnds(p);
    ArrowEnds(q);
    var s, t := TunnelPrefix(p), TunnelPrefix(q);
    assert s[|s| - 1] == '>' && t[|t| - 1] == '>';
    assert |s| < |t| ==> t[|s| - 1] != '>';
    assert |t| < |s| ==> s[|t| - 1] != '>';
  }

  lemma ArrowEnds(p: Server)
    requires !HoldsArrow(p.host)
    ensures forall i :: 0 <= i < |TunnelPrefix(p)| ==> (TunnelPrefix(p)[i] == '>' <==> i == |TunnelPrefix(p)| - 1)
  {
    var s, host, port := TunnelPrefix(p), Lower(p.host), DecimalText(p.port);
    DecimalTextDigits(p.port);
    forall i | 0 <= i < |s| ensures s[i] == '>' <==> i == |s| - 1 {
      if i < |host| {
        assert s[i] == LowerChar(p.host[i]) && p.host[i] in p.host;
      } else if |host| < i <= |host| + |port| {
        assert s[i] == port[i - |host| - 1];
        assert s[i] in port;
      }
    }
  }
}
