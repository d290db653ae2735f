/** Forward proxies: their pool keys, and `NO_PROXY` rules. */
module Proxy {
  import opened Wrappers
  import opened Sequences
  import opened Text

  type Port = p: int | 0 <= p < 0x1_0000

  datatype Url = Url(scheme: string, host: string, port: Port, path: string)

  datatype Server = Server(host: string, port: Port)

  datatype PoolKey = PoolKey(kind: string, host: string, port: Port)

  function ProxyKey(p: Server): PoolKey {
    PoolKey("proxy", Lower(p.host), p.port)
  }

  /** The part of a tunnel's key that names the proxy. */
  function TunnelPrefix(p: Server): string {
    Lower(p.host) + (":" + (DecimalText(p.port) + "->"))
  }

  function TunnelKey(p: Server, url: Url): PoolKey {
    PoolKey("connect-tunnel", TunnelPrefix(p) + Lower(url.host), url.port)
  }

  // NO_PROXY

  function Normalise(entry: string): string {
    Lower(TrimDots(Trim(entry)))
  }

  /** `from_hosts`: normalise each entry, drop the empty ones. */
  function FromHosts(hosts: seq<string>): seq<string> {
    if hosts == [] then
      []
    else
      (if Normalise(hosts[0]) == [] then [] else [Normalise(hosts[0])]) + FromHosts(hosts[1..])
  }

  function ParseRules(spec: string): seq<string> {
    FromHosts(Fields(spec))
  }

  predicate EndsWith(s: string, suffix: string) {
    |suffix| <= |s| && s[|s| - |suffix|..] == suffix
  }

  predicate Matches(entry: string, host: string) {
    entry == "*" || host == entry || EndsWith(host, "." + entry)
  }

  predicate Bypasses(rules: seq<string>, host: string) {
    exists i :: 0 <= i < |rules| && Matches(rules[i], Lower(host))
  }

  lemma {:induction false} FromHostsConcat(a: seq<string>, b: seq<string>)
    ensures FromHosts(a + b) == FromHosts(a) + FromHosts(b)
  {
    if a == [] {
      assert a + b == b;
    } else {
      FromHostsConcat(a[1..], b);
      assert (a + b)[1..] == a[1..] + b;
      Assoc(if Normalise(a[0]) == [] then [] else [Normalise(a[0])], FromHosts(a[1..]), FromHosts(b));
    }
  }

  /** The rules are the entries, trimmed, without leading dots and in small letters; empty ones go. */
  lemma {:induction false} RulesExactly(hosts: seq<string>, rule: string)
    ensures rule in FromHosts(hosts)
       <==> rule != [] && exists i :: 0 <= i < |hosts| && rule == Lower(TrimDots(Trim(hosts[i])))
  {
    if hosts != [] {
      RulesExactly(hosts[1..], rule);
      if i :| 0 <= i < |hosts| && rule == Lower(TrimDots(Trim(hosts[i]))) {
        if i > 0 {
          assert hosts[1..][i - 1] == hosts[i];
        }
      }
      if i :| 0 <= i < |hosts[1..]| && rule == Lower(TrimDots(Trim(hosts[1..][i]))) {
        assert hosts[i + 1] == hosts[1..][i];
      }
    }
  }

  /** A rule names a host: everything, the host itself, or a domain the host is in. */
  predicate Names(rule: string, host: string) {
    && rule != []
    && (rule == "*" || host == rule || (|host| > |rule| && host[|host| - |rule| - 1..] == "." + rule))
  }

  /** A host is bypassed exactly when some entry of the list, once trimmed, names it. */
  lemma SpecDecides(spec: string, host: string)
    ensures Bypasses(ParseRules(spec), host)
       <==> exists i :: 0 <= i < |Fields(spec)| && Names(Lower(TrimDots(Trim(Fields(spec)[i]))), Lower(host))
  {
    var hosts, rules := Fields(spec), ParseRules(spec);
    if Bypasses(rules, host) {
      var k :| 0 <= k < |rules| && Matches(rules[k], Lower(host));
      RulesExactly(hosts, rules[k]);
      assert rules[k] in rules;
      var i :| 0 <= i < |hosts| && rules[k] == Lower(TrimDots(Trim(hosts[i])));
      assert Names(Lower(TrimDots(Trim(hosts[i]))), Lower(host));
    }
    if i :| 0 <= i < |hosts| && Names(Lower(TrimDots(Trim(hosts[i]))), Lower(host)) {
      var rule := Lower(TrimDots(Trim(hosts[i])));
      RulesExactly(hosts, rule);
      assert rule in rules;
      var k :| 0 <= k < |rules| && rules[k] == rule;
      assert Matches(rules[k], Lower(host));
    }
  }

  lemma BypassesConcat(a: seq<string>, b: seq<string>, host: string)
    ensures Bypasses(a + b, host) <==> Bypasses(a, host) || Bypasses(b, host)
  {
    if Bypasses(a, host) {
      var i :| 0 <= i < |a| && Matches(a[i], Lower(host));
      assert (a + b)[i] == a[i];
    }
    if Bypasses(b, host) {
      var i :| 0 <= i < |b| && Matches(b[i], Lower(host));
      assert (a + b)[|a| + i] == b[i];
    }
  }

  /** Joining two specs with a comma bypasses what either bypasses. */
  lemma SpecsCombine(a: string, b: string, host: string)
    ensures Bypasses(ParseRules(a + "," + b), host)
       <==> Bypasses(ParseRules(a), host) || Bypasses(ParseRules(b), host)
  {
    FieldsConcat(a, b);
    FromHostsConcat(Fields(a), Fields(b));
    BypassesConcat(ParseRules(a), ParseRules(b), host);
  }

  lemma NormaliseIgnoresCase(a: string, b: string)
    requires SameIgnoringCase(a, b)
    ensures Normalise(a) == Normalise(b)
  {
    TrimStartLower(a);
    TrimStartLower(b);
    TrimEndLower(TrimStart(a));
    TrimEndLower(TrimStart(b));
    TrimDotsLower(Trim(a));
    TrimDotsLower(Trim(b));
  }

  /** A leading dot makes no difference to a rule, except that white space behind the dot stays. */
  lemma LeadingDotIgnored(entry: string)
    ensures Normalise("." + entry) == Normalise(entry)
       <==> entry == [] || !IsWhite(entry[0]) || AllWhite(entry)
  {
    DottedRule(entry);
    if entry == [] || !IsWhite(entry[0]) {
      assert TrimStart(entry) == entry;
    } else if AllWhite(entry) {
      TrimmedAway(entry);
    } else {
      TrimShortens(entry);
    }
  }

  /** What is left of an entry behind a dot. */
  lemma DottedRule(entry: string)
    ensures Normalise("." + entry) == Lower(TrimDots(TrimEnd(entry)))
  {
    var dotted := "." + entry;
    assert TrimStart(dotted) == dotted;
    TrimEndKeeps('.', entry);
    assert ("." + TrimEnd(entry))[1..] == TrimEnd(entry);
  }

  lemma TrimmedAway(entry: string)
    requires AllWhite(entry)
    ensures TrimEnd(entry) == [] && TrimStart(entry) == []
  {
    TrimEndPadded([], entry);
    assert [] + entry == entry;
    TrimStartOfConcat(entry, []);
  }

  lemma TrimShortens(entry: string)
    requires entry != [] && IsWhite(entry[0]) && !AllWhite(entry)
    ensures |TrimDots(Trim(entry))| < |TrimDots(TrimEnd(entry))|
  {
    var rest := entry[1..];
    assert entry == [entry[0]] + rest;
    assert !AllWhite(rest);
    TrimEndBeforeInk(entry[0], rest);
    assert TrimEnd(entry)[0] == entry[0] && TrimDots(TrimEnd(entry)) == TrimEnd(entry);
    TrimShorter(rest);
    DotsShorter(Trim(entry));
  }

  /** Nor does white space around it. */
  lemma PaddingIgnored(before: string, entry: string, after: string)
    requires AllWhite(before) && AllWhite(after)
    ensures Normalise(before + (entry + after)) == Normalise(entry)
  {
    TrimPadded(before, entry, after);
  }

  lemma {:induction false} FromHostsIgnoresCase(a: seq<string>, b: seq<string>)
    requires |a| == |b| && forall i :: 0 <= i < |a| ==> SameIgnoringCase(a[i], b[i])
    ensures FromHosts(a) == FromHosts(b)
  {
    if a != [] {
      NormaliseIgnoresCase(a[0], b[0]);
      FromHostsIgnoresCase(a[1..], b[1..]);
    }
  }

  /** Neither the case of the rules nor that of the host matters. */
  lemma BypassIgnoresCase(rules: seq<string>, other: seq<string>, host: string, same: string)
    requires |rules| == |other| && forall i :: 0 <= i < |rules| ==> SameIgnoringCase(rules[i], other[i])
    requires SameIgnoringCase(host, same)
    ensures Bypasses(FromHosts(rules), host) <==> Bypasses(FromHosts(other), same)
  {
    FromHostsIgnoresCase(rules, other);
  }

  /** A label boundary: the start of the name, or just after a dot. */
  predicate LabelStart(host: string, i: nat) {
    i <= |host| && (i == 0 || host[i - 1] == '.')
  }

  /** Bypassed exactly when a rule is `*` or names the rest of the host from a label boundary. */
  lemma BypassesAtLabels(rules: seq<string>, host: string)
    ensures Bypasses(rules, host)
       <==> "*" in rules || exists i: nat :: LabelStart(Lower(host), i) && Lower(host)[i..] in rules
  {
    var h := Lower(host);
    if Bypasses(rules, host) {
      var k :| 0 <= k < |rules| && Matches(rules[k], h);
      var e := rules[k];
      if e != "*" {
        var i := |h| - |e|;
        if h == e {
          assert h[0..] == h;
          assert LabelStart(h, 0) && h[0..] in rules;
        } else {
          var dotted := "." + e;
          assert h[|h| - |dotted|..] == dotted;
          assert h[i - 1] == dotted[0] && h[i..] == dotted[1..] == e;
          assert LabelStart(h, i) && h[i..] in rules;
        }
      }
    }
    if "*" in rules {
      var k :| 0 <= k < |rules| && rules[k] == "*";
      assert Matches(rules[k], h);
    }
    if i: nat :| LabelStart(h, i) && h[i..] in rules {
      var k :| 0 <= k < |rules| && rules[k] == h[i..];
      if i == 0 {
        assert h[0..] == h;
      } else {
        assert h[i - 1..] == "." + h[i..];
      }
      assert Matches(rules[k], h);
    }
  }

  lemma EndsWithExtends(before: string, s: string, suffix: string)
    requires EndsWith(s, suffix)
    ensures EndsWith(before + s, suffix)
  {
    assert (before + s)[|before + s| - |suffix|..] == s[|s| - |suffix|..];
  }

  /** Whatever is bypassed, its subdomains are too. */
  lemma SubdomainsBypass(rules: seq<string>, prefix: string, host: string)
    requires Bypasses(rules, host)
    ensures Bypasses(rules, prefix + "." + host)
  {
    var h := Lower(host);
    LowerConcat(prefix + ".", host);
    LowerConcat(prefix, ".");
    var k :| 0 <= k < |rules| && Matches(rules[k], h);
    if rules[k] != "*" {
      var dotted := "." + rules[k];
      if h == rules[k] {
        EndsWithExtends(Lower(prefix), dotted, dotted);
        assert Lower(prefix) + dotted == Lower(prefix) + "." + h;
      } else {
        EndsWithExtends(Lower(prefix) + ".", h, dotted);
      }
    }
    assert Matches(rules[k], Lower(prefix + "." + host));
  }

  /** `active_proxy`. */
  function ActiveProxy(proxy: Option<Server>, rules: seq<string>, url: Url): Option<Server> {
    if proxy.Some? && !Bypasses(rules, url.host) then proxy else None
  }
}
