/** Requests, responses and case-insensitive header fields. */
module Http {
  import opened Wrappers
  import opened Sequences
  import opened Text
  import opened Proxy
  import opened Retry

  datatype Field = Field(name: string, value: string)

  type Headers = seq<Field>

  /** The value of the first field with the name, in any case. */
  function Get(h: Headers, name: string): Option<string> {
    if h == [] then None
    else if SameIgnoringCase(h[0].name, name) then Some(h[0].value)
    else Get(h[1..], name)
  }

  predicate Has(h: Headers, name: string) {
    Get(h, name).Some?
  }

  function Remove(h: Headers, name: string): Headers {
    if h == [] then
      []
    else
      (if SameIgnoringCase(h[0].name, name) then [] else [h[0]]) + Remove(h[1..], name)
  }

  /** `HeaderMap::insert`: the only field of its name afterwards. */
  function Insert(h: Headers, name: string, value: string): Headers {
    Remove(h, name) + [Field(name, value)]
  }

  /** The values of every field with the name, in order. */
  function All(h: Headers, name: string): seq<string> {
    if h == [] then
      []
    else
      (if SameIgnoringCase(h[0].name, name) then [h[0].value] else []) + All(h[1..], name)
  }

  lemma {:induction false} GetConcat(a: Headers, b: Headers, name: string)
    ensures Get(a + b, name) == if Has(a, name) then Get(a, name) else Get(b, name)
  {
    if a == [] {
      assert a + b == b;
    } else {
      GetConcat(a[1..], b, name);
      assert (a + b)[1..] == a[1..] + b;
    }
  }

  lemma {:induction false} GetRemove(h: Headers, gone: string, name: string)
    ensures Get(Remove(h, gone), name) == if Lower(gone) == Lower(name) then None else Get(h, name)
  {
    if h != [] {
      GetRemove(h[1..], gone, name);
      GetConcat(if SameIgnoringCase(h[0].name, gone) then [] else [h[0]], Remove(h[1..], gone), name);
      GetOne(h[0], name);
    }
  }

  lemma GetOne(f: Field, name: string)
    ensures Get([f], name) == if Lower(f.name) == Lower(name) then Some(f.value) else None
  {
    assert [f][1..] == [];
  }

  lemma {:induction false} AllConcat(a: Headers, b: Headers, name: string)
    ensures All(a + b, name) == All(a, name) + All(b, name)
  {
    if a == [] {
      assert a + b == b;
    } else {
      AllConcat(a[1..], b, name);
      assert (a + b)[1..] == a[1..] + b;
      Assoc(All([a[0]], name), All(a[1..], name), All(b, name));
      AllOne(a[0], name);
    }
  }

  lemma AllOne(f: Field, name: string)
    ensures All([f], name) == if Lower(f.name) == Lower(name) then [f.value] else []
  {
    assert [f][1..] == [];
  }

  /** `get` is the first of the field's values. */
  lemma {:induction false} GetIsFirst(h: Headers, name: string)
    ensures Get(h, name) == if All(h, name) == [] then None else Some(All(h, name)[0])
  {
    if h != [] {
      GetIsFirst(h[1..], name);
    }
  }

  lemma {:induction false} AllRemove(h: Headers, gone: string, name: string)
    ensures All(Remove(h, gone), name) == if Lower(gone) == Lower(name) then [] else All(h, name)
  {
    if h != [] {
      AllRemove(h[1..], gone, name);
      AllConcat(if SameIgnoringCase(h[0].name, gone) then [] else [h[0]], Remove(h[1..], gone), name);
      AllOne(h[0], name);
    }
  }

  /** Insertion leaves one field of its name and every field of any other. */
  lemma AllInsert(h: Headers, added: string, value: string, name: string)
    ensures All(Insert(h, added, value), name) == if Lower(added) == Lower(name) then [value] else All(h, name)
  {
    AllRemove(h, added, name);
    AllConcat(Remove(h, added), [Field(added, value)], name);
    AllOne(Field(added, value), name);
  }

  lemma {:induction false} RemoveTwice(h: Headers, name: string)
    ensures Remove(Remove(h, name), name) == Remove(h, name)
  {
    if h != [] {
      RemoveTwice(h[1..], name);
      var rest := Remove(h[1..], name);
      if SameIgnoringCase(h[0].name, name) {
        assert Remove(h, name) == rest;
      } else {
        assert Remove(h, name)[1..] == rest;
      }
    }
  }

  /** A streaming body is a way to open its source, named by `source`. */
  datatype Body = Empty | Bytes(data: seq<int>) | Stream(length: Option<nat>, source: nat)

  /** `content_length`: unknown only for a stream built without one. */
  function ContentLength(b: Body): Option<nat> {
    match b
    case Empty => Some(0)
    case Bytes(data) => Some(|data|)
    case Stream(length, _) => length
  }

  datatype Request = Request(verb: Method, url: Url, headers: Headers, body: Body)

  datatype NetError = Io | Tls | ProxyConnectFailed(status: nat) | BadResponse | BadHeader

  datatype Error =
    | UnsupportedScheme(scheme: string)
    | Net(cause: NetError)
    | NoLocation(status: nat)
    | InvalidUrl
    | TooManyRedirects(max: nat)

  /** `data` is what the body delivers; a streaming caller has not read it yet. */
  datatype Response = Response(status: nat, headers: Headers, url: Url, data: seq<int>)

  predicate IsRedirect(status: nat) {
    status == 301 || status == 302 || status == 303 || status == 307 || status == 308
  }

  /** `redirect_method_and_body` (section 15.4 of RFC 9110). */
  function AfterRedirect(status: nat, verb: Method, body: Body): (Method, Body) {
    if status == 303 then (Method.Get, Empty)
    else if status == 307 || status == 308 then (verb, body)
    else if verb == Method.Get || verb == Method.Head then (verb, body)
    else (Method.Get, Empty)
  }

  /** Whether a redirect leaves the origin: host in any case, and port. */
  predicate SameOrigin(a: Url, b: Url) {
    SameIgnoringCase(a.host, b.host) && a.port == b.port
  }
}
