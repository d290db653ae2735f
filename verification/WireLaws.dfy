/** The headers of a request on the wire, field by field. */
module WireLaws {
  import opened Wrappers
  import opened Text
  import opened TextLaws
  import opened Proxy
  import opened Http
  import opened Client
  import opened Events

  /** The jar's cookies behind the caller's own `Cookie`, if there are both. */
  function MergedCookie(callers: Option<string>, jar: string): string {
    if callers.Some? then callers.value + "; " + jar else jar
  }

  /** What the jar has for the URL, if there is a jar. */
  function JarCookies(w: World, s: Settings, h: History, url: Url): Option<string> {
    if s.cookieJar then w.cookieHeader(Stores(h), url) else None
  }

  /** The text of a body's length, if it is known: none, that of the bytes, or what the stream says. */
  function LengthText(body: Body): Option<string> {
    match body
    case Empty => Some("0")
    case Bytes(data) => Some(DecimalText(|data|))
    case Stream(length, _) => if length.Some? then Some(DecimalText(length.value)) else None
  }

  lemma LengthTextOf(body: Body)
    ensures LengthText(body) == if ContentLength(body).Some? then Some(DecimalText(ContentLength(body).value)) else None
  {
    DecimalTextSpells(0);
    var zero := DecimalText(0);
    assert Digits.Decimal(0) == [0x30];
    assert |zero| == 1;
    assert zero[0] == '0';
    assert zero == "0";
  }

  /** The values a wire header field of the name must have, given the loop's headers. */
  function WireValues(w: World, s: Settings, h: History, url: Url, body: Body, hopHeaders: Headers, name: string): seq<string> {
    var callers := All(hopHeaders, name);
    var jar := JarCookies(w, s, h, url);
    if Lower(name) == "content-length" && LengthText(body).Some? then
      [LengthText(body).value]
    else if Lower(name) == "transfer-encoding" && LengthText(body).None? then
      ["chunked"]
    else if Lower(name) == "connection" && !s.pool then
      ["close"]
    else if Lower(name) == "cookie" && jar.Some? then
      [MergedCookie(Http.Get(hopHeaders, name), jar.value)]
    else if Lower(name) == "accept" && callers == [] then
      ["*/*"]
    else
      callers
  }

  lemma LowerNames()
    ensures Lower(ACCEPT) == "accept" && Lower(COOKIE) == "cookie" && Lower(CONNECTION) == "connection"
    ensures Lower(CONTENT_LENGTH) == "content-length" && Lower(TRANSFER_ENCODING) == "transfer-encoding"
    ensures Lower(AUTHORIZATION) == "authorization" && AUTHORIZATION == "Authorization"
  {
  }

  lemma {:induction false} SameName(h: Headers, a: string, b: string)
    requires Lower(a) == Lower(b)
    ensures All(h, a) == All(h, b) && Http.Get(h, a) == Http.Get(h, b)
  {
    if h != [] {
      SameName(h[1..], a, b);
    }
  }

  lemma AcceptValues(hopHeaders: Headers, name: string)
    ensures All(WithAccept(hopHeaders), name)
         == if Lower(name) == "accept" && All(hopHeaders, name) == [] then ["*/*"] else All(hopHeaders, name)
  {
    LowerNames();
    AllInsert(hopHeaders, ACCEPT, "*/*", name);
    GetIsFirst(hopHeaders, ACCEPT);
    if Lower(name) == "accept" {
      SameName(hopHeaders, ACCEPT, name);
    }
  }

  lemma CookieValues(w: World, s: Settings, h: History, url: Url, hopHeaders: Headers, name: string)
    requires WithCookies(w, s, h, url, WithAccept(hopHeaders)).Some?
    ensures var jar := JarCookies(w, s, h, url);
            All(WithCookies(w, s, h, url, WithAccept(hopHeaders)).value, name)
            == if Lower(name) == "cookie" && jar.Some? then [MergedCookie(Http.Get(hopHeaders, name), jar.value)]
               else All(WithAccept(hopHeaders), name)
  {
    var accepted := WithAccept(hopHeaders);
    var jar := JarCookies(w, s, h, url);
    LowerNames();
    AcceptValues(hopHeaders, COOKIE);
    GetIsFirst(accepted, COOKIE);
    GetIsFirst(hopHeaders, COOKIE);
    if Lower(name) == "cookie" {
      SameName(hopHeaders, COOKIE, name);
    }
    if jar.Some? {
      AllInsert(accepted, COOKIE, MergedCookie(Http.Get(hopHeaders, COOKIE), jar.value), name);
    }
  }

  lemma ConnectionValues(s: Settings, h: Headers, name: string)
    ensures All(WithConnection(s, h), name) == if Lower(name) == "connection" && !s.pool then ["close"] else All(h, name)
  {
    LowerNames();
    AllInsert(h, CONNECTION, "close", name);
  }

  lemma FramingValues(body: Body, h: Headers, name: string)
    ensures All(WithFraming(body, h), name)
         == if Lower(name) == "content-length" && LengthText(body).Some? then [LengthText(body).value]
            else if Lower(name) == "transfer-encoding" && LengthText(body).None? then ["chunked"]
            else All(h, name)
  {
    LowerNames();
    LengthTextOf(body);
    match ContentLength(body)
    case Some(n) => AllInsert(h, CONTENT_LENGTH, DecimalText(n), name);
    case None => AllInsert(h, TRANSFER_ENCODING, "chunked", name);
  }

  /** `build_wire_headers` field by field: all values of every name, in any case. */
  lemma WireFields(w: World, s: Settings, h: History, url: Url, body: Body, hopHeaders: Headers, name: string)
    requires WireHeaders(w, s, h, url, body, hopHeaders).Some?
    ensures All(WireHeaders(w, s, h, url, body, hopHeaders).value, name)
         == WireValues(w, s, h, url, body, hopHeaders, name)
  {
    AcceptValues(hopHeaders, name);
    CookieValues(w, s, h, url, hopHeaders, name);
    var cookied := WithCookies(w, s, h, url, WithAccept(hopHeaders)).value;
    ConnectionValues(s, cookied, name);
    FramingValues(body, WithConnection(s, cookied), name);
    NamesApart(Lower(name));
  }

  lemma NamesApart(name: string)
    ensures name == "cookie" ==> name != "accept" && name != "connection"
    ensures name == "connection" ==> name != "accept"
  {
  }

  /** What the first value of a wire header field must be. */
  function WireField(w: World, s: Settings, h: History, url: Url, body: Body, hopHeaders: Headers, name: string): Option<string> {
    var values := WireValues(w, s, h, url, body, hopHeaders, name);
    if values == [] then None else Some(values[0])
  }

  lemma WireFirst(w: World, s: Settings, h: History, url: Url, body: Body, hopHeaders: Headers, name: string)
    requires WireHeaders(w, s, h, url, body, hopHeaders).Some?
    ensures Http.Get(WireHeaders(w, s, h, url, body, hopHeaders).value, name)
         == WireField(w, s, h, url, body, hopHeaders, name)
  {
    WireFields(w, s, h, url, body, hopHeaders, name);
    GetIsFirst(WireHeaders(w, s, h, url, body, hopHeaders).value, name);
  }

  /** A turn puts together a request exactly when the scheme is http or https and the cookies, if the
      jar has any, make a valid value; the request has the loop's verb, URL and body. */
  lemma MadeExactly(w: World, s: Settings, c: Chain, h: History)
    ensures var jar := JarCookies(w, s, h, c.url);
            Made(w, s, c, h).Some?
            <==> && (c.url.scheme == "http" || c.url.scheme == "https")
                 && (jar.Some? ==> w.validValue(MergedCookie(Http.Get(c.headers, "Cookie"), jar.value)))
    ensures Made(w, s, c, h).Some? ==>
              var r := Made(w, s, c, h).value; r.verb == c.verb && r.url == c.url && r.body == c.body
    ensures HopRequest(w, s, c, h).Err? ==>
              HopRequest(w, s, c, h).error
              == if c.url.scheme == "http" || c.url.scheme == "https" then Net(BadHeader) else UnsupportedScheme(c.url.scheme)
  {
    LowerNames();
    assert COOKIE == "Cookie";
    AcceptValues(c.headers, COOKIE);
    GetIsFirst(WithAccept(c.headers), COOKIE);
    GetIsFirst(c.headers, COOKIE);
  }

  /** The fields of a turn's request. */
  lemma MadeFields(w: World, s: Settings, c: Chain, h: History, name: string)
    requires Made(w, s, c, h).Some?
    ensures All(Made(w, s, c, h).value.headers, name) == WireValues(w, s, h, c.url, c.body, c.headers, name)
    ensures Http.Get(Made(w, s, c, h).value.headers, name) == WireField(w, s, h, c.url, c.body, c.headers, name)
  {
    WireFields(w, s, h, c.url, c.body, c.headers, name);
    WireFirst(w, s, h, c.url, c.body, c.headers, name);
  }
}
