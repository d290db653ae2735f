# Verified model of the rusty_request HTTP client

A Dafny model of the parts of the client that decide something: the JSON printer and parser, the
request engine (retries around redirects around one hop), the connection pool with its routing and
pool keys, the multipart and base64 encoders, `NO_PROXY` matching and backoff arithmetic. There are
no bounds on sizes or steps, and the laws of redirect chains hold of the buffered and the streaming
loop for every server, dialer and pool; where a result has a condition, its row in the table says so.

`dafny verify dfyconfig.toml` checks the whole project.

## How it is laid out

- **JSON.** `Utf8` is RFC 3629 UTF-8. `JsonLiteral`, `JsonNumber` and `JsonNumeral` are number literals
  and their worth, `JsonValue` the value type with `insert`, `push` and the retain-then-push loop,
  `JsonWriter` the serializer that appends to a buffer. `JsonParser` is the mutable-cursor parser; each of its methods is proved against
  a function of the unread bytes in `JsonSpec`. `JsonSyntax` is an independent grammar of concrete
  syntax trees with their texts and meanings, and inside it the sub-grammar of RFC 8259;
  `JsonAccepts` and `JsonReconstruct` prove the two directions of "parsed exactly when in the grammar",
  `JsonUnambiguous` that the trees of one text agree on being RFC 8259, `JsonRoundTrip` puts printer,
  parser and grammar together, `JsonBoundaries` shows that the cursor never stops inside a character,
  and `JsonTexts` says what texts written out character by character parse to, without the grammar's
  own tables.
- **Encoders.** `Base64` and `Multipart` hold the encoding loops, each against a strict decoder
  (`MultipartDecoder` for the latter, built on delimiter search in `Splitting`); `MultipartText` is the
  multipart format as text, literal by literal.
- **Routing and pool.** `Proxy` (keys and `NO_PROXY`), `Routing` (`hop_target` and when two targets
  share a key), `KeepAlive`, `Pool` (the class and the functions its methods compute), `PoolRuns` (any
  number of hops interleaved over one pool, as a state machine whose clock never goes back) and
  `PoolSafety` (what every run keeps).
- **Engine.** `Http` and `Client` hold one hop, one turn, the two redirect loops and the retry loop, as
  methods with loops and as the functions they compute. The server answers as an arbitrary function of
  all requests seen so far; the URL resolver, cookie jar, dialer, random source and what the pool has to
  offer are arbitrary too. A history of events records every dial phase, request, cookie store and
  sleep. `Events`, `WireLaws`, `RedirectLaws`, `CallerLaws`, `SendLaws` and `StreamingLaws` are its
  laws: of one hop, of a request's fields, of a chain, of what becomes of the caller's request, of a
  whole send, and of one loop against the other. They name statuses, methods, header fields, hosts and
  ports outright, not through the model's own tests for them.
- **Text.** `Text` and its laws in `TextLaws`: ASCII case, white space, trimming, decimal numbers.
- **Backoff.** `Retry`, in nanoseconds, with the limits of `Duration`, `u32`, `u64` and `u128` explicit.

## What the code does where its promise is broader

- `Value::parse` accepts more than RFC 8259: leading zeros, no digit after the point, none before it
  behind a minus sign, raw control characters in strings, and a sign inside `\u` escapes
  (`u32::from_str_radix` takes `+041`); `LaxNumeral` and `LaxPiece` prove that nothing else is in the
  gap. The grammar proved exact is the code's; an accepted text is RFC 8259 exactly when any tree of
  that grammar for it is.
- A value comes back from its printed text exactly when it holds no NaN or infinity and no object in
  it repeats a key (a value built by hand can repeat one; a parsed one cannot).
- `build_wire_headers` says a caller's framing header is never trusted (src/client.rs:885-888). That
  holds for the framing header the body uses; the other one, if the caller set it, stays on the wire.
  The exact condition is proved.
- A multipart body can be read back exactly when no name, filename or content type holds CR LF and no
  delimiter is hidden in CR LF followed by a value; only the second is left to the random boundary.
- The key of a tunnel is one string, `host:port->host`. Two proxies can be confused exactly when one's
  prefix of that string properly starts the other's. It takes a `>` in a proxy's host and one in an
  origin's host; whether the URL parser lets such a host through is not part of this model.
- A dot in front of a `NO_PROXY` entry makes no difference unless white space stands behind it: the
  dot then keeps that white space from being trimmed.
- The fallback from a pooled to a fresh connection resends any method, POST included.
- `put` counts entries that have expired but have not been taken (src/pool.rs:67).

## Model

| member | source | states |
|---|---|---|
| JsonRoundTrip.RoundTripExactly | src/json.rs:104-182 | Printing then parsing returns the very same value if and only if all its numbers are finite and no object in it repeats a key. |
| JsonRoundTrip.StopsAtTheEnd | src/json.rs:262-287 | Started on a printed value followed by a comma, a closing bracket or brace, white space or nothing, the value parser returns the value and stops exactly at the end of its text. |
| JsonRoundTrip.AcceptsExactlyTheGrammar | src/json.rs:143-155 | A text parses to a value if and only if it is the text of a well-formed syntax tree that means that value: soundness and completeness of the parser. |
| JsonRoundTrip.RfcTextsParse | src/json.rs:262-482 | Every RFC 8259 rendering, with any white space, any legal escape choice and surrogate pairs, parses to its meaning, the last of repeated names winning. |
| JsonRoundTrip.FinitePrintsRfc | src/json.rs:111-182 | What the printer writes for a value with finite numbers is an RFC 8259 text. |
| JsonRoundTrip.PrintedIsCanon | src/json.rs:111-182 | The bytes printed are the text of one canonical syntax tree, NaN and infinities included as bare words. |
| JsonRoundTrip.NonFiniteFails | src/json.rs:158-164 | A value with a NaN or an infinity anywhere in it prints as text the parser rejects, at whatever depth. |
| JsonRoundTrip.ParsePrintParse | src/json.rs:143-182 | Parse, print, parse again gives the first result if and only if no numeral overflowed to infinity. |
| JsonRoundTrip.ParsedIsDistinct | src/json.rs:289-324 | No object anywhere in a parsed value repeats a key. |
| JsonRoundTrip.AcceptedBeyondRfc | src/json.rs:143-155 | An accepted text is RFC 8259 if and only if every tree of the parser's grammar that spells it is an RFC 8259 tree. |
| JsonUnambiguous.RfcTextExactly | src/json.rs:262-482 | Whichever tree spells a text, the text is RFC 8259 if and only if that tree is: two readings of a text never differ on it. |
| JsonUnambiguous.LaxPiece | src/json.rs:358-453 | What strings may hold beyond RFC 8259: exactly raw control characters, and escapes whose four digits start with a plus sign. |
| JsonUnambiguous.LaxNumeral | src/json.rs:455-482 | What numerals may be beyond RFC 8259: exactly those with no digit before or after the point, or with a leading zero. |
| JsonTexts.StringsParse | src/json.rs:358-453 | A string literal parses to the characters it spells, each as itself, by one of the eight letters of section 7 of RFC 8259, or by one or two four-digit escapes with digits in either case. |
| JsonTexts.HexDigitsSpell | src/json.rs:444-453 | Four hexadecimal digits that spell n in base 16, each in either case, are read as n. |
| JsonTexts.HexEscapeParses | src/json.rs:403-424 | The escape of any n below 0x10000 that is no surrogate parses to the one-character string n. |
| JsonTexts.HexPairParses | src/json.rs:406-419 | The two escapes of any n from 0x10000 on parse to the one-character string n. |
| JsonTexts.LoneSurrogateFails | src/json.rs:417-422 | The escape of a surrogate on its own is an error. |
| JsonTexts.OtherEscapeFails | src/json.rs:425-427 | A backslash before any other character is an error, whatever follows. |
| JsonTexts.BlanksAround | src/json.rs:232-236 | Spaces, tabs and line ends around an accepted text change nothing. |
| JsonTexts.NumeralsParse | src/json.rs:455-482 | A numeral parses to what its characters spell: digits as a decimal number, the point and the exponent with its sign as powers of ten, exact before rounding, infinite if and only if that overflows. |
| JsonTexts.NumeralExactly | src/json.rs:455-482 | A scanned literal is a number if and only if it has digits before the point, or behind a minus sign and a point, and digits after an exponent letter. |
| JsonTexts.NonFiniteTexts | src/json.rs:158-164 | NaN and the infinities print as `NaN`, `inf` and `-inf`. |
| JsonTexts.OverflowExactly | src/json.rs:478-481 | The magnitude that overflows is (2^54 - 1) * 2^970. |
| JsonRoundTrip.LeadingZeroAccepted | src/json.rs:455-482 | The text `01` parses to the number one and no RFC 8259 tree spells it. |
| JsonRoundTrip.SignedEscapeAccepted | src/json.rs:444-453 | The text `"\u+041"` parses to the string `A` and no RFC 8259 tree spells it. |
| JsonAccepts.ParsesValue | src/json.rs:262-356 | The parser reads any syntax tree's text, in front of any tail that does not continue a number, to its meaning and leaves the tail. |
| JsonReconstruct.ValueOf | src/json.rs:262-356 | Whatever the parser accepted is the text of a syntax tree with the value returned, plus the bytes left unread. |
| JsonBoundaries.EncodingErrorsUnreachable | src/json.rs:430-438 | On valid UTF-8 input the errors "invalid utf-8", "unexpected end of string" and "invalid surrogate pair" never come out. |
| JsonBoundaries.ParseValueBoundary | src/json.rs:262-453 | Started on a character boundary, the parser stops on one, whether it succeeds or fails. |
| JsonBoundaries.SurrogatePairs | src/json.rs:406-419 | Two surrogates combine to a code point from 0x10000 to 0x10FFFF and are the only pair that does. |
| JsonBoundaries.SurrogatePairsOnto | src/json.rs:415-416 | Every such code point is the combination of a pair. |
| JsonParser.ParseJson | src/json.rs:143-155 | The cursor-moving parser returns what the specification of `Value::parse` says, success or kind of error, on every input. |
| JsonParser.Parser.ParseAny | src/json.rs:262-287 | The mutually recursive methods terminate, keep the cursor in bounds, only move it forward, and leave it where the specification says. |
| JsonParser.Parser.ParseText | src/json.rs:358-442 | The string loop returns the specified characters and stops at the specified byte, escapes and errors included. |
| JsonParser.Parser.ParseNum | src/json.rs:455-482 | The scanning loops take exactly the literal at the cursor, and its value or its error is that literal's. |
| JsonParser.Parser.ParseMemberLoop | src/json.rs:297-323 | The retain-then-push loop over members gives the specified entries and stopping point. |
| JsonWriter.Writer.WriteJson | src/json.rs:111-141 | The appending loops add the value's text to the buffer and change nothing before it. |
| JsonWriter.ToJsonString | src/json.rs:105-109 | The serializer returns the text of the value. |
| JsonNumber.PrintedReadsBack | src/json.rs:158-164 | Both branches of the number printer write the same plain literal, and it reads back as exactly the same number. |
| JsonNumeral.NumeralDenotes | src/json.rs:455-482 | Before rounding to an `f64`, the number read is (whole part + fraction / 10^places) * 10^exponent with its sign, or infinity if and only if that reaches the magnitude that overflows. |
| JsonNumeral.SameWorth | src/json.rs:455-482 | Numerals of one sign that spell the same rational parse to the same number, however they are written. |
| JsonLiteral.ReadText | src/json.rs:455-477 | Scanning a literal's text takes all of it and nothing of what follows, unless that continues a number. |
| JsonValue.CollectIsLastOccurrences | src/json.rs:303-304 | The retain-then-push loop keeps exactly each key's last entry, ordered by last occurrence. |
| JsonValue.GetCollected | src/json.rs:58-63 | Looking a key up in what the loop recorded agrees with the last-wins map of the source pairs. |
| JsonValue.CollectDistinct | src/json.rs:303-304 | The loop never records a key twice. |
| JsonValue.InsertAgrees | src/json.rs:37-48 | Insertion in place and retain-then-push give the same map and keep keys distinct. |
| JsonValue.Builder.Insert | src/json.rs:37-48 | The in-place update puts the value under its key where it stands, or last, and changes what `get` finds at no other key, even among repeated ones. |
| JsonValue.Builder.Push | src/json.rs:50-56 | The array gains one last item. |
| Base64.DecodesExactly | src/base64.rs:9-30 | A strict reference decoder reads a text as some bytes if and only if the text is the encoding of those bytes. |
| Base64.Encode | src/base64.rs:9-30 | The chunk loop returns the specified text for every input length. |
| Base64.EncodedShape | src/base64.rs:9-30 | 4 * ceil(n / 3) characters, padding exactly in the last places the length calls for, alphabet characters elsewhere. |
| Base64.EncodedInjective | src/base64.rs:9-30 | Different inputs have different encodings. |
| Base64.BasicAuthReads | src/client.rs:1023-1028 | The value is `Basic `, then base64 text that decodes to user name, colon and password. |
| Base64.BasicAuthInjective | src/client.rs:1023-1028 | A Basic authorization value determines user name and password if user names hold no colon. |
| MultipartDecoder.DecodesExactly | src/multipart.rs:79-115 | A decoder that splits at the delimiter and unescapes quoted strings reads a part list out of a body if and only if the body is that list's encoding and no part hides a CR LF in a field or a delimiter in its value. |
| MultipartDecoder.EncodableExactly | src/multipart.rs:79-131 | The condition a caller can check on fields and value is exactly that the header lines are lines and no delimiter occurs in the part's text. |
| MultipartDecoder.EscapeCommutes | src/multipart.rs:122-131 | Escaping characters and then encoding them is escaping the bytes, so the escapes cannot be mistaken for bytes of other characters. |
| MultipartDecoder.UnquoteEscaped | src/multipart.rs:122-131 | Unescaping a quoted string gives back exactly what was escaped and stops at the closing quote. |
| MultipartDecoder.BlankLineInContentType | src/multipart.rs:102-110 | Two different forms with the same body: a content type with a blank line in it moves bytes into the value. |
| Splitting.SplitJoin | src/multipart.rs:79-115 | Pieces free of a delimiter that cannot overlap itself come back from the joined text. |
| Multipart.EncodeParts | src/multipart.rs:79-115 | The appending loop returns the specified body for the boundary and the matching header value. |
| MultipartText.BodyText | src/multipart.rs:83-111 | The body is, part by part, two dashes and the boundary, the header text, the value and a line end, then the closing line. |
| MultipartText.ContentText | src/multipart.rs:86-106 | A part is `Content-Disposition: form-data` with its quoted name and file name, its `Content-Type` if it has one, an empty line and its value. |
| Multipart.QuoteEscapeLoop | src/multipart.rs:122-131 | The character loop escapes quotes and backslashes and nothing else. |
| Multipart.BoundaryFit | src/multipart.rs:140-146 | A drawn boundary is 52 characters long, holds no CR, and differs for different draws. |
| MultipartText.BoundaryText | src/multipart.rs:140-146 | A boundary is the word RustyRequestBoundary and the digits of two draws. |
| MultipartText.HexSpells | src/multipart.rs:140-146 | The digits are small hexadecimal ones and spell the draw. |
| Proxy.SpecsCombine | src/proxy.rs:98-128 | A list `a,b` bypasses a host if and only if `a` or `b` does. |
| Proxy.SpecDecides | src/proxy.rs:98-128 | A list bypasses a host if and only if some entry, trimmed, without leading dots and in small letters, is `*`, the host in small letters, or a domain it is in. |
| Proxy.BypassIgnoresCase | src/proxy.rs:98-128 | The decision ignores ASCII case in the entries and in the host. |
| Proxy.BypassesAtLabels | src/proxy.rs:123-128 | A host is bypassed if and only if `*` is listed or some entry is the host from the start of one of its labels on. |
| Proxy.SubdomainsBypass | src/proxy.rs:123-128 | If a host is bypassed, so is every subdomain of it. |
| Proxy.LeadingDotIgnored | src/proxy.rs:104-112 | A leading dot makes no difference to an entry if and only if what follows it does not start with white space, or is all white space. |
| Proxy.PaddingIgnored | src/proxy.rs:104-112 | White space around an entry makes none either. |
| TextLaws.LowerLetters | src/proxy.rs:98-128 | ASCII case folding turns the 26 capitals into the 26 small letters and changes nothing else. |
| TextLaws.WhiteSpaceExactly | src/proxy.rs:107-109 | White space is the 25 characters of Unicode's White_Space property. |
| TextLaws.TrimExactly | src/proxy.rs:107-109 | Trimming takes white space off both ends, and leaves none there. |
| Routing.EqualKeysEquivalent | src/client.rs:1030-1097 | Hops with equal pool keys dial the same host (ignoring case) and port, tunnel to the same target and check the same TLS name, proxied or not, given unconfusable proxies or origin hosts without `>`. |
| Routing.EquivalentShareKey | src/client.rs:1069-1097 | Equivalent hops, both through a proxy or neither, have equal keys whatever the case of any host, so reuse is not lost. |
| Routing.ConfusedExactly | src/proxy.rs:72-83 | Two proxies get one key for some pair of non-empty origin hosts that differ if and only if one's key prefix properly starts the other's. |
| Routing.ConfusionTakesArrows | src/client.rs:1069-1097 | Hops that share a key without being equivalent have a `>` in one of their origin hosts and one in a proxy's host. |
| Routing.HostsWithoutArrow | src/proxy.rs:72-83 | Proxy hosts without `>` are never confused. |
| Routing.PrefixNamesProxy | src/proxy.rs:55-83 | The part of a tunnel key before the target names one proxy host, ignoring case, and port. |
| KeepAlive.SaysCloseConcat | src/client.rs:1244-1252 | `close` in a concatenated `Connection` list counts exactly when it counts in either half, so its place does not matter. |
| PoolSafety.AnswerKeeps | src/client.rs:1244-1273 | An answered hop puts its connection, stamped with the time, on top of its key's bucket if and only if the reply was not read to the end of the connection, no field of its `Connection` list is close, and the bucket has room; other buckets stay as they are. |
| PoolSafety.IdleStaysOpen | src/client.rs:1244-1273 | In every run the last reply on an idle connection left it usable in that sense. |
| Pool.TakeIsLastFresh | src/pool.rs:42-54 | The popping loop returns the last entry with now < stamp + timeout and drops above it only entries with stamp + timeout <= now; it returns nothing, and empties the bucket, exactly when all are such entries. |
| Pool.TakeIsFreshest | src/pool.rs:42-54 | With stamps in order the connection returned has now < stamp + timeout and the greatest stamp there is, and only it leaves the bucket. |
| Pool.ConnectionPool.TakeConn | src/pool.rs:42-54 | The method's result and the whole new pool state are those of the specification, and in plain arithmetic a connection handed out has now < stamp + timeout and none is handed out exactly when every entry has stamp + timeout <= now. |
| Pool.ConnectionPool.PutConn | src/pool.rs:61-73 | The connection is pushed with its stamp if the bucket is below the cap, and nothing else changes in that bucket or any other. |
| PoolRuns.RunExact | src/pool.rs:42-73 | In every interleaving the hops and buckets hold exactly the connections whose recorded place says so. |
| PoolSafety.ExactlyOnePlace | src/client.rs:1300-1339 | Every connection ever dialed is with exactly one hop, in exactly one slot of one bucket, or gone. |
| PoolSafety.GoneForGood | src/client.rs:1300-1366 | Once a connection is closed or handed to a streaming caller, no continuation of the run has a hop hold it or a bucket keep it. |
| PoolSafety.RunSafe | src/pool.rs:42-73 | In every interleaving buckets stay within the cap, stamps are in order, idle connections last saw a reusable reply, and each fits its key. |
| PoolSafety.ReusedConnectionsFit | src/client.rs:1308-1331 | Whatever connection a hop holds was set up for a target equivalent to the hop's own, given unconfusable proxies or a run whose origin hosts hold no `>`. |
| PoolSafety.BeginTakesFreshest | src/pool.rs:42-54 | In every run a hop starts with the greatest stamp of its key's bucket if now < stamp + timeout for some entry, and otherwise dials, the bucket empty. |
| PoolSafety.ReusedInTime | src/pool.rs:42-73 | In every run a hop that starts on a pooled connection starts less than the timeout after that connection's last answer. |
| PoolSafety.LoadStep | src/pool.rs:42-73 | A step raises idle plus in-flight on a key only by a hop that found the bucket empty. |
| PoolSafety.LoadWithinPeak | src/pool.rs:42-73 | Idle connections plus hops in flight on a key never exceed the most hops ever in flight on it at once. |
| Client.SendOneHop | src/client.rs:1300-1339 | The method makes the specified attempts and dial phase, in order, and returns the specified result. |
| Client.SendOneHopStreaming | src/client.rs:1346-1366 | The same for the streaming hop, which only waits for the head. |
| Client.BuildWireHeaders | src/client.rs:853-898 | The step-by-step header building gives the specified headers or the specified error. |
| Client.SendWithRedirects | src/client.rs:748-835 | The loop returns the specified result and history for every world, request and policy. |
| Client.SendWithRedirectsStreaming | src/client.rs:910-999 | The same for the streaming loop. |
| Client.SendWithRetries | src/client.rs:682-742 | The retry loop returns the specified result and history. |
| Events.SecondAttemptExactly | src/client.rs:1300-1366 | Either hop puts its request on the wire twice if and only if a pooled connection failed it and a dial phase then gave a fresh one; that is one dial phase. |
| Events.SuccessIsLastAnswer | src/client.rs:1300-1366 | Either hop, when it succeeds, returns the peer's answer to the last request on the wire. |
| Events.FailureIsLastFault | src/client.rs:1300-1366 | Either hop, when it fails, returns the failure of its dial phase or what was wrong with the answer to its last request; a pooled connection's failure is never returned. |
| Events.HopStaysWithin | src/client.rs:1300-1366 | Either hop makes at most one dial phase and sends its own request at most twice, and nothing else. |
| Events.DialsWhereRouted | src/client.rs:840-846 | A dial phase goes to the proxy's host and port if there is one and no rule is `*` or names the host from a label on, and to the URL's own otherwise. |
| StreamingLaws.StreamingSimulatesBuffered | src/client.rs:900-999 | Where no attempt and no body read fails, both loops send the same requests, store the same cookies in the same order and end alike, even if pool and dialer behave differently under them. |
| StreamingLaws.StreamingIsBufferedWithoutPool | src/client.rs:900-999 | Without a pool they are equal step for step, failed dials and heads included, as long as no body breaks off. |
| StreamingLaws.StreamingSucceedsToo | src/client.rs:900-999 | Without a pool, whatever server and dialer do, a chain that succeeds buffered succeeds streaming with the same response and history. |
| RedirectLaws.TrailOfChain | src/client.rs:748-999 | The turns of a chain of either loop account for all of it: each follows from a 301, 302, 303, 307 or 308 received by the one before, from its `Location`, and the last one gives the result. |
| RedirectLaws.EndOfChain | src/client.rs:748-999 | Either loop goes on exactly while a redirect below the cap leads somewhere, and ends with the last response, or the error of that case: scheme, header value, network, cap, broken body, missing `Location` or URL. |
| RedirectLaws.SuccessOfChain | src/client.rs:748-999 | Either loop succeeds with exactly the last response received, the answer to the last request on the wire, and only if that is not a redirect to follow. |
| RedirectLaws.CookiesOfTrail | src/client.rs:748-999 | Before each hop of either loop, and at the end, the jar has received exactly the cookies of the responses so far, in order. |
| WireLaws.WireFields | src/client.rs:853-898 | For every field name, in any case, all the values the wire headers hold: framing, `Connection`, merged `Cookie`, default `Accept`, and the caller's values for all others. |
| WireLaws.MadeExactly | src/client.rs:763-778 | A turn makes a request, with the loop's verb, URL and body, if and only if the scheme is http or https and the merged cookies, if any, are a valid value; the error says which failed. |
| CallerLaws.FirstRequest | src/client.rs:748-942 | The first request either loop puts on the wire is the caller's: its verb, URL and body, and every field what the wire headers make of the caller's. |
| CallerLaws.CallersAuthorization | src/client.rs:748-999 | A hop of either loop carries the caller's Authorization exactly while host, in small letters, and port of every hop up to it are those of the URL the caller asked for. |
| CallerLaws.CallersMethod | src/client.rs:748-1021 | Verb and body of every request of either loop, from the caller's and the statuses before it. |
| RedirectLaws.HeadersOfTrail | src/client.rs:748-999 | The headers of either loop are the caller's while every hop so far has the first hop's host (ignoring case) and port, and the caller's without Authorization for good after that. |
| RedirectLaws.AuthorizationOnWire | src/client.rs:748-999 | A hop of either loop carries the caller's Authorization exactly while the chain has not left the first origin; it never comes back, even if the chain does. |
| RedirectLaws.ChainKeepsCredentials | src/client.rs:748-999 | No request either loop puts on the wire, resends after a stale connection included, carries Authorization to another host or port. |
| RedirectLaws.FramingOnWire | src/client.rs:748-999 | Each hop of either loop is framed by its own body, never by an earlier one, and carries both framing headers if and only if the caller set the one its body does not use. |
| RedirectLaws.MethodOfTrail | src/client.rs:748-999 | Method and body of every hop of either loop as a closed form of the statuses before it: GET and HEAD until the first 303, others while all are 307 or 308, then bodyless GET for good. |
| RedirectLaws.TooManyExactly | src/client.rs:748-999 | Either loop ends with `TooManyRedirects(M)` if and only if the cap is M and exactly M + 1 redirect responses came in. |
| RedirectLaws.ChainSpends | src/client.rs:748-999 | A chain of either loop makes at most M + 1 dial phases, at most twice as many wire attempts, and never sleeps. |
| SendLaws.SendOutcome | src/client.rs:711-741 | A send runs one to R + 1 chains, each the buffered loop on the caller's request; chain i is followed by another if and only if i < R, the method is GET, HEAD, PUT, DELETE or OPTIONS or the policy opts in, and the result is a listed status or an I/O error that is retried; the last one's result is the send's. |
| SendLaws.NotRetried | src/retry.rs:170-176 | Without the opt-in a POST, PATCH, CONNECT or other method runs exactly one chain. |
| SendLaws.FirstOfEachChain | src/client.rs:711-741 | The first request of every chain of a send is the caller's, whole. |
| SendLaws.SendBounds | src/client.rs:711-741 | At most (M + 1)(R + 1) dial phases and twice as many requests on the wire. |
| SendLaws.SendKeepsCredentials | src/client.rs:711-834 | Nothing a whole send puts on the wire, over all retries and redirects, carries Authorization anywhere but to the host and port the caller asked for. |
| SendLaws.PausesBetween | src/client.rs:735-740 | Between chains the client only sleeps: the smaller of Retry-After and its cap if the policy listens and the header parses, else the fixed delay, or base * 2^min(i, 20) up to max, scaled by draw / 2^64 if there is jitter. |
| SendLaws.SleepTotal | src/client.rs:735-740 | A send sleeps the policy's pause after each of its chains but the last, and at no other time: the total is their sum. |
| SendLaws.SleepBound | src/retry.rs:189-199 | All sleeps together are at most R * max(cap, max_retry_after), and at most base * (2^R - 1) for exponential backoff that ignores Retry-After. |
| Retry.CappedIsMin | src/retry.rs:59-65 | The overflow branch changes nothing: the delay is the smaller of base * 2^min(attempt, 20) and max. |
| Retry.CappedMonotone | src/retry.rs:59-65 | The delay before jitter never falls from one attempt to the next. |
| Retry.FactorFits | src/retry.rs:63-64 | The shift never overflows a u32. |
| Retry.ProductBelow | src/retry.rs:78-86 | The 128-bit product does not overflow and its high half is below the limit. |
| Retry.JitterBelow | src/retry.rs:75-86 | Jitter stays strictly below a nonzero delay, and is zero for a zero one. |
| Retry.JitterCovers | src/retry.rs:75-86 | Every nanosecond below a delay that fits 64 bits is reached by some draw. |
| Retry.DelayWithinCap | src/retry.rs:56-72 | No draw and no attempt takes a delay over its cap, or an exponential one over base * 2^attempt. |

## Left out

- JsonNumber.PrintedReadsBack: numbers are exact decimals; rounding to 53 bits, printing the shortest digits that round back, underflow and negative zero are not modelled, and overflow to infinity is modelled at the magnitude where IEEE rounding reaches it.
- JsonNumeral.NumeralDenotes: states the decimal that is read; `str::parse::<f64>` then rounds it to the nearest `f64`, to zero below the smallest.
- JsonNumeral.SameWorth: for the same reason says nothing of numerals that differ by less than rounding sees.
- JsonParser.ParseJson: errors are modelled by kind and stopping point; their texts, and the depth of the call stack, are not.
- StreamingLaws.StreamingSimulatesBuffered: a break in a body is the one failure the two loops treat differently by design, and with a pool the buffered loop then resends where the streaming one does not, so worlds that fail are covered without a pool.
- Routing.EqualKeysEquivalent: pool keys do not mention the TLS trust policy, so one policy per pool is assumed.
- Multipart.EncodeParts: the two draws behind the boundary are parameters; how likely a boundary occurs in a value is not modelled.
- Retry.DelayWithinCap: parsing a `Retry-After` value, an HTTP date included, is an arbitrary function.
- Base64.Encode: shifts and masks are written as division and remainder.
- The `as_*` accessors and `From` conversions of `Value`, and all builders and getters: plain data.
- Sockets, DNS, TLS handshakes and timeouts: a dial phase succeeds or fails arbitrarily; a hop that times out is a hop that is dropped.
- The pool in the engine: what `take` yields to a send is arbitrary there; the pool itself is modelled with interleaved hops in its own state machine.
- The request line and the `Host` header: written by code of `rusty_http`, which is not part of this model; nor are its URL parser, cookie jar and message framing, of which only a case-insensitive header map whose insertion leaves one field of a name is assumed.
- The mutex of the pool: one step of a run is one critical section, with the clock read inside it.
- A streamed body's own connection: it never returns to the pool, so it counts as gone once it is the caller's.
