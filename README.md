# Session cookie jar and account-flow outcomes of the cytube-tests HTTP client

`lib/http-client.js` defines `HTTPClient`, the object the end-to-end tests use
to drive a CyTube server. It keeps the session cookies in a JavaScript `Map`.
Every completed response stores the pairs from its `Set-Cookie` lines in that
map. Every POST sends the whole map as its `Cookie` header. The `register` and
`login` flows GET a form, POST it, and decide from the two status codes and
the alert banners of the returned page whether to throw.

This Dafny project models:

- `Strings`: JavaScript's `split` with a string separator (leftmost,
  non-overlapping matches), `join`, and the decimal rendering of a status code
  inside a template literal.
- `CookieJar`: the jar as a value. It is an insertion-ordered key list plus a
  map. `Set` is `Map.prototype.set`. `ParseLine` is the two `split`s of
  `_setCookies`, and `Parse` applies it to every line of a header. `SetAll`
  stores a batch of parsed lines, and `ReceiveAll` is the jar after a
  sequence of responses. `Serialize` is `_cookieString`.
- `Flows`: the ordered status and banner checks that end `register` and
  `login`, and the messages of the errors they throw.
- `Client`: the class `HttpClient`, with the jar as two mutable fields. Its
  methods `SetCookies` and `CookieString` are loops proved against `SetAll`
  and `Serialize`. `Register` and `Login` run the exchange: the jar is updated
  after the GET, the POST carries `CookieString()` only after a 200 GET, and
  the jar is updated again after the POST.

A stored value is either a string or `undefined`. It is `undefined` when the
cookie text has no `=`. A template literal renders it as the text
`undefined`, so such a cookie is sent back as `name=undefined`. The value is
only the text between the first and second `=`. A value such as `abc==` is
therefore stored and sent as `abc`.

The jar keeps first-insertion order. The `Cookie` header lists the keys in
that order, and overwriting a key keeps its place. Only `_post` sets a
`Cookie` header. The `http.get` call at `lib/http-client.js:101-107` sets no
request headers, so a GET sends no `Cookie`.

## Model

| member | source | states |
|---|---|---|
| Strings.Split | lib/http-client.js:201-202 | `split` with a non-empty separator gives at least one piece, and no piece contains the separator |
| Strings.SplitFirstPiece | lib/http-client.js:201-202 | the first piece of a `split` is a prefix of the string, and there is more than one piece exactly when the separator occurs |
| Strings.Join | lib/http-client.js:221 | `join` starts with the first piece |
| Strings.JoinSplit | lib/http-client.js:201 | splitting loses nothing: joining the pieces with the separator gives back the input line |
| Strings.SplitJoin | lib/http-client.js:221 | a `join` of pieces that lack the separator's first character splits back into exactly those pieces |
| Strings.DecimalString | lib/http-client.js:20 | the status in an error message is a run of decimal digits without leading zeros that denotes the status |
| CookieJar.Empty | lib/http-client.js:12 | a new jar is valid, holds no key, and serialises to the empty header |
| CookieJar.Set | lib/http-client.js:205 | after `set`, the name maps to the new value and other names are unchanged; an existing key keeps its place and a new key is appended |
| CookieJar.ParseLine | lib/http-client.js:201-202 | the parsed name is a prefix of the line; neither the name nor a string value holds `=` |
| CookieJar.Receive | lib/http-client.js:195-206 | a response without a `set-cookie` header leaves the jar unchanged; the jar stays valid after any response |
| CookieJar.SetAll | lib/http-client.js:200-206 | storing a batch of parsed lines keeps the jar valid: keys are distinct and the order lists exactly the keys |
| CookieJar.SetAllLastWins | lib/http-client.js:200-206 | after a batch, a name that some line carries maps to the value of its last line; every other name keeps its old value or stays absent |
| CookieJar.SetAllOrder | lib/http-client.js:205 | the key order after a batch is the old order followed by each new name once, at the place of its first line; an overwritten key keeps its place |
| CookieJar.SetCookieIsSent | lib/http-client.js:151 | each cookie a batch sets appears, with its last value, among the entries of the next `Cookie` header |
| CookieJar.SetAllConcat | lib/http-client.js:200-206 | storing one batch of lines after another is the same as storing both batches in order |
| CookieJar.ReceiveAllLines | lib/http-client.js:128 | receiving any sequence of responses, each through `_setCookies`, is storing all their `Set-Cookie` lines as one batch in order |
| CookieJar.SentUntilOverwritten | lib/http-client.js:128 | a cookie set by a sequence of responses is still sent, with its last value, after any number of later responses none of which carries a line for its name |
| CookieJar.ParseIgnoresAttributes | lib/http-client.js:201 | text after the first `"; "` of a `Set-Cookie` line never changes the parsed pair |
| CookieJar.ParseNameValue | lib/http-client.js:202 | the name is the text before the first `=` and the value the text between the first and second `=` |
| CookieJar.ParseWithoutEquals | lib/http-client.js:202 | cookie text without `=` becomes a name whose value is `undefined` |
| CookieJar.ParseEntry | lib/http-client.js:218 | one `name=value` header entry with a plain name and value parses back to its own pair |
| CookieJar.EntriesAfterBatch | lib/http-client.js:214-219 | after a batch, the `i`-th header entry is for the `i`-th distinct name over the old keys and the batch's names, with the value of the last line for that name, or the old value if no line has it |
| CookieJar.Serialize | lib/http-client.js:214-222 | the header is empty exactly when the jar is, and otherwise starts with the entry of the first key inserted |
| CookieJar.ParseEntries | lib/http-client.js:201-202 | the header entries of a plain jar parse back, one by one, to the jar's own name/value pairs |
| CookieJar.StorePairs | lib/http-client.js:200-206 | storing a jar's pairs in order into a new jar rebuilds the jar, order included |
| CookieJar.ReplayEntries | lib/http-client.js:214-222 | replaying a plain jar's header entries as `Set-Cookie` lines into a new jar rebuilds the jar, order included |
| CookieJar.HeaderRoundTrip | lib/http-client.js:214-222 | a non-empty jar whose names hold no `;` or `=` and whose values are strings with no `;` or `=` gives a `Cookie` header that, cut at `"; "` and each piece parsed, rebuilds the jar |
| Flows.Classify | lib/http-client.js:18-49 | checks run in order: a non-200 GET fails naming GET, then a non-200 POST fails naming POST, then a failure banner fails with its detail even beside a success banner; the flow passes exactly when the success title matches, and otherwise fails with the unknown-error result |
| Flows.Message | lib/http-client.js:19-84 | a status error's message is the verb, the path and `: HTTP ` followed by the status in decimal; a rejection's message is `Registration failed: ` or `Login failed: ` followed by the banner's detail; the unknown error reads `Unknown error when registering` or `Unknown error when logging in` |
| Client.HttpClient.constructor | lib/http-client.js:9-13 | a new client has the given host and port and an empty jar |
| Client.HttpClient.GetCookie | lib/http-client.js:91-97 | the stored value when the name is a key, `None` (null) exactly when it is not; a returned value is the one the `Cookie` header carries |
| Client.HttpClient.SetCookies | lib/http-client.js:195-207 | the jar becomes the old jar with every line stored in order; without a `set-cookie` header it is left unchanged |
| Client.HttpClient.CookieString | lib/http-client.js:214-222 | the returned header is the serialisation of the current jar |
| Client.HttpClient.Register | lib/http-client.js:15-52 | the outcome is the registration classification; the POST carries the jar as it is after the GET, is sent only after a 200 GET, and both responses update the jar |
| Client.HttpClient.Login | lib/http-client.js:54-89 | the same as Register, for the login form and its banner titles |
| Client.HttpClient.Submit | lib/http-client.js:127-180 | the shared exchange: jar updated after each completed response, POST `Cookie` header taken between them, checks thrown in order |

## Left out

- `_get` and `_post` transport: Node `http` requests, promises, the 30-second timeout and the network errors it raises, and body buffering. A response is a parameter holding its status and `Set-Cookie` lines. The server is not modelled, so nothing ties a POST response to the request that produced it.
- `_extractCsrfToken` and every `cheerio` query: they call an HTML parser that is not part of this model. The banner texts are a parameter (`Flows.Banners`), with `""` standing for an absent element.
- The form body of `register` and `login` (`_csrf`, `name`, `password`, `email`), its `querystring` encoding and its `Content-Length`. These are foreign library calls, so `Register` and `Login` take no credentials.
- Response headers other than `set-cookie`, and response bodies.
- All `LOGGER` calls and `lib/logger.js`: logging only.
- `test/account-delete.js` and `test/register-login.js`: their assertions are about the server's behaviour. They also call `get`, `post`, `extractCsrfToken` and `registerChannel`, which `lib/http-client.js` does not define.
- Status codes are natural numbers, since Node never reports a negative `statusCode`. A non-numeric status is not modelled.
