# tv-remote server core, modelled in Dafny

The tv-remote server pairs a TV browser with a phone. The TV creates a session and gets a six-character code. The phone joins with that code. From then on the phone's commands (open a link, fullscreen, refresh, go back, …) are relayed to the TV. The TV's report that a page refused to be framed goes back to the phone.

Pages the TV cannot frame directly are fetched through `/proxy?url=…`. The proxy does three things:

- it rewrites the references inside HTML, CSS and script payloads so that they lead back through the proxy;
- it injects an interception script into HTML pages;
- it keeps a five-minute response cache of at most 200 entries.

The project models three parts of `server.js`:

- **Sessions** (`sessions.dfy`): the session registry as a class.
  - It holds the `sessions` map and an outbox that records every Socket.IO emit, in order.
  - Its methods are `create-session`, `join-session`, the seven relayed commands, `disconnect` and the five-minute sweep of sessions older than an hour.
  - `disconnect` and the sweep are loops over the map in insertion order. They delete entries as they go, and are proved against the specification functions `Disconnected`, `Notices`, `Surviving`, `KeptEntries` and `Retained`.
- **ProxyCache** (`cache.dfy`): the `/proxy` endpoint as a class around the response cache. It covers URL normalisation, the cache check, choosing the status and body, storing with eviction of the oldest entry, and the minute-by-minute sweep.
- **UrlRewrite** and **CssRewrite** (`url_rewrite.dfy`, `css_rewrite.dfy`): `rewriteUrls` and `rewriteCssUrls`.
  - Each regular expression is given as a matcher that follows the JavaScript engine's backtracking order.
  - Each global `replace` with a callback is one instance of the scanner in `global_replace.dfy`.
  - Completeness lemmas (`CanonicalAttr`, `CanonicalStyle`, `CanonicalToken`, `CanonicalLiteral`) state which plain references each pattern matches whole. Soundness lemmas and the matchers' contracts state what every match consists of.

Supporting modules:

- `JsMap` models a JavaScript `Map`: its entries, plus its keys in insertion order. It also holds the generic "delete while iterating `entries()`" sweep and its loop lemmas.
- `JsString` holds `startsWith`, `includes`, `indexOf` and `trim`.
- `UriEncode` holds `encodeURIComponent` over UTF-8, with a percent-decoder as its partner.
- `UrlApi` holds the abstract WHATWG URL parser.

## Model

| member | source | states |
|---|---|---|
| Sessions.GenerateSessionId | server.js:13-20 | the code has six characters; character i is the alphabet letter at the i-th random pick, so it is in a-z or 0-9 |
| Sessions.PickOf | server.js:14 | every character of `a-z0-9` sits at some index of the 36-letter alphabet |
| Sessions.EveryCodeGenerable | server.js:13-20 | every six-character code over `a-z0-9` is produced by some sequence of picks; together with `GenerateSessionId` this gives exactly the possible codes |
| Sessions.Registry.constructor | server.js:23 | the registry starts with no sessions and nothing emitted |
| Sessions.Registry.CreateSession | server.js:388-399 | the generated code maps to a session with the creator as TV, no phone and the current time. A code already in use is overwritten in its old position, and a new code goes last. Only the creator receives `session-created` with the code |
| Sessions.Registry.JoinSession | server.js:401-413 | for a known code the phone is bound, replacing any earlier one, and the joiner receives `session-joined` with success, then the TV receives `phone-connected`. For an unknown code nothing changes and the joiner receives `session-joined` with success false and `Session not found` |
| Sessions.Forwarded | server.js:415-467 | each command is relayed under its own event name, except that `iframe-error` becomes `iframe-blocked` and `open-in-new-tab-on-tv` becomes `open-in-new-tab`. `open-link` carries its `url` and `useProxy`, `iframe-blocked` and `open-in-new-tab` carry the `url` they were given, and the other four carry nothing |
| Sessions.Route | server.js:415-467 | a message goes out exactly when the code is known and, for `iframe-error`, a phone is bound. It goes to the TV for every command except `iframe-error`, which goes to the phone, and it carries the forwarded event |
| Sessions.Registry.Relay | server.js:415-467 | the outbox grows by exactly the routed message, if any; the sessions are untouched |
| Sessions.Disconnected | server.js:472-482 | a session whose TV is the socket is deleted (the TV test comes first); one whose phone is the socket loses its phone; any other is kept as it was |
| Sessions.Notice | server.js:472-482 | at most one notice per session. There is one exactly when the socket was the TV and a phone is bound, or the socket was the phone of another TV. It is `tv-disconnected` to the phone in the first case and `phone-disconnected` to the TV in the second |
| Sessions.NoticeSent | server.js:469-484 | a notice is emitted exactly when some session, in key order, produces it |
| Sessions.TvLeaveNotifiesPhone | server.js:473-477 | the phone of a session whose TV disconnects is told `tv-disconnected` |
| Sessions.PhoneLeaveNotifiesTv | server.js:479-482 | the TV of a session whose phone disconnects, when the TV is a different socket, is told `phone-disconnected` |
| Sessions.NoticesOnlyToPeers | server.js:469-484 | every notice goes to the other end of a session that the socket belonged to |
| Sessions.SurvivingKeys | server.js:472-483 | the keys left after a disconnect are exactly the old keys whose TV was another socket |
| Sessions.Registry.Disconnect | server.js:469-484 | the one pass over the sessions leaves each one as `Disconnected` says. The surviving keys keep their relative order, and the outbox grows by the notices in key order |
| Sessions.SweepKeepsYoung | server.js:488-496 | the five-minute sweep of sessions older than an hour keeps exactly the sessions at most 3 600 000 ms old, unchanged |
| Sessions.Registry.SweepSessions | server.js:488-496 | the loop deletes exactly the expired sessions, keeps the order of the rest, and emits nothing |
| JsMap.OrderedMap.Set | server.js:268-272 | `Map.set` updates the entry; a new key goes last and an existing key keeps its position |
| JsMap.OrderedMap.Delete | server.js:277 | `Map.delete` removes the entry and its key. The key list becomes the keys before it followed by the keys after it, so the others keep their order, and deleting an absent key changes nothing |
| JsMap.SetThenDeleteOldest | server.js:268-278 | storing a new key into a full map and deleting the first key yields the other keys moved up one place, then the new key |
| JsMap.RetainedKeys | server.js:498-505 | the keys kept by a sweep are exactly those whose value is not dropped |
| JsMap.SweepFinished | server.js:498-505 | deleting during iteration over `entries()` visits every key of the start once and leaves exactly the kept entries in their order |
| ProxyCache.NormalizeUrl | server.js:200-203 | the cache key starts with `http://` or `https://`. It is the requested URL when that already starts with one of them, and that URL prefixed by `https://` otherwise |
| ProxyCache.NormalizeIdempotent | server.js:200-203 | normalising a normalised URL changes nothing |
| ProxyCache.IsTextContent | server.js:244-247 | a body counts as text exactly when `text/`, `application/javascript`, `application/json` or `application/xml` occurs somewhere in its content type |
| ProxyCache.RewrittenTypesAreText | server.js:244-250 | every HTML, CSS or JSON response counts as text content and so reaches the rewriter |
| ProxyCache.ResponseContentType | server.js:257 | the upstream content type is passed through, and `application/octet-stream` is used when it is empty |
| ProxyCache.ErrorStatus | server.js:369 | the error page carries the upstream status when there is one and it is non-zero, else 500 |
| ProxyCache.FreshnessGap | server.js:211 | no entry is both servable (line 211) and sweepable (line 501), and an entry exactly five minutes old is neither |
| ProxyCache.ServedBody | server.js:240-253 | a text body is the rewrite of its decoded text; any other body is the fetched bytes unchanged |
| ProxyCache.HeaderValueExamples | server.js:263 | a normalised URL holding a character above `\xff` (such as `М`) or a control character (such as a newline) is not a valid header value, while a plain ASCII URL is |
| ProxyCache.ResponseCache.constructor | server.js:26 | the cache starts empty |
| ProxyCache.ResponseCache.Lookup | server.js:208-212 | an entry is served exactly when it is present and younger than five minutes, and it is served as stored |
| ProxyCache.ResponseCache.Store | server.js:266-279 | only 2xx responses are stored. An existing key is updated in place; a new key goes last; when that makes 201 entries, the first-inserted key is evicted. The cache never holds more than 200 entries |
| ProxyCache.ResponseCache.Sweep | server.js:498-505 | the loop deletes exactly the entries older than five minutes, and the others keep their order |
| ProxyCache.SweepKeepsFresh | server.js:498-505 | the sweep keeps exactly the entries at most five minutes old, so nothing `Lookup` would serve is lost |
| ProxyCache.ResponseCache.Proxy | server.js:191-373 | every outcome of the endpoint: the 400 reply, the 500 page for a URL that does not parse, the cached reply, the error pages, the sent response with the store of 2xx responses, and the 500 page when `res.set` rejects a header value (detailed below the table) |
| UrlRewrite.RewriteUrls | server.js:30-31 | empty content is returned as it is |
| UrlRewrite.OtherContentUnchanged | server.js:30-150 | content of a type that is not HTML, CSS or script is returned unchanged, and so is any content whose page URL does not parse |
| UrlRewrite.UnresolvableReferenceKeepsPage | server.js:41-149 | when a relative reference does not resolve, the callback throws and the catch returns the page as fetched, without the script |
| UrlRewrite.HtmlPageGetsShim | server.js:39-126 | a page whose references all resolve goes through the four reference passes, and then gets the interception script exactly once, placed by `InjectShim` |
| UrlRewrite.HtmlPageAsWritten | server.js:39-126 | for a page URL without `$`, the same page equals the reference passes followed by the injection as written (`InjectShimAsWritten`) |
| UrlRewrite.StylesheetRewritten | server.js:128-131 | a stylesheet is the result of `rewriteCssUrls` on the whole text |
| UrlRewrite.ScriptRewritten | server.js:133-143 | a script or JSON document is the result of the literal pass on the whole text |
| UrlRewrite.AttrNameAt | server.js:42 | a matched name is one of the five attribute names, in any case |
| UrlRewrite.LazyQuoteEnd | server.js:42 | the lazy group ends at the first quote of either kind and crosses no line terminator |
| UrlRewrite.LazySkips | server.js:54 | the literal `http(s)://` inside the lazy group does not change where the group ends |
| UrlRewrite.AttrAtSound | server.js:42-62 | every attribute match is name, `=`, quote, group and quote. The pass's lookaheads hold at the group, and the group contains no quote or line terminator |
| UrlRewrite.CanonicalAttr | server.js:42-62 | every plain `name="u"` whose group fits the pass is matched whole |
| UrlRewrite.CanonicalAttrRewritten | server.js:41-67 | per pass, how a plain attribute is rewritten. Pass 1 keeps `#`, `javascript:` and `mailto:` targets, proxies the resolved reference, and throws when resolution fails. Pass 2 proxies the reference itself. Pass 3 prefixes the page's protocol. Each pass double-quotes the proxy link and keeps the name as written |
| UrlRewrite.AttrTextLower | server.js:42 | the attribute as written folds to the name that matched it |
| UrlRewrite.RelativeAttrStep | server.js:41-50 | every replacement advances past the match |
| UrlRewrite.AbsoluteAttrStep | server.js:53-58 | pass 2 never throws |
| UrlRewrite.ProtocolRelativeAttrStep | server.js:61-67 | pass 3 never throws |
| UrlRewrite.StyleAt | server.js:71 | a `style` match starts with `style=` in any case and a quote, and the index it returns is a later quote |
| UrlRewrite.StyleTailShape | server.js:71 | what is matched from `url(` on is `url(`, at least one character other than `)`, the first `)` after it, no quote, and the closing quote |
| UrlRewrite.StyleBacktrackShape | server.js:71 | whichever `url(` the backtracking settles on, no quote comes before it in the group |
| UrlRewrite.StyleAtShape | server.js:71 | every `style` match is `style=`, a quote, a quote-free run up to a `url(`, then at least one character other than `)`, a `)`, a quote-free run and the closing quote |
| UrlRewrite.StyleBacktrackTo | server.js:71 | the backtracking settles on the last `url(` before the first quote, when the rest of the pattern matches there |
| UrlRewrite.CanonicalStyle | server.js:71 | a `style` attribute whose last `url(` before the first quote is followed by a `)` and then a quote is matched up to that quote |
| UrlRewrite.CanonicalStyleRewritten | server.js:70-76 | such an attribute is replaced by `style="…"` around the `rewriteCssUrls` result of its group, and the pass does not throw when the page URL parses |
| UrlRewrite.StyleStep | server.js:70-76 | every style replacement advances past the match |
| UrlRewrite.LiteralStep | server.js:137-142 | the script pass never throws |
| UrlRewrite.LiteralStepSound | server.js:137-142 | everything the script pass replaces is a quote, an `http(s)://` URL with at least one more character and no quote, and a quote. It becomes the proxy link between the same two quotes |
| UrlRewrite.CanonicalLiteral | server.js:138 | every quoted absolute URL without inner quotes is replaced whole |
| UrlRewrite.SchemeOfRun | server.js:138 | the group starts with the scheme that was recognised |
| UrlRewrite.InjectShim | server.js:119-125 | the intended placement: before the first `</head>`, else in a new `<head>` right after the first `<html>`, else in front |
| UrlRewrite.ShimDollarFree | server.js:79-117 | the script holds a `$` only where the page URL does |
| UrlRewrite.ExpandReplacement | server.js:120-122 | the `replace` expansion of a replacement string: `$$`, `$&`, `` $` `` and `$'` become `$`, the match, the text before it and the text after it, and any other character is kept. A replacement string without `$` is inserted as it is |
| UrlRewrite.ExpandBeforeLiteral | server.js:120-122 | a `$`-free tail that does not begin with a pattern character is copied as it is after the expansion of what precedes it |
| UrlRewrite.InjectShimAsWritten | server.js:119-125 | the injection as written: before the first `</head>` goes the expanded script, with `$'` meaning the text after that `</head>`; else after the first `<html>` goes `<head>`, the expanded script and `</head>`; else the script goes in front, unexpanded |
| UrlRewrite.AsWrittenAgreesWithoutDollar | server.js:119-125 | for a page URL without `$`, the injection as written equals the intended one |
| UrlRewrite.DollarInUrlCorruptsInjection | server.js:119-122 | for the document `</head>x` and the page `https://a/$'`, the injection as written differs from the intended one |
| UrlRewrite.AndThen | server.js:33-149 | once a pass has thrown, later passes are skipped and the content of that moment is kept |
| CssRewrite.RunEnd | server.js:158 | the greedy `[^'")]+` run ends at the first quote or `)` |
| CssRewrite.QuotedAt | server.js:158 | a quoted match is the whole run followed by the same quote, the whole run of white space after it, and `)` |
| CssRewrite.UnquotedAt | server.js:158 | an unquoted match is the whole run followed directly by `)` |
| CssRewrite.CssUrlAt | server.js:158-179 | every token match starts with `url` in any case. Its group lies where the match says, holds none of `'")`, fits the pass, and has its quote (nothing, `"` or `'`) both right before and right after it |
| CssRewrite.LookaheadOnRun | server.js:158 | the lookaheads read the same on the run as on the stylesheet |
| CssRewrite.CanonicalToken | server.js:158-179 | every plain `url(`q u q`)` whose group fits the pass is matched whole |
| CssRewrite.CanonicalTokenRewritten | server.js:157-185 | per pass, how a plain token is rewritten. Pass 1 proxies the resolution of the trimmed reference and keeps the token when resolution throws. Pass 2 proxies the reference. Pass 3 prefixes the page's protocol. The quote is kept in all three |
| CssRewrite.RelativeStep | server.js:157-167 | pass 1 never throws, because its callback catches |
| CssRewrite.ProtocolRelativeStep | server.js:178-185 | pass 3 throws only when the page URL does not parse |
| CssRewrite.AbsoluteStep | server.js:168-175 | pass 2 never throws, and every replacement advances past the match |
| CssRewrite.NoUrlUnchanged | server.js:153-188 | a stylesheet without `url` is returned unchanged |
| CssRewrite.RewriteCssUrls | server.js:153-188 | when the page URL parses, `rewriteCssUrls` does not throw |
| CssRewrite.PassesComplete | server.js:153-188 | when the page URL parses, each of the three passes completes on the output of the one before |
| GlobalReplace.NoMatchIdentity | server.js:41 | a global replace whose pattern matches nowhere returns its subject |
| GlobalReplace.NoThrowFromSucceeds | server.js:41 | a global replace whose callback never throws completes |
| GlobalReplace.FirstMatch | server.js:41 | the text before the first match is copied, the match is replaced, and scanning resumes after it |
| UriEncode.EncodeURIComponent | server.js:48 | the result contains only unreserved characters and `%` |
| UriEncode.DecodeEncode | server.js:48 | percent-decoding the result of `encodeURIComponent` gives the UTF-8 bytes of its input |
| UriEncode.EncodeUnreservedIdentity | server.js:48 | a string of unreserved characters is encoded as itself |
| UriEncode.Utf8 | server.js:48 | a code point takes one to four bytes, and an ASCII character takes one byte, itself |
| JsString.IndexOf | server.js:119 | the index found is the first occurrence, and `None` means there is none |
| JsString.Trim | server.js:161 | the result is the input without leading and trailing white space |

`ProxyCache.ResponseCache.Proxy` (server.js:191-373) covers each outcome of the endpoint. Node's `res.set` (server.js:213 and 281) throws on a header value holding a character other than tab, `\x20`-`\x7e` and `\x80`-`\xff` (`HeaderValueSafe`); the `catch` then sends the 500 error page.

- A missing or empty `url` gives the 400 reply and leaves the cache unchanged.
- A normalised URL that does not parse gives a 500 error page.
- A fresh cache entry is served with status 200 when its headers are valid, and as a 500 error page otherwise. The cache is unchanged.
- No upstream response gives a 500 error page.
- An upstream status of 500 or more gives an error page with that status.
- Any other response is sent with its own status and the served body when its headers are valid, and as a 500 error page otherwise. The cache is stored only for 2xx responses, and also when the headers are invalid, since the store comes before `res.set`. In that case the new entry is under the normalised URL with the current time, and every other entry that remains is unchanged. Such an entry gives the 500 page on every hit until it expires.

Two points about the code:

- Only 2xx responses are cached (server.js:266).
- The `catch` in `rewriteUrls` returns the content as it stands when the throw happens, rather than the original content. The two coincide, because only the first HTML pass can throw once the page URL parses (`UnresolvableReferenceKeepsPage`, `OtherContentUnchanged`).

## Left out

- The Express and Socket.IO plumbing is not modelled: `socket.join`, the room mechanics, the static routes, `/` and `/phone`, and `listen`. Every emit is recorded in the registry's outbox instead.
- The upstream fetch (axios, its request headers, redirects and timeout) is I/O. What it produced is the `Upstream` input of `Proxy`.
- `Date.now()` and `Math.random()` are parameters: `now` and `picks`. The proxy reads the clock twice, once for the check and once for the store; the model uses one `now` for both.
- The timers that run the two sweeps are not modelled; the sweeps are methods.
- UTF-8 decoding of the fetched buffer is the `decode` parameter.
- The WHATWG URL parser is kept abstract (`UrlParser`) and only its failure is modelled. `Proxy` checks the URL with `Protocol`.
- The text of the injected interception script is represented by short stand-ins around the two places where the page URL is interpolated. Its run-time behaviour in the browser is not modelled.
- The markup of the error page, the logging and the constant response headers (`Cache-Control`, the CORS headers, `X-Proxied-By`) are not modelled.
- Concurrency between proxy requests is not modelled, including the interleaving of fetches and the last write winning in the cache. Each request runs to completion.
- Query parameters and socket payloads that are not strings (arrays, objects, missing fields), and a `useProxy` that is not a boolean, are not modelled. A missing `content-type` header is the empty string.
- ProxyCache.ResponseCache.Proxy: the cache content is stated through `Store` for the storing case. Proxy itself states only the new entry and that the other remaining entries are unchanged.
- UrlRewrite.RewriteUrls: the interception script is inserted literally (`InjectShim`), not through `replace` with a replacement string as server.js:120-122 does. So `RewriteUrls`, `HtmlPageGetsShim`, `ServedBody` and `Proxy` differ from the code for page URLs holding `$'`, `` $` ``, `$&` or `$$` (see the finding below). For every other page URL they agree with it (`HtmlPageAsWritten`).
- ProxyCache.ResponseCache.Lookup: a cached entry holds the headers that vary (`Content-Type`, `X-Original-URL`) rather than the whole header object.

## Findings

| source | as written | input that shows it | evidently intended | confidence | as-written member | corrected member |
|---|---|---|---|---|---|---|
| server.js:119-122 | The interception script, with the page URL interpolated, is passed to `replace` as a replacement string. So `$'`, `` $` ``, `$&` and `$$` in the page URL are expanded | the document `</head>x` fetched from `https://a/$'`: each `$'` in the script becomes `x` | the script is inserted literally (for example with a replacement function) | not executed | UrlRewrite.InjectShimAsWritten, UrlRewrite.DollarInUrlCorruptsInjection | UrlRewrite.InjectShim |
