/** The `/proxy` endpoint: the scheme normalisation of the requested URL, the
    response cache keyed by the normalised URL (a JavaScript `Map`, so in
    insertion order), the choice of what is served, and the periodic sweep
    of stale entries. The upstream fetch is an input: what it answered, or
    that it failed. */
module ProxyCache {
  import opened Wrappers
  import opened JsString
  import opened JsMap
  import opened UrlApi
  import UriEncode
  import UrlRewrite

  /** Five minutes, in milliseconds. */
  const CacheDuration := 5 * 60 * 1000
  /** The most entries the cache keeps after a store. */
  const MaxEntries := 200
  const DefaultContentType := "application/octet-stream"

  type byte = UriEncode.byte

  /** `fullUrl`: `https://` is put in front of a URL that starts with
      neither `http://` nor `https://`. */
  function NormalizeUrl(url: string): (r: string)
    ensures StartsWith(r, "http://") || StartsWith(r, "https://")
    ensures StartsWith(url, "http://") || StartsWith(url, "https://") ==> r == url
    ensures !(StartsWith(url, "http://") || StartsWith(url, "https://")) ==> r == "https://" + url
  {
    if StartsWith(url, "http://") || StartsWith(url, "https://") then url
    else
      assert ("https://" + url)[..8] == "https://";
      "https://" + url
  }

  /** Normalising twice is normalising once. */
  lemma NormalizeIdempotent(url: string)
    ensures NormalizeUrl(NormalizeUrl(url)) == NormalizeUrl(url)
  {
  }

  /** One of the four content-type markers of `isTextContent` starts at `j`. */
  predicate TextMarkerAt(contentType: string, j: nat) {
    || MatchesAt(contentType, j, "text/") || MatchesAt(contentType, j, "application/javascript")
    || MatchesAt(contentType, j, "application/json") || MatchesAt(contentType, j, "application/xml")
  }

  lemma MarkerFound(contentType: string, p: string)
    requires p == "text/" || p == "application/javascript" || p == "application/json" || p == "application/xml"
    requires Includes(contentType, p)
    ensures exists j :: 0 <= j <= |contentType| && TextMarkerAt(contentType, j)
  {
    IncludesIff(contentType, p);
    var j :| 0 <= j <= |contentType| && MatchesAt(contentType, j, p);
    assert TextMarkerAt(contentType, j);
  }

  /** `Includes` of one of the markers is an occurrence of it at some index. */
  lemma TextContentIff(contentType: string)
    ensures (|| Includes(contentType, "text/") || Includes(contentType, "application/javascript")
             || Includes(contentType, "application/json") || Includes(contentType, "application/xml"))
      <==> (exists j :: 0 <= j <= |contentType| && TextMarkerAt(contentType, j))
  {
    if Includes(contentType, "text/") {
      MarkerFound(contentType, "text/");
    } else if Includes(contentType, "application/javascript") {
      MarkerFound(contentType, "application/javascript");
    } else if Includes(contentType, "application/json") {
      MarkerFound(contentType, "application/json");
    } else if Includes(contentType, "application/xml") {
      MarkerFound(contentType, "application/xml");
    }
    if exists j :: 0 <= j <= |contentType| && TextMarkerAt(contentType, j) {
      var j :| 0 <= j <= |contentType| && TextMarkerAt(contentType, j);
      if MatchesAt(contentType, j, "text/") {
        IncludesIff(contentType, "text/");
      } else if MatchesAt(contentType, j, "application/javascript") {
        IncludesIff(contentType, "application/javascript");
      } else if MatchesAt(contentType, j, "application/json") {
        IncludesIff(contentType, "application/json");
      } else {
        IncludesIff(contentType, "application/xml");
      }
    }
  }

  /** `isTextContent`: the response body is decoded and rewritten exactly
      when one of the four markers occurs somewhere in the content type. */
  function IsTextContent(contentType: string): (r: bool)
    ensures r <==> (exists j :: 0 <= j <= |contentType| && TextMarkerAt(contentType, j))
  {
    TextContentIff(contentType);
    Includes(contentType, "text/") || Includes(contentType, "application/javascript")
    || Includes(contentType, "application/json") || Includes(contentType, "application/xml")
  }

  /** An occurrence of `a + b` contains one of `a`. */
  lemma IncludesPrefix(s: string, a: string, b: string)
    requires Includes(s, a + b)
    ensures Includes(s, a)
  {
    IncludesIff(s, a + b);
    var j :| 0 <= j <= |s| && MatchesAt(s, j, a + b);
    MatchesConcat(s, j, a, b);
    IncludesIff(s, a);
  }

  /** Every HTML, CSS or JSON response reaches the rewriter. */
  lemma RewrittenTypesAreText(contentType: string)
    requires UrlRewrite.IsHtmlType(contentType) || UrlRewrite.IsCssType(contentType)
          || Includes(contentType, "application/json")
    ensures IsTextContent(contentType)
  {
    if UrlRewrite.IsHtmlType(contentType) {
      assert "text/" + "html" == "text/html";
      IncludesPrefix(contentType, "text/", "html");
    } else if UrlRewrite.IsCssType(contentType) {
      assert "text/" + "css" == "text/css";
      IncludesPrefix(contentType, "text/", "css");
    }
  }

  /** The `Content-Type` the proxy answers with. */
  function ResponseContentType(contentType: string): (r: string)
    ensures r != []
    ensures contentType != [] ==> r == contentType
    ensures contentType == [] ==> r == DefaultContentType
  {
    if contentType != [] then contentType else DefaultContentType
  }

  /** The status of the error page: that of the upstream response the error
      carries, when there is one and it is not 0, else 500. */
  function ErrorStatus(response: Option<int>): (r: int)
    ensures r != 0
    ensures response.Some? && response.value != 0 ==> r == response.value
    ensures response.None? || response == Some(0) ==> r == 500
  {
    if response.Some? && response.value != 0 then response.value else 500
  }

  datatype Body = Text(text: string) | Bytes(data: seq<byte>)

  /** The headers that vary; the others (`Cache-Control`, the CORS headers,
      `X-Proxied-By`) are the same constants on every response. */
  datatype Headers = Headers(contentType: string, originalUrl: string)

  /** Node's `setHeader` refuses a value holding a character other than a
      tab, `\x20`-`\x7e` or `\x80`-`\xff` (`ERR_INVALID_CHAR`). */
  predicate HeaderValueSafe(v: string) {
    forall i :: 0 <= i < |v| ==> v[i] == '\t' || ' ' <= v[i] <= '~' || 128 <= v[i] as int <= 255
  }

  /** `res.set(headers)` goes through: the constant headers always do, so
      this depends on the two that vary. */
  predicate HeadersSafe(h: Headers) {
    HeaderValueSafe(h.contentType) && HeaderValueSafe(h.originalUrl)
  }

  /** A URL with a character beyond Latin-1, or with a control character
      such as a newline, cannot be sent as `X-Original-URL`; a printable
      ASCII one can. */
  lemma HeaderValueExamples()
    ensures !HeaderValueSafe("https://a.com/\U{041C}")
    ensures !HeaderValueSafe("https://a.com/\n")
    ensures HeaderValueSafe("https://a.com/")
  {
    assert "https://a.com/\U{041C}"[14] == '\U{041C}';
    assert "https://a.com/\n"[14] == '\n';
  }

  datatype CacheEntry = CacheEntry(data: Body, headers: Headers, timestamp: int)

  /** Young enough to be served. */
  predicate Fresh(entry: CacheEntry, now: int) {
    now - entry.timestamp < CacheDuration
  }

  /** Old enough to be swept. */
  predicate Stale(entry: CacheEntry, now: int) {
    now - entry.timestamp > CacheDuration
  }

  /** The test the sweep applies at time `now`. */
  function StaleAt(now: int): CacheEntry -> bool {
    entry => Stale(entry, now)
  }

  /** The two tests leave a gap: an entry exactly `CacheDuration` old is
      neither served nor swept, and nothing is both. */
  lemma FreshnessGap(entry: CacheEntry, now: int)
    ensures now - entry.timestamp == CacheDuration ==> !Fresh(entry, now) && !Stale(entry, now)
    ensures !(Fresh(entry, now) && Stale(entry, now))
  {
  }

  /** What the upstream fetch produced: a response (with any status), or no
      response at all (a network error, a timeout, too many redirects).
      `contentType` is `""` when the header is absent. */
  datatype Upstream =
    | Response(status: int, contentType: string, data: seq<byte>)
    | NoResponse

  datatype Reply =
    | MissingUrl                                      // 400, `URL parameter is required`
    | Sent(status: int, headers: Headers, body: Body)
    | ErrorPage(status: int)                          // the HTML error page

  /** The body the proxy sends for a fetched response: text content is
      decoded and rewritten, anything else passed through. */
  function ServedBody(url: string, contentType: string, data: seq<byte>,
                      decode: seq<byte> -> string, api: UrlParser): (r: Body)
    ensures r.Bytes? <==> !IsTextContent(contentType)
    ensures r.Bytes? ==> r.data == data
    ensures r.Text? ==> r.text == UrlRewrite.RewriteUrls(decode(data), url, contentType, api)
  {
    if IsTextContent(contentType) then Text(UrlRewrite.RewriteUrls(decode(data), url, contentType, api))
    else Bytes(data)
  }

  class ResponseCache {
    var cache: OrderedMap<string, CacheEntry>

    ghost predicate Valid()
      reads this
    {
      cache.Valid() && |cache.keys| <= MaxEntries
    }

    constructor ()
      ensures Valid() && cache.keys == [] && cache.entries == map[]
    {
      cache := Empty();
    }

    /** The cache check: an entry is served exactly when it is there and
        fresh. */
    function Lookup(key: string, now: int): (r: Option<CacheEntry>)
      reads this
      ensures r.Some? <==> key in cache.entries && Fresh(cache.entries[key], now)
      ensures r.Some? ==> r.value == cache.entries[key]
    {
      if key in cache.entries && Fresh(cache.entries[key], now) then Some(cache.entries[key]) else None
    }

    /** The store after a fetch: only a 2xx response is stored; a key already
        present keeps its position; when that makes 201 entries, the
        earliest-inserted key is deleted. */
    method Store(key: string, entry: CacheEntry, status: int)
      requires Valid()
      modifies this
      ensures Valid()
      ensures !(200 <= status < 300) ==> cache == old(cache)
      ensures 200 <= status < 300 && key in old(cache.entries) ==>
        cache.keys == old(cache.keys) && cache.entries == old(cache.entries)[key := entry]
      ensures 200 <= status < 300 && key !in old(cache.entries) && |old(cache.keys)| < MaxEntries ==>
        cache.keys == old(cache.keys) + [key] && cache.entries == old(cache.entries)[key := entry]
      ensures 200 <= status < 300 && key !in old(cache.entries) && |old(cache.keys)| == MaxEntries ==>
        cache.keys == old(cache.keys)[1..] + [key]
        && cache.entries == (old(cache.entries) - {old(cache.keys)[0]})[key := entry]
    {
      if 200 <= status && status < 300 {
        ghost var before := cache;
        cache := cache.Set(key, entry);
        if |cache.keys| > MaxEntries {
          SetThenDeleteOldest(before, key, entry);
          cache := cache.Delete(cache.keys[0]);
        }
      }
    }

    /** The cache sweep at time `now`: exactly the stale entries go, the
        others keep their order; nothing that `Lookup` serves is lost. */
    method Sweep(now: int)
      requires Valid()
      modifies this
      ensures Valid()
      ensures cache.entries == KeptEntries(old(cache.entries), StaleAt(now))
      ensures cache.keys == Retained(old(cache.keys), old(cache.entries), StaleAt(now))
    {
      var keys, m := cache.keys, cache;
      ghost var m0 := cache.entries;
      ghost var drop := StaleAt(now);
      SweepStart(m, drop);
      var i := 0;
      while i < |keys|
        invariant 0 <= i <= |keys|
        invariant Snapshot(keys, m0)
        invariant SweptUpTo(m, keys, m0, drop, i)
        modifies {}
      {
        var key := keys[i];
        SweepVisit(m, keys, m0, drop, i);
        assert drop(m0[key]) == Stale(m0[key], now);
        if Stale(m.entries[key], now) {
          SweepDrop(m, keys, m0, drop, i);
          m := m.Delete(key);
        } else {
          SweepKeep(m, keys, m0, drop, i);
        }
        i := i + 1;
      }
      SweepFinished(m, keys, m0, drop);
      RetainedLength(keys, m0, drop);
      cache := m;
    }

    /** A request to `/proxy?url=<query>` at time `now`. `decode` is the
        UTF-8 decoding of a body; `upstream` is what the fetch would
        produce, used only on a cache miss. */
    method Proxy(query: Option<string>, api: UrlParser, decode: seq<byte> -> string,
                 now: int, upstream: Upstream) returns (reply: Reply)
      requires Valid()
      modifies this
      ensures Valid()
      ensures query.None? || query == Some("") ==> reply == MissingUrl && cache == old(cache)
      ensures query.Some? && query.value != "" && api.Protocol(NormalizeUrl(query.value)).None? ==>
        reply == ErrorPage(500) && cache == old(cache)
      ensures query.Some? && query.value != "" && api.Protocol(NormalizeUrl(query.value)).Some?
              && old(Lookup(NormalizeUrl(query.value), now)).Some? ==>
        var hit := old(Lookup(NormalizeUrl(query.value), now)).value;
        reply == (if HeadersSafe(hit.headers) then Sent(200, hit.headers, hit.data) else ErrorPage(500))
        && cache == old(cache)
      ensures query.Some? && query.value != "" && api.Protocol(NormalizeUrl(query.value)).Some?
              && old(Lookup(NormalizeUrl(query.value), now)).None? ==>
        match upstream
        case NoResponse => reply == ErrorPage(500) && cache == old(cache)
        case Response(status, contentType, data) =>
          if status >= 500 then reply == ErrorPage(ErrorStatus(Some(status))) && cache == old(cache)
          else
            var url := NormalizeUrl(query.value);
            var headers := Headers(ResponseContentType(contentType), url);
            var body := ServedBody(url, contentType, data, decode, api);
            reply == (if HeadersSafe(headers) then Sent(status, headers, body) else ErrorPage(500))
            && (!(200 <= status < 300) ==> cache == old(cache))
            && (200 <= status < 300 ==>
                  url in cache.entries && cache.entries[url] == CacheEntry(body, headers, now)
                  && forall k :: k in cache.entries && k != url ==>
                       k in old(cache.entries) && cache.entries[k] == old(cache.entries)[k])
    {
      if query.None? || query.value == "" {
        return MissingUrl;
      }
      var url := NormalizeUrl(query.value);
      if api.Protocol(url).None? {
        return ErrorPage(500);
      }
      var cached := Lookup(url, now);
      if cached.Some? {
        if !HeadersSafe(cached.value.headers) {
          return ErrorPage(ErrorStatus(None));
        }
        return Sent(200, cached.value.headers, cached.value.data);
      }
      match upstream
      case NoResponse =>
        reply := ErrorPage(ErrorStatus(None));
      case Response(status, contentType, data) =>
        if status >= 500 {
          reply := ErrorPage(ErrorStatus(Some(status)));
        } else {
          var body := ServedBody(url, contentType, data, decode, api);
          var headers := Headers(ResponseContentType(contentType), url);
          Store(url, CacheEntry(body, headers, now), status);
          if HeadersSafe(headers) {
            reply := Sent(status, headers, body);
          } else {
            reply := ErrorPage(ErrorStatus(None));
          }
        }
    }
  }

  /** The sweep keeps exactly the entries at most `CacheDuration` old, with
      their values, and so never drops an entry `Lookup` would serve. */
  lemma SweepKeepsFresh(m: map<string, CacheEntry>, now: int)
    ensures forall k :: k in KeptEntries(m, StaleAt(now)) <==> k in m && now - m[k].timestamp <= CacheDuration
    ensures forall k :: k in m && Fresh(m[k], now) ==>
      k in KeptEntries(m, StaleAt(now)) && KeptEntries(m, StaleAt(now))[k] == m[k]
  {
    forall k | k in m
      ensures k in KeptEntries(m, StaleAt(now)) <==> now - m[k].timestamp <= CacheDuration
    {
      assert StaleAt(now)(m[k]) == Stale(m[k], now);
    }
  }

  lemma {:induction false} RetainedLength(keys: seq<string>, m: map<string, CacheEntry>, drop: CacheEntry -> bool)
    requires forall k :: k in keys ==> k in m
    ensures |Retained(keys, m, drop)| <= |keys|
  {
    if keys != [] {
      RetainedLength(keys[..|keys| - 1], m, drop);
    }
  }
}
