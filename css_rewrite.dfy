/** `rewriteCssUrls` (server.js): three ordered passes over `url(...)` tokens.

    Each pass is the JavaScript pattern
      url\s*\(\s*(['"]?) GROUP \1\s*\)      (flags g and i)
    where GROUP is, per pass,
      1. (?!data:)(?!https?:\/\/)[^'")]+   resolved against the page URL,
      2. https?:\/\/[^'")]+                 taken as it is,
      3. \/\/[^'")]+                        prefixed with the page's protocol.
    The matcher below follows the regular expression engine's backtracking
    order: the `\s*` before the group gives back one character at a time, and
    at each length the optional quote is tried present before absent. Because
    `[^'")]+` is greedy and is followed by a quote, a `\s*` or `)` it cannot
    contain, only its longest run can lead to a match. */
module CssRewrite {
  import opened Wrappers
  import opened JsString
  import opened UriEncode
  import opened UrlApi
  import GlobalReplace

  datatype Pass = Relative | Absolute | ProtocolRelative

  /** A matched `url(...)` token: the quote the group was enclosed in (empty,
      `'` or `"`), where the group starts, the group itself, and the end of the
      token (just after its `)`). */
  datatype CssUrl = CssUrl(quote: string, urlStart: nat, url: string, end: nat)

  predicate IsQuote(c: char) {
    c == '"' || c == '\''
  }

  /** The characters `[^'")]` excludes. */
  predicate IsCssStop(c: char) {
    IsQuote(c) || c == ')'
  }

  /** The end of the longest run of `[^'")]` starting at `c`. */
  function RunEnd(s: string, c: nat): (e: nat)
    requires c <= |s|
    ensures c <= e <= |s|
    ensures forall k :: c <= k < e ==> !IsCssStop(s[k])
    ensures e < |s| ==> IsCssStop(s[e])
    decreases |s| - c
  {
    if c < |s| && !IsCssStop(s[c]) then RunEnd(s, c + 1) else c
  }

  /** Whether the run `g` can be the group of `pass`. The lookaheads and
      literal prefixes of the pattern contain none of `'")`, so they read the
      same on the run as on the subject (`LookaheadOnRun`). */
  predicate GroupFits(g: string, pass: Pass) {
    match pass
    case Relative =>
      g != [] && !MatchesAtCI(g, 0, "data:") && !MatchesAtCI(g, 0, "http://") && !MatchesAtCI(g, 0, "https://")
    case Absolute =>
      (MatchesAtCI(g, 0, "https://") && 8 < |g|) || (MatchesAtCI(g, 0, "http://") && 7 < |g|)
    case ProtocolRelative =>
      MatchesAt(g, 0, "//") && 2 < |g|
  }

  lemma {:induction false} RunCovers(s: string, c: nat, n: nat)
    requires c + n <= |s|
    requires forall k :: c <= k < c + n ==> !IsCssStop(s[k])
    ensures c + n <= RunEnd(s, c)
    decreases n
  {
    if n > 0 {
      RunCovers(s, c + 1, n - 1);
    }
  }

  /** A lookahead or literal made of characters outside `'")` matches at the
      start of the run exactly when it matches the subject there. */
  lemma LookaheadOnRun(s: string, c: nat, lit: string)
    requires c <= |s|
    requires forall k :: 0 <= k < |lit| ==> !IsCssStop(Lower(lit[k]))
    ensures MatchesAtCI(s, c, lit) <==> MatchesAtCI(s[c..RunEnd(s, c)], 0, lit)
  {
    var e := RunEnd(s, c);
    var g := s[c..e];
    var m := |lit|;
    if MatchesAtCI(s, c, lit) {
      forall k | c <= k < c + m ensures !IsCssStop(s[k]) {
        assert Lower(s[c + (k - c)]) == Lower(lit[k - c]);
      }
      RunCovers(s, c, m);
    }
  }

  /** What every matched token satisfies: its group is where the token says,
      holds none of `'")`, fits the pass, and is enclosed in the text by its
      quote, which is nothing, `"` or `'`. */
  predicate TokenFits(s: string, u: CssUrl, pass: Pass) {
    && u.urlStart + |u.url| <= |s| && s[u.urlStart..u.urlStart + |u.url|] == u.url
    && (forall k :: 0 <= k < |u.url| ==> !IsCssStop(u.url[k]))
    && GroupFits(u.url, pass)
    && (u.quote == [] || u.quote == ['"'] || u.quote == ['\''])
    && |u.quote| <= u.urlStart && s[u.urlStart - |u.quote|..u.urlStart] == u.quote
    && MatchesAt(s, u.urlStart + |u.url|, u.quote)
  }

  /** The group starting at `c`, just after the quote `q`, then `\1\s*\)`
      with `\1` that same quote. */
  function QuotedAt(s: string, c: nat, q: char, pass: Pass): (r: Option<CssUrl>)
    requires 0 < c <= |s| && IsQuote(q) && s[c - 1] == q
    ensures r.Some? ==> r.value.quote == [q] && r.value.urlStart == c && c < r.value.end <= |s|
    ensures r.Some? ==> r.value.url == s[c..RunEnd(s, c)] && RunEnd(s, c) < |s| && s[RunEnd(s, c)] == q
    ensures r.Some? ==> r.value.end == SpaceRun(s, RunEnd(s, c) + 1) + 1
    ensures r.Some? ==> s[r.value.end - 1] == ')'
    ensures r.Some? ==> TokenFits(s, r.value, pass)
  {
    var e := RunEnd(s, c);
    if GroupFits(s[c..e], pass) && e < |s| && s[e] == q then
      var f := SpaceRun(s, e + 1);
      if f < |s| && s[f] == ')' then Some(CssUrl([q], c, s[c..e], f + 1)) else None
    else None
  }

  /** The group starting at `c`, then an empty `\1`, `\s*` and `)`. */
  function UnquotedAt(s: string, c: nat, pass: Pass): (r: Option<CssUrl>)
    requires c <= |s|
    ensures r.Some? ==> r.value.quote == [] && r.value.urlStart == c && c < r.value.end <= |s|
    ensures r.Some? ==> r.value.url == s[c..RunEnd(s, c)] && r.value.end == RunEnd(s, c) + 1
    ensures r.Some? ==> s[r.value.end - 1] == ')'
    ensures r.Some? ==> TokenFits(s, r.value, pass)
  {
    var e := RunEnd(s, c);
    if GroupFits(s[c..e], pass) && e < |s| && s[e] == ')' then Some(CssUrl([], c, s[c..e], e + 1)) else None
  }

  /** `(['"]?)` followed by the rest, with the quote tried first. */
  function QuoteChoiceAt(s: string, b: nat, pass: Pass): (r: Option<CssUrl>)
    requires b <= |s|
    ensures r.Some? ==> b <= r.value.urlStart < r.value.end <= |s| && s[r.value.end - 1] == ')'
    ensures r.Some? ==> TokenFits(s, r.value, pass)
  {
    if b < |s| && IsQuote(s[b]) then
      var quoted := QuotedAt(s, b + 1, s[b], pass);
      if quoted.Some? then quoted else UnquotedAt(s, b, pass)
    else UnquotedAt(s, b, pass)
  }

  /** The `\s*` after `(` has matched `s[a..b]`; on failure it gives back one character. */
  function BacktrackFrom(s: string, a: nat, b: nat, pass: Pass): (r: Option<CssUrl>)
    requires a <= b <= |s|
    ensures r.Some? ==> a <= r.value.urlStart < r.value.end <= |s| && s[r.value.end - 1] == ')'
    ensures r.Some? ==> TokenFits(s, r.value, pass)
    decreases b - a
  {
    var here := QuoteChoiceAt(s, b, pass);
    if here.Some? || b == a then here else BacktrackFrom(s, a, b - 1, pass)
  }

  /** The token of `pass` that begins at `p`, if any. */
  function CssUrlAt(s: string, p: nat, pass: Pass): (r: Option<CssUrl>)
    ensures r.Some? ==> p + 4 <= r.value.urlStart < r.value.end <= |s|
    ensures r.Some? ==> MatchesAtCI(s, p, "url") && s[r.value.end - 1] == ')'
    ensures r.Some? ==> TokenFits(s, r.value, pass)
  {
    if !MatchesAtCI(s, p, "url") then None
    else
      var o := SpaceRun(s, p + 3);
      if o < |s| && s[o] == '(' then
        var r := BacktrackFrom(s, o + 1, SpaceRun(s, o + 1), pass);
        r
      else None
  }

  lemma TokenPieces(s: string, p: nat, q: string, u: string)
    requires MatchesAt(s, p, "url(" + q + u + q + ")")
    ensures p + 5 + 2 * |q| + |u| <= |s|
    ensures s[p..p + 3] == "url" && s[p + 3] == '('
    ensures s[p + 4..p + 4 + |q|] == q
    ensures s[p + 4 + |q|..p + 4 + |q| + |u|] == u
    ensures s[p + 4 + |q| + |u|..p + 4 + 2 * |q| + |u|] == q
    ensures s[p + 4 + 2 * |q| + |u|] == ')'
  {
    var n := |q|;
    MatchesConcat(s, p, "url(" + q + u + q, ")");
    MatchesConcat(s, p, "url(" + q + u, q);
    MatchesConcat(s, p, "url(" + q, u);
    MatchesConcat(s, p, "url(", q);
    MatchesConcat(s, p, "url", "(");
    assert s[p + 3] == s[p + 3..p + 4][0];
    assert s[p + 4 + 2 * n + |u|] == s[p + 4 + 2 * n + |u|..p + 5 + 2 * n + |u|][0];
  }

  /** After `url(`, a token whose group fits the pass is matched by the
      first attempt of the backtracking search. */
  lemma FirstAttempt(s: string, p: nat, pass: Pass, r: CssUrl)
    requires MatchesAtCI(s, p, "url") && p + 4 <= |s| && s[p + 3] == '(' && SpaceRun(s, p + 4) == p + 4
    requires QuoteChoiceAt(s, p + 4, pass) == Some(r)
    ensures CssUrlAt(s, p, pass) == Some(r)
  {
    assert SpaceRun(s, p + 3) == p + 3;
  }

  lemma CanonicalQuoted(s: string, p: nat, q: string, u: string, pass: Pass)
    requires q == ['"'] || q == ['\'']
    requires GroupFits(u, pass) && forall k :: 0 <= k < |u| ==> !IsCssStop(u[k])
    requires MatchesAt(s, p, "url(" + q + u + q + ")")
    ensures CssUrlAt(s, p, pass) == Some(CssUrl(q, p + 4 + |q|, u, p + 5 + 2 * |q| + |u|))
  {
    var ch := q[0];
    assert q == [ch];
    TokenPieces(s, p, q, u);
    assert s[p + 4] == s[p + 4..p + 5][0];
    assert s[p + 5 + |u|] == s[p + 5 + |u|..p + 6 + |u|][0];
    assert CssUrl([ch], p + 5, u, p + 7 + |u|) == CssUrl(q, p + 4 + |q|, u, p + 5 + 2 * |q| + |u|);
    QuotedFromPieces(s, p, ch, u, pass);
  }

  /** The run starting at `c` ends where the quote- and bracket-free `u` does. */
  lemma RunOfGroup(s: string, c: nat, u: string)
    requires c + |u| < |s| && s[c..c + |u|] == u && IsCssStop(s[c + |u|])
    requires forall k :: 0 <= k < |u| ==> !IsCssStop(u[k])
    ensures RunEnd(s, c) == c + |u|
  {
    forall k | c <= k < c + |u| ensures !IsCssStop(s[k]) { assert s[k] == u[k - c]; }
    RunCovers(s, c, |u|);
  }

  lemma QuotedFromPieces(s: string, p: nat, ch: char, u: string, pass: Pass)
    requires IsQuote(ch)
    requires GroupFits(u, pass) && forall k :: 0 <= k < |u| ==> !IsCssStop(u[k])
    requires p + 7 + |u| <= |s| && s[p..p + 3] == "url" && s[p + 3] == '(' && s[p + 4] == ch
    requires s[p + 5..p + 5 + |u|] == u && s[p + 5 + |u|] == ch && s[p + 6 + |u|] == ')'
    ensures CssUrlAt(s, p, pass) == Some(CssUrl([ch], p + 5, u, p + 7 + |u|))
  {
    RunOfGroup(s, p + 5, u);
    QuotedOfRun(s, p + 5, ch, u, pass);
    UrlLiteralCI(s, p);
    QuotedToken(s, p, ch, CssUrl([ch], p + 5, u, p + 7 + |u|), pass);
  }

  lemma UrlLiteralCI(s: string, p: nat)
    requires p + 3 <= |s| && s[p..p + 3] == "url"
    ensures MatchesAtCI(s, p, "url")
  {
    assert MatchesAt(s, p, "url");
    MatchesAtImpliesCI(s, p, "url");
  }

  /** `url(` and a quote, then a quoted group that `QuotedAt` matches. */
  lemma QuotedToken(s: string, p: nat, ch: char, r: CssUrl, pass: Pass)
    requires MatchesAtCI(s, p, "url") && p + 5 <= |s| && s[p + 3] == '(' && s[p + 4] == ch && IsQuote(ch)
    requires QuotedAt(s, p + 5, ch, pass) == Some(r)
    ensures CssUrlAt(s, p, pass) == Some(r)
  {
    assert QuoteChoiceAt(s, p + 4, pass) == Some(r);
    assert SpaceRun(s, p + 4) == p + 4;
    FirstAttempt(s, p, pass, r);
  }

  lemma QuotedOfRun(s: string, c: nat, ch: char, u: string, pass: Pass)
    requires IsQuote(ch) && GroupFits(u, pass)
    requires 0 < c && c + |u| + 1 < |s| && s[c - 1] == ch
    requires s[c..c + |u|] == u && RunEnd(s, c) == c + |u|
    requires s[c + |u|] == ch && s[c + |u| + 1] == ')'
    ensures QuotedAt(s, c, ch, pass) == Some(CssUrl([ch], c, u, c + |u| + 2))
  {
    assert SpaceRun(s, c + |u| + 1) == c + |u| + 1;
  }

  lemma CanonicalUnquoted(s: string, p: nat, q: string, u: string, pass: Pass)
    requires q == []
    requires GroupFits(u, pass) && forall k :: 0 <= k < |u| ==> !IsCssStop(u[k])
    requires !IsSpace(u[0])
    requires MatchesAt(s, p, "url(" + q + u + q + ")")
    ensures CssUrlAt(s, p, pass) == Some(CssUrl(q, p + 4 + |q|, u, p + 5 + 2 * |q| + |u|))
  {
    TokenPieces(s, p, q, u);
    assert CssUrl([], p + 4, u, p + 5 + |u|) == CssUrl(q, p + 4 + |q|, u, p + 5 + 2 * |q| + |u|);
    UnquotedFromPieces(s, p, u, pass);
  }

  lemma UnquotedFromPieces(s: string, p: nat, u: string, pass: Pass)
    requires GroupFits(u, pass) && forall k :: 0 <= k < |u| ==> !IsCssStop(u[k])
    requires !IsSpace(u[0])
    requires p + 5 + |u| <= |s| && s[p..p + 3] == "url" && s[p + 3] == '('
    requires s[p + 4..p + 4 + |u|] == u && s[p + 4 + |u|] == ')'
    ensures CssUrlAt(s, p, pass) == Some(CssUrl([], p + 4, u, p + 5 + |u|))
  {
    var c := p + 4;
    var r := CssUrl([], c, u, c + |u| + 1);
    assert UnquotedAt(s, c, pass) == Some(r) by {
      RunOfGroup(s, c, u);
      UnquotedOfRun(s, c, u, pass);
    }
    assert MatchesAtCI(s, p, "url") by {
      assert MatchesAt(s, p, "url");
      MatchesAtImpliesCI(s, p, "url");
    }
    assert s[c] == u[0];
    UnquotedToken(s, p, r, pass);
  }

  lemma UnquotedOfRun(s: string, c: nat, u: string, pass: Pass)
    requires GroupFits(u, pass)
    requires c + |u| < |s| && s[c..c + |u|] == u && RunEnd(s, c) == c + |u| && s[c + |u|] == ')'
    ensures UnquotedAt(s, c, pass) == Some(CssUrl([], c, u, c + |u| + 1))
  {
  }

  /** `url(`, then a group that `UnquotedAt` matches, starting with neither
      a quote nor white space. */
  lemma UnquotedToken(s: string, p: nat, r: CssUrl, pass: Pass)
    requires MatchesAtCI(s, p, "url") && p + 4 < |s| && s[p + 3] == '('
    requires !IsQuote(s[p + 4]) && !IsSpace(s[p + 4])
    requires UnquotedAt(s, p + 4, pass) == Some(r)
    ensures CssUrlAt(s, p, pass) == Some(r)
  {
    assert QuoteChoiceAt(s, p + 4, pass) == Some(r);
    assert SpaceRun(s, p + 4) == p + 4;
    FirstAttempt(s, p, pass, r);
  }

  /** Completeness on the plain forms: `url(` + q + u + q + `)` with q empty,
      `'` or `"`, and a group u that fits the pass (and, when unquoted, does
      not start with white space, which `\s*` would take) is matched whole. */
  lemma CanonicalToken(s: string, p: nat, q: string, u: string, pass: Pass)
    requires q == [] || q == ['"'] || q == ['\'']
    requires GroupFits(u, pass) && forall k :: 0 <= k < |u| ==> !IsCssStop(u[k])
    requires q == [] ==> !IsSpace(u[0])
    requires MatchesAt(s, p, "url(" + q + u + q + ")")
    ensures CssUrlAt(s, p, pass) == Some(CssUrl(q, p + 4 + |q|, u, p + 5 + 2 * |q| + |u|))
  {
    if q == [] {
      CanonicalUnquoted(s, p, q, u, pass);
    } else {
      CanonicalQuoted(s, p, q, u, pass);
    }
  }

  /** `"url(" + quote + proxyBase + encodeURIComponent(target) + quote + ")"` */
  function ProxiedToken(quote: string, target: string): string {
    "url(" + quote + ProxyBase + EncodeURIComponent(target) + quote + ")"
  }

  /** Pass 1: a relative reference is resolved against the page URL after
      trimming; where resolution throws, the callback's `catch` keeps the
      token as it was. */
  function RelativeStep(s: string, p: nat, base: string, api: UrlParser): (r: GlobalReplace.Step)
    ensures r.Subst? ==> p < r.end <= |s|
    ensures !r.Throw?
  {
    match CssUrlAt(s, p, Relative)
    case None => GlobalReplace.NoMatch
    case Some(u) =>
      match api.Resolve(Trim(u.url), base)
      case Some(href) => GlobalReplace.Subst(u.end, ProxiedToken(u.quote, href))
      case None => GlobalReplace.Subst(u.end, s[p..u.end])
  }

  /** Pass 2: an absolute `http(s)://` reference is proxied as it is. */
  function AbsoluteStep(s: string, p: nat): (r: GlobalReplace.Step)
    ensures r.Subst? ==> p < r.end <= |s|
    ensures !r.Throw?
  {
    match CssUrlAt(s, p, Absolute)
    case None => GlobalReplace.NoMatch
    case Some(u) => GlobalReplace.Subst(u.end, ProxiedToken(u.quote, u.url))
  }

  /** Pass 3: a protocol-relative reference gets the page's protocol; the
      callback parses the page URL itself, outside any `try`, so a page URL
      that does not parse makes the whole call throw. */
  function ProtocolRelativeStep(s: string, p: nat, base: string, api: UrlParser): (r: GlobalReplace.Step)
    ensures r.Subst? ==> p < r.end <= |s|
    ensures r.Throw? ==> api.Protocol(base).None?
  {
    match CssUrlAt(s, p, ProtocolRelative)
    case None => GlobalReplace.NoMatch
    case Some(u) =>
      match api.Protocol(base)
      case Some(protocol) => GlobalReplace.Subst(u.end, ProxiedToken(u.quote, protocol + u.url))
      case None => GlobalReplace.Throw
  }

  function RelativePass(css: string, base: string, api: UrlParser): Option<string> {
    var m := (t: string, i: nat) => RelativeStep(t, i, base, api);
    assert GlobalReplace.Advances(m, css);
    GlobalReplace.ReplaceAll(css, m)
  }

  function AbsolutePass(css: string): Option<string> {
    var m := (t: string, i: nat) => AbsoluteStep(t, i);
    assert GlobalReplace.Advances(m, css);
    GlobalReplace.ReplaceAll(css, m)
  }

  function ProtocolRelativePass(css: string, base: string, api: UrlParser): Option<string> {
    var m := (t: string, i: nat) => ProtocolRelativeStep(t, i, base, api);
    assert GlobalReplace.Advances(m, css);
    GlobalReplace.ReplaceAll(css, m)
  }

  /** `rewriteCssUrls(css, originalUrl)`; `None` when it throws, which
      happens only when the page URL does not parse. */
  function RewriteCssUrls(css: string, base: string, api: UrlParser): (r: Option<string>)
    ensures api.Protocol(base).Some? ==> r.Some?
  {
    PassesComplete(css, base, api);
    match RelativePass(css, base, api)
    case None => None
    case Some(css1) =>
      match AbsolutePass(css1)
      case None => None
      case Some(css2) => ProtocolRelativePass(css2, base, api)
  }

  /** A stylesheet in which `url` (in any case) never occurs is returned unchanged. */
  lemma NoUrlUnchanged(css: string, base: string, api: UrlParser)
    requires forall j :: 0 <= j < |css| ==> !MatchesAtCI(css, j, "url")
    ensures RewriteCssUrls(css, base, api) == Some(css)
  {
    var m1 := (t: string, i: nat) => RelativeStep(t, i, base, api);
    var m2 := (t: string, i: nat) => AbsoluteStep(t, i);
    var m3 := (t: string, i: nat) => ProtocolRelativeStep(t, i, base, api);
    assert GlobalReplace.Advances(m1, css) && GlobalReplace.Advances(m2, css) && GlobalReplace.Advances(m3, css);
    GlobalReplace.NoMatchIdentity(css, m1);
    GlobalReplace.NoMatchIdentity(css, m2);
    GlobalReplace.NoMatchIdentity(css, m3);
  }

  /** Once the page URL parses, each of the three passes completes. */
  lemma PassesComplete(css: string, base: string, api: UrlParser)
    ensures api.Protocol(base).Some? ==>
      && RelativePass(css, base, api).Some?
      && AbsolutePass(RelativePass(css, base, api).value).Some?
      && ProtocolRelativePass(AbsolutePass(RelativePass(css, base, api).value).value, base, api).Some?
  {
    if api.Protocol(base).Some? {
      var m1 := (t: string, i: nat) => RelativeStep(t, i, base, api);
      assert GlobalReplace.Advances(m1, css);
      GlobalReplace.NoThrowFromSucceeds(css, m1, 0);
      var css1 := RelativePass(css, base, api).value;
      var m2 := (t: string, i: nat) => AbsoluteStep(t, i);
      assert GlobalReplace.Advances(m2, css1);
      GlobalReplace.NoThrowFromSucceeds(css1, m2, 0);
      var css2 := AbsolutePass(css1).value;
      var m3 := (t: string, i: nat) => ProtocolRelativeStep(t, i, base, api);
      assert GlobalReplace.Advances(m3, css2);
      GlobalReplace.NoThrowFromSucceeds(css2, m3, 0);
    }
  }

  /** How each pass rewrites a plain token: pass 1 proxies the resolution of
      the trimmed reference (and keeps the token when resolution fails),
      pass 2 the reference itself, pass 3 the page's protocol followed by the
      reference; the quote is kept in every case. */
  lemma CanonicalTokenRewritten(s: string, p: nat, q: string, u: string, base: string, api: UrlParser, pass: Pass)
    requires q == [] || q == ['"'] || q == ['\'']
    requires GroupFits(u, pass) && forall k :: 0 <= k < |u| ==> !IsCssStop(u[k])
    requires q == [] ==> !IsSpace(u[0])
    requires MatchesAt(s, p, "url(" + q + u + q + ")")
    ensures var end := p + 5 + 2 * |q| + |u|;
      match pass
      case Relative =>
        RelativeStep(s, p, base, api) ==
          if api.Resolve(Trim(u), base).Some? then GlobalReplace.Subst(end, ProxiedToken(q, api.Resolve(Trim(u), base).value))
          else GlobalReplace.Subst(end, "url(" + q + u + q + ")")
      case Absolute =>
        AbsoluteStep(s, p) == GlobalReplace.Subst(end, ProxiedToken(q, u))
      case ProtocolRelative =>
        ProtocolRelativeStep(s, p, base, api) ==
          if api.Protocol(base).Some? then GlobalReplace.Subst(end, ProxiedToken(q, api.Protocol(base).value + u))
          else GlobalReplace.Throw
  {
    CanonicalToken(s, p, q, u, pass);
    StepsOfToken(s, p, q, u, base, api, pass);
  }

  lemma StepsOfToken(s: string, p: nat, q: string, u: string, base: string, api: UrlParser, pass: Pass)
    requires MatchesAt(s, p, "url(" + q + u + q + ")")
    requires CssUrlAt(s, p, pass) == Some(CssUrl(q, p + 4 + |q|, u, p + 5 + 2 * |q| + |u|))
    ensures var end := p + 5 + 2 * |q| + |u|;
      match pass
      case Relative =>
        RelativeStep(s, p, base, api) ==
          if api.Resolve(Trim(u), base).Some? then GlobalReplace.Subst(end, ProxiedToken(q, api.Resolve(Trim(u), base).value))
          else GlobalReplace.Subst(end, "url(" + q + u + q + ")")
      case Absolute =>
        AbsoluteStep(s, p) == GlobalReplace.Subst(end, ProxiedToken(q, u))
      case ProtocolRelative =>
        ProtocolRelativeStep(s, p, base, api) ==
          if api.Protocol(base).Some? then GlobalReplace.Subst(end, ProxiedToken(q, api.Protocol(base).value + u))
          else GlobalReplace.Throw
  {
    var tok := CssUrl(q, p + 4 + |q|, u, p + 5 + 2 * |q| + |u|);
    match pass
    case Relative =>
      assert s[p..tok.end] == "url(" + q + u + q + ")";
      RelativeOfToken(s, p, tok, base, api);
    case Absolute =>
      AbsoluteOfToken(s, p, tok);
    case ProtocolRelative =>
      ProtocolRelativeOfToken(s, p, tok, base, api);
  }

  lemma RelativeOfToken(s: string, p: nat, tok: CssUrl, base: string, api: UrlParser)
    requires CssUrlAt(s, p, Relative) == Some(tok)
    ensures RelativeStep(s, p, base, api) ==
      if api.Resolve(Trim(tok.url), base).Some? then GlobalReplace.Subst(tok.end, ProxiedToken(tok.quote, api.Resolve(Trim(tok.url), base).value))
      else GlobalReplace.Subst(tok.end, s[p..tok.end])
  {
  }

  lemma AbsoluteOfToken(s: string, p: nat, tok: CssUrl)
    requires CssUrlAt(s, p, Absolute) == Some(tok)
    ensures AbsoluteStep(s, p) == GlobalReplace.Subst(tok.end, ProxiedToken(tok.quote, tok.url))
  {
  }

  lemma ProtocolRelativeOfToken(s: string, p: nat, tok: CssUrl, base: string, api: UrlParser)
    requires CssUrlAt(s, p, ProtocolRelative) == Some(tok)
    ensures ProtocolRelativeStep(s, p, base, api) ==
      if api.Protocol(base).Some? then GlobalReplace.Subst(tok.end, ProxiedToken(tok.quote, api.Protocol(base).value + tok.url))
      else GlobalReplace.Throw
  {
  }
}
