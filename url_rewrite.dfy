/** `rewriteUrls` (server.js): the rewrite of a fetched text payload so that
    the references in it lead back through the proxy.

    HTML passes 1 to 3 are the pattern
      (src|href|action|data-src|data-href)=["'] GROUP ["']     (flags g and i)
    with GROUP, per pass,
      1. (?!data:)(?!https?:\/\/)(?!\/\/)(.*?)   resolved against the page URL,
      2. (https?:\/\/.*?)                        taken as it is,
      3. (\/\/.*?)                               prefixed with the page's protocol.
    The five attribute names differ in their first characters, so at most one
    of them matches at a position; `.*?` is lazy, so the group ends at the
    first quote of either kind, and it cannot cross a line terminator. The
    replacement always writes the attribute as matched, then `="`, the proxy
    link and `"`. */
module UrlRewrite {
  import opened Wrappers
  import opened JsString
  import opened UriEncode
  import opened UrlApi
  import CssRewrite
  import GlobalReplace

  datatype HtmlPass = Relative | Absolute | ProtocolRelative

  /** A matched attribute: its name as written, the group, and the end of the
      match (just after the closing quote). */
  datatype Attr = Attr(attr: string, url: string, end: nat)

  predicate IsQuote(c: char) {
    CssRewrite.IsQuote(c)
  }

  predicate IsAttrName(n: string) {
    n == "src" || n == "href" || n == "action" || n == "data-src" || n == "data-href"
  }

  /** The alternative of `(src|href|action|data-src|data-href)` that matches at `p`. */
  function AttrNameAt(s: string, p: nat): (r: Option<string>)
    ensures r.Some? ==> IsAttrName(r.value) && MatchesAtCI(s, p, r.value)
  {
    if MatchesAtCI(s, p, "src") then Some("src")
    else if MatchesAtCI(s, p, "href") then Some("href")
    else if MatchesAtCI(s, p, "action") then Some("action")
    else if MatchesAtCI(s, p, "data-src") then Some("data-src")
    else if MatchesAtCI(s, p, "data-href") then Some("data-href")
    else None
  }

  /** The end of the lazy `.*?["']` started at `c`: the first quote, provided
      no line terminator comes before it. */
  function LazyQuoteEnd(s: string, c: nat): (r: Option<nat>)
    requires c <= |s|
    ensures r.Some? ==> c <= r.value < |s| && IsQuote(s[r.value])
    ensures r.Some? ==> forall k :: c <= k < r.value ==> !IsQuote(s[k]) && !IsLineTerminator(s[k])
    decreases |s| - c
  {
    if c == |s| || IsLineTerminator(s[c]) then None
    else if IsQuote(s[c]) then Some(c)
    else LazyQuoteEnd(s, c + 1)
  }

  /** The lazy group may start anywhere within a run free of quotes and line
      terminators, such as the literal `http://` of pass 2, with the same end. */
  lemma {:induction false} LazySkips(s: string, c: nat, n: nat)
    requires c + n <= |s|
    requires forall k :: c <= k < c + n ==> !IsQuote(s[k]) && !IsLineTerminator(s[k])
    ensures LazyQuoteEnd(s, c) == LazyQuoteEnd(s, c + n)
    decreases n
  {
    if n > 0 {
      LazySkips(s, c + 1, n - 1);
    }
  }

  /** The lookaheads or literal prefix of each pass at the group start `c`. */
  predicate StartFits(s: string, c: nat, pass: HtmlPass) {
    match pass
    case Relative =>
      !MatchesAtCI(s, c, "data:") && !MatchesAtCI(s, c, "http://") && !MatchesAtCI(s, c, "https://")
      && !MatchesAt(s, c, "//")
    case Absolute => MatchesAtCI(s, c, "http://") || MatchesAtCI(s, c, "https://")
    case ProtocolRelative => MatchesAt(s, c, "//")
  }

  /** The attribute of `pass` that matches at `p`, if any. */
  function AttrAt(s: string, p: nat, pass: HtmlPass): (r: Option<Attr>)
    ensures r.Some? ==> p < r.value.end <= |s| && IsQuote(s[r.value.end - 1])
  {
    match AttrNameAt(s, p)
    case None => None
    case Some(name) => AttrAfterName(s, p, |name|, pass)
  }

  /** The rest of an attribute match once a name of length `n` matched at `p`. */
  function AttrAfterName(s: string, p: nat, n: nat, pass: HtmlPass): (r: Option<Attr>)
    ensures r.Some? ==> p < r.value.end <= |s| && IsQuote(s[r.value.end - 1])
  {
    var e := p + n;
    if e + 1 < |s| && s[e] == '=' && IsQuote(s[e + 1]) && StartFits(s, e + 2, pass) then
      match LazyQuoteEnd(s, e + 2)
      case Some(j) => Some(Attr(s[p..e], s[e + 2..j], j + 1))
      case None => None
    else None
  }

  /** What an attribute match consists of: one of the five names (in any
      case) as written, `=`, a quote, the group (the pass's lookaheads hold
      at its start; it holds no quote and no line terminator) and a quote. */
  lemma AttrAtSound(s: string, p: nat, pass: HtmlPass)
    requires AttrAt(s, p, pass).Some?
    ensures var a := AttrAt(s, p, pass).value; var n := |a.attr|; var c := p + n + 2;
      && c + |a.url| + 1 == a.end
      && a.attr == s[p..p + n] && IsAttrName(AsciiLower(a.attr))
      && s[p + n] == '=' && IsQuote(s[p + n + 1])
      && a.url == s[c..c + |a.url|] && StartFits(s, c, pass)
      && forall k :: 0 <= k < |a.url| ==> !IsQuote(a.url[k]) && !IsLineTerminator(a.url[k])
  {
    var name := AttrNameAt(s, p).value;
    var e := p + |name|;
    assert e + 1 < |s| && s[e] == '=' && IsQuote(s[e + 1]) && StartFits(s, e + 2, pass);
    var j := LazyQuoteEnd(s, e + 2).value;
    var a := Attr(s[p..e], s[e + 2..j], j + 1);
    assert AttrAt(s, p, pass) == Some(a);
    AttrTextLower(s, p, name);
    assert |a.attr| == |name|;
  }

  function AsciiLower(t: string): (r: string)
    ensures |r| == |t| && forall k :: 0 <= k < |t| ==> r[k] == Lower(t[k])
  {
    if t == [] then [] else [Lower(t[0])] + AsciiLower(t[1..])
  }

  /** The attribute as written folds to the name that matched it. */
  lemma AttrTextLower(s: string, p: nat, name: string)
    requires IsAttrName(name) && MatchesAtCI(s, p, name)
    ensures AsciiLower(s[p..p + |name|]) == name
  {
    var t := s[p..p + |name|];
    forall k | 0 <= k < |name| ensures AsciiLower(t)[k] == name[k] {
      assert Lower(t[k]) == Lower(name[k]);
    }
  }

  /** `${attr}="${proxyBase}${encodeURIComponent(target)}"` */
  function ProxiedAttr(attr: string, target: string): string {
    attr + "=\"" + ProxyBase + EncodeURIComponent(target) + "\""
  }

  /** The targets pass 1 leaves alone (compared case-sensitively). */
  predicate IsLocalTarget(url: string) {
    StartsWith(url, "#") || StartsWith(url, "javascript:") || StartsWith(url, "mailto:")
  }

  /** HTML pass 1: a relative reference is resolved against the page URL.
      The resolution is not inside a `try` of its own, so when it throws the
      whole rewrite stops. */
  function RelativeAttrStep(s: string, p: nat, base: string, api: UrlParser): (r: GlobalReplace.Step)
    ensures r.Subst? ==> p < r.end <= |s|
  {
    match AttrAt(s, p, Relative)
    case None => GlobalReplace.NoMatch
    case Some(a) =>
      if IsLocalTarget(a.url) then GlobalReplace.Subst(a.end, s[p..a.end])
      else
        match api.Resolve(a.url, base)
        case Some(href) => GlobalReplace.Subst(a.end, ProxiedAttr(a.attr, href))
        case None => GlobalReplace.Throw
  }

  /** HTML pass 2: an absolute `http(s)://` reference is proxied as it is. */
  function AbsoluteAttrStep(s: string, p: nat): (r: GlobalReplace.Step)
    ensures r.Subst? ==> p < r.end <= |s|
    ensures !r.Throw?
  {
    match AttrAt(s, p, Absolute)
    case None => GlobalReplace.NoMatch
    case Some(a) => GlobalReplace.Subst(a.end, ProxiedAttr(a.attr, a.url))
  }

  /** HTML pass 3: a protocol-relative reference gets the page's protocol. */
  function ProtocolRelativeAttrStep(s: string, p: nat, protocol: string): (r: GlobalReplace.Step)
    ensures r.Subst? ==> p < r.end <= |s|
    ensures !r.Throw?
  {
    match AttrAt(s, p, ProtocolRelative)
    case None => GlobalReplace.NoMatch
    case Some(a) => GlobalReplace.Subst(a.end, ProxiedAttr(a.attr, protocol + a.url))
  }

  /** The end of the longest run starting at `c` that `excluded` never holds of. */
  function RunUntil(s: string, c: nat, excluded: char -> bool): (e: nat)
    requires c <= |s|
    ensures c <= e <= |s|
    ensures forall k :: c <= k < e ==> !excluded(s[k])
    ensures e < |s| ==> excluded(s[e])
    decreases |s| - c
  {
    if c < |s| && !excluded(s[c]) then RunUntil(s, c + 1, excluded) else c
  }

  predicate IsCloseParen(c: char) {
    c == ')'
  }

  /** The group `s[c..q]` of a `style` attribute, closed by the quote at
      `q`, read as `[^"']*url\([^)]+\)[^"']*`: no quote before the `url(` at
      `u`, at least one character other than `)` after it up to the `)` at
      `close`, and no quote from there to `q`. */
  predicate StyleShape(s: string, c: nat, u: nat, close: nat, q: nat) {
    && c <= u && u + 4 < close < q < |s|
    && (forall k :: c <= k < u ==> !IsQuote(s[k]))
    && MatchesAtCI(s, u, "url(")
    && (forall k :: u + 4 <= k < close ==> s[k] != ')')
    && s[close] == ')'
    && (forall k :: close < k < q ==> !IsQuote(s[k]))
    && IsQuote(s[q])
  }

  /** The part of `style=["']([^"']*url\([^)]+\)[^"']*)["']` after the first
      `[^"']*`, tried at `u`: `url(`, the greedy `[^)]+` and its `)`, the
      greedy `[^"']*` and the closing quote, whose index is returned. */
  function StyleTail(s: string, u: nat): (r: Option<nat>)
    requires u <= |s|
    ensures r.Some? ==> u + 5 < r.value < |s| && IsQuote(s[r.value])
  {
    if MatchesAtCI(s, u, "url(") then
      var b := u + 4;
      var close := RunUntil(s, b, IsCloseParen);
      if b < close < |s| then
        var quote := RunUntil(s, close + 1, IsQuote);
        if quote < |s| then Some(quote) else None
      else None
    else None
  }

  /** The first `[^"']*` has matched `s[start..u]`; on failure it gives back one character. */
  function StyleBacktrack(s: string, start: nat, u: nat): (r: Option<nat>)
    requires start <= u <= |s|
    requires forall k :: start <= k < u ==> !IsQuote(s[k])
    ensures r.Some? ==> start + 5 < r.value < |s| && IsQuote(s[r.value])
    decreases u - start
  {
    var here := StyleTail(s, u);
    if here.Some? || u == start then here else StyleBacktrack(s, start, u - 1)
  }

  /** The index of the closing quote of a `style` attribute matched at `p`;
      its group is `s[p + 7..]` up to that index. */
  function StyleAt(s: string, p: nat): (r: Option<nat>)
    ensures r.Some? ==> p + 12 < r.value < |s| && IsQuote(s[r.value])
    ensures r.Some? ==> MatchesAtCI(s, p, "style") && s[p + 5] == '=' && IsQuote(s[p + 6])
  {
    if MatchesAtCI(s, p, "style") && p + 7 <= |s| && s[p + 5] == '=' && IsQuote(s[p + 6]) then
      StyleBacktrack(s, p + 7, RunUntil(s, p + 7, IsQuote))
    else None
  }

  /** HTML pass 4: the group of a `style` attribute goes through
      `rewriteCssUrls`, and is written back as `style="..."`. */
  function StyleStep(s: string, p: nat, base: string, api: UrlParser): (r: GlobalReplace.Step)
    ensures r.Subst? ==> p < r.end <= |s|
  {
    match StyleAt(s, p)
    case None => GlobalReplace.NoMatch
    case Some(q) =>
      match CssRewrite.RewriteCssUrls(s[p + 7..q], base, api)
      case Some(style) => GlobalReplace.Subst(q + 1, "style=\"" + style + "\"")
      case None => GlobalReplace.Throw
  }

  /** A match of the part after the first `[^"']*` has the shape the whole
      group needs. */
  lemma StyleTailShape(s: string, u: nat)
    requires u <= |s|
    ensures StyleTail(s, u).Some? ==>
      StyleShape(s, u, u, RunUntil(s, u + 4, IsCloseParen), StyleTail(s, u).value)
  {
  }

  lemma StyleBacktrackHere(s: string, start: nat, u: nat)
    requires start <= u <= |s|
    requires forall k :: start <= k < u ==> !IsQuote(s[k])
    requires StyleTail(s, u).Some?
    ensures StyleBacktrack(s, start, u) == StyleTail(s, u)
  {
  }

  lemma StyleBacktrackStep(s: string, start: nat, top: nat)
    requires start < top <= |s|
    requires forall k :: start <= k < top ==> !IsQuote(s[k])
    requires StyleTail(s, top).None?
    ensures StyleBacktrack(s, start, top) == StyleBacktrack(s, start, top - 1)
  {
  }

  /** Soundness of the backtracking: what it finds is a group of the right
      shape, with no quote before its `url(`. */
  lemma {:induction false} StyleBacktrackShape(s: string, start: nat, u: nat)
    requires start <= u <= |s|
    requires forall k :: start <= k < u ==> !IsQuote(s[k])
    ensures StyleBacktrack(s, start, u).Some? ==>
      exists v, close :: StyleShape(s, start, v, close, StyleBacktrack(s, start, u).value)
    decreases u - start
  {
    if StyleTail(s, u).Some? {
      StyleTailShape(s, u);
      StyleBacktrackHere(s, start, u);
      assert StyleShape(s, start, u, RunUntil(s, u + 4, IsCloseParen), StyleTail(s, u).value);
    } else if u > start {
      StyleBacktrackStep(s, start, u);
      StyleBacktrackShape(s, start, u - 1);
    }
  }

  /** Soundness of the style pattern: a match at `p` closes a group of at
      least `url(`, one character and `)`, with no quote before its `url(`
      and none between its `)` and the closing quote. */
  lemma StyleAtShape(s: string, p: nat)
    ensures StyleAt(s, p).Some? ==>
      var c := p + 7;
      exists u, close :: StyleShape(s, c, u, close, StyleAt(s, p).value)
  {
    if StyleAt(s, p).Some? {
      StyleBacktrackShape(s, p + 7, RunUntil(s, p + 7, IsQuote));
    }
  }

  /** The backtracking search settles on the last `url(` it gives back to. */
  lemma {:induction false} StyleBacktrackTo(s: string, start: nat, u: nat, top: nat, q: nat)
    requires start <= u <= top <= |s|
    requires forall k :: start <= k < top ==> !IsQuote(s[k])
    requires forall v :: u < v <= top ==> !MatchesAtCI(s, v, "url(")
    requires StyleTail(s, u) == Some(q)
    ensures StyleBacktrack(s, start, top) == Some(q)
    decreases top - u
  {
    if top > u {
      assert StyleTail(s, top).None?;
      StyleBacktrackStep(s, start, top);
      StyleBacktrackTo(s, start, u, top - 1, q);
    } else {
      StyleBacktrackHere(s, start, u);
    }
  }

  /** Completeness of the style pattern: `style=` and a quote, then a group
      whose last `url(` before the first quote is followed by a `)`, is
      matched up to the first quote after that `)`. */
  lemma CanonicalStyle(s: string, p: nat, u: nat, close: nat, q: nat)
    requires MatchesAtCI(s, p, "style") && p + 6 < |s| && s[p + 5] == '=' && IsQuote(s[p + 6])
    requires StyleShape(s, p + 7, u, close, q)
    requires forall v :: u < v <= RunUntil(s, p + 7, IsQuote) ==> !MatchesAtCI(s, v, "url(")
    ensures StyleAt(s, p) == Some(q)
  {
    var e := RunUntil(s, p + 7, IsQuote);
    assert u <= e;
    assert RunUntil(s, u + 4, IsCloseParen) == close;
    assert RunUntil(s, close + 1, IsQuote) == q;
    assert StyleTail(s, u) == Some(q);
    StyleBacktrackTo(s, p + 7, u, e, q);
  }

  /** How pass 4 rewrites such a `style` attribute: its group goes through
      `rewriteCssUrls` and comes back between double quotes; the pass throws
      only where the page URL does not parse. */
  lemma CanonicalStyleRewritten(s: string, p: nat, u: nat, close: nat, q: nat, base: string, api: UrlParser)
    requires MatchesAtCI(s, p, "style") && p + 6 < |s| && s[p + 5] == '=' && IsQuote(s[p + 6])
    requires StyleShape(s, p + 7, u, close, q)
    requires forall v :: u < v <= RunUntil(s, p + 7, IsQuote) ==> !MatchesAtCI(s, v, "url(")
    ensures StyleStep(s, p, base, api) ==
      match CssRewrite.RewriteCssUrls(s[p + 7..q], base, api)
      case Some(style) => GlobalReplace.Subst(q + 1, "style=\"" + style + "\"")
      case None => GlobalReplace.Throw
    ensures api.Protocol(base).Some? ==> StyleStep(s, p, base, api).Subst?
  {
    CanonicalStyle(s, p, u, close, q);
  }

  predicate IsScriptQuote(c: char) {
    c == '"' || c == '\'' || c == '`'
  }

  /** The length of the `https?:\/\/` at `c`, or 0 when there is none. */
  function SchemeLength(s: string, c: nat): nat {
    if MatchesAt(s, c, "https://") then 8 else if MatchesAt(s, c, "http://") then 7 else 0
  }

  /** The script pass, `/(["'`])(https?:\/\/[^"'`]+)(["'`])/g`: no `i` flag,
      and both quotes are kept as they were. */
  function LiteralStep(s: string, p: nat): (r: GlobalReplace.Step)
    ensures r.Subst? ==> p < r.end <= |s|
    ensures !r.Throw?
  {
    if p < |s| && IsScriptQuote(s[p]) then
      var c := p + 1;
      var prefix := SchemeLength(s, c);
      var e := RunUntil(s, c, IsScriptQuote);
      if prefix > 0 && c + prefix < e < |s| then
        GlobalReplace.Subst(e + 1, [s[p]] + ProxyBase + EncodeURIComponent(s[c..e]) + [s[e]])
      else GlobalReplace.NoMatch
    else GlobalReplace.NoMatch
  }

  function RelativeAttrPass(html: string, base: string, api: UrlParser): Option<string> {
    var m := (t: string, i: nat) => RelativeAttrStep(t, i, base, api);
    assert GlobalReplace.Advances(m, html);
    GlobalReplace.ReplaceAll(html, m)
  }

  function AbsoluteAttrPass(html: string): Option<string> {
    var m := (t: string, i: nat) => AbsoluteAttrStep(t, i);
    assert GlobalReplace.Advances(m, html);
    GlobalReplace.ReplaceAll(html, m)
  }

  function ProtocolRelativeAttrPass(html: string, protocol: string): Option<string> {
    var m := (t: string, i: nat) => ProtocolRelativeAttrStep(t, i, protocol);
    assert GlobalReplace.Advances(m, html);
    GlobalReplace.ReplaceAll(html, m)
  }

  function StylePass(html: string, base: string, api: UrlParser): Option<string> {
    var m := (t: string, i: nat) => StyleStep(t, i, base, api);
    assert GlobalReplace.Advances(m, html);
    GlobalReplace.ReplaceAll(html, m)
  }

  function LiteralPass(script: string): Option<string> {
    var m := (t: string, i: nat) => LiteralStep(t, i);
    assert GlobalReplace.Advances(m, script);
    GlobalReplace.ReplaceAll(script, m)
  }

  // ---------------------------------------------------------------------
  // The injected script

  /** The injected `<script>` element is represented by stand-ins for its
      text around the two places where the page URL is interpolated into it.
      Like the real script text, none of the stand-ins holds a `$`. */
  const ShimStart: string := "<script>/*fetch*/'"
  const ShimMiddle: string := "'/*xhr*/'"
  const ShimEnd: string := "'</script>"

  function Shim(originalUrl: string): string {
    ShimStart + originalUrl + ShimMiddle + originalUrl + ShimEnd
  }

  predicate DollarFree(t: string) {
    '$' !in t
  }

  /** The interception script holds a `$` only where the page URL does. */
  lemma ShimDollarFree(originalUrl: string)
    requires DollarFree(originalUrl)
    ensures DollarFree(Shim(originalUrl))
  {
    assert DollarFree(ShimStart) && DollarFree(ShimMiddle) && DollarFree(ShimEnd);
  }

  /** `text.replace(pattern, replacement)` with a string pattern: the first
      occurrence only, and the replacement inserted literally. Its two
      ensures only unfold the body for callers; what the replacement means
      is stated by `InjectShim`. */
  function ReplaceFirstLiteral(text: string, pattern: string, replacement: string): (r: string)
    ensures IndexOf(text, pattern).None? ==> r == text
    ensures IndexOf(text, pattern).Some? ==>
      var i := IndexOf(text, pattern).value;
      r == text[..i] + replacement + text[i + |pattern|..]
  {
    match IndexOf(text, pattern)
    case None => text
    case Some(i) => text[..i] + replacement + text[i + |pattern|..]
  }

  /** The shim goes before the first `</head>`; failing that into a new
      `<head>` right after the first `<html>`; failing that in front. */
  function InjectShim(content: string, shim: string): (r: string)
    ensures Includes(content, "</head>") ==>
      var i := IndexOf(content, "</head>").value;
      r == content[..i] + shim + content[i..] && |r| == |content| + |shim|
    ensures !Includes(content, "</head>") && Includes(content, "<html>") ==>
      var i := IndexOf(content, "<html>").value;
      r == content[..i + 6] + "<head>" + shim + "</head>" + content[i + 6..]
    ensures !Includes(content, "</head>") && !Includes(content, "<html>") ==> r == shim + content
  {
    if Includes(content, "</head>") then
      InsertBefore(content, IndexOf(content, "</head>").value, "</head>", shim);
      ReplaceFirstLiteral(content, "</head>", shim + "</head>")
    else if Includes(content, "<html>") then
      InsertAfter(content, IndexOf(content, "<html>").value, "<html>", "<head>" + shim + "</head>");
      ReplaceFirstLiteral(content, "<html>", "<html><head>" + shim + "</head>")
    else shim + content
  }

  /** Replacing an occurrence of `pat` by `x + pat` inserts `x` before it. */
  lemma InsertBefore(t: string, i: nat, pat: string, x: string)
    requires MatchesAt(t, i, pat)
    ensures t[..i] + (x + pat) + t[i + |pat|..] == t[..i] + x + t[i..]
  {
    assert t[i..] == pat + t[i + |pat|..];
  }

  /** Replacing an occurrence of `pat` by `pat + x` inserts `x` after it. */
  lemma InsertAfter(t: string, i: nat, pat: string, x: string)
    requires MatchesAt(t, i, pat)
    ensures t[..i] + (pat + x) + t[i + |pat|..] == t[..i + |pat|] + x + t[i + |pat|..]
  {
    assert t[..i + |pat|] == t[..i] + pat;
  }

  /** A character that, after a `$`, forms a replacement pattern. */
  predicate IsPatternChar(c: char) {
    c == '$' || c == '&' || c == '`' || c == '\''
  }

  /** What `$` followed by the pattern character `c` stands for. */
  function Piece(c: char, matched: string, before: string, after: string): string {
    if c == '$' then "$" else if c == '&' then matched else if c == '`' then before else after
  }

  /** The expansion of a string replacement by `String.prototype.replace`
      (GetSubstitution, with no capture groups): `$$` is `$`, `$&` the
      matched text, `` $` `` the text before it, `$'` the text after it; any
      other `$` stands for itself. */
  function ExpandReplacement(r: string, matched: string, before: string, after: string): (e: string)
    ensures DollarFree(r) ==> e == r
  {
    if r == [] then []
    else if r[0] == '$' && |r| >= 2 && IsPatternChar(r[1]) then
      Piece(r[1], matched, before, after) + ExpandReplacement(r[2..], matched, before, after)
    else [r[0]] + ExpandReplacement(r[1..], matched, before, after)
  }

  /** A replacement followed by text that holds no `$` and does not begin
      with a character `$` pairs with expands to the expansion of the
      replacement followed by that text. */
  lemma {:induction false} ExpandBeforeLiteral(a: string, b: string, matched: string, before: string, after: string)
    requires DollarFree(b) && (b == [] || !IsPatternChar(b[0]))
    ensures ExpandReplacement(a + b, matched, before, after) == ExpandReplacement(a, matched, before, after) + b
    decreases |a|
  {
    if a == [] {
      assert a + b == b;
    } else if |a| == 1 {
      ExpandSingle(a[0], b, matched, before, after);
      assert a == [a[0]];
    } else if a[0] == '$' && IsPatternChar(a[1]) {
      ExpandPatternStep(a, b, matched, before, after);
      ExpandBeforeLiteral(a[2..], b, matched, before, after);
      Associate(Piece(a[1], matched, before, after), ExpandReplacement(a[2..], matched, before, after), b);
    } else {
      ExpandPlainStep(a, b, matched, before, after);
      ExpandBeforeLiteral(a[1..], b, matched, before, after);
      Associate([a[0]], ExpandReplacement(a[1..], matched, before, after), b);
    }
  }

  lemma ExpandPatternStep(a: string, b: string, matched: string, before: string, after: string)
    requires |a| >= 2 && a[0] == '$' && IsPatternChar(a[1])
    ensures ExpandReplacement(a + b, matched, before, after)
         == Piece(a[1], matched, before, after) + ExpandReplacement(a[2..] + b, matched, before, after)
    ensures ExpandReplacement(a, matched, before, after)
         == Piece(a[1], matched, before, after) + ExpandReplacement(a[2..], matched, before, after)
  {
    assert (a + b)[0] == a[0] && (a + b)[1] == a[1];
    DropConcat(a, b, 2);
  }

  lemma ExpandPlainStep(a: string, b: string, matched: string, before: string, after: string)
    requires |a| >= 2 && !(a[0] == '$' && IsPatternChar(a[1]))
    ensures ExpandReplacement(a + b, matched, before, after) == [a[0]] + ExpandReplacement(a[1..] + b, matched, before, after)
    ensures ExpandReplacement(a, matched, before, after) == [a[0]] + ExpandReplacement(a[1..], matched, before, after)
  {
    assert (a + b)[0] == a[0] && (a + b)[1] == a[1];
    DropConcat(a, b, 1);
  }

  lemma Associate(x: string, y: string, z: string)
    ensures x + (y + z) == (x + y) + z
  {
  }

  lemma DropConcat(a: string, b: string, n: nat)
    requires n <= |a|
    ensures (a + b)[n..] == a[n..] + b
  {
  }

  lemma ExpandSingle(c: char, b: string, matched: string, before: string, after: string)
    requires DollarFree(b) && (b == [] || !IsPatternChar(b[0]))
    ensures ExpandReplacement([c] + b, matched, before, after) == [c] + b
  {
    assert ([c] + b)[1..] == b;
    if b != [] {
      assert ([c] + b)[1] == b[0];
    }
  }

  /** `text.replace(pattern, replacement)` as JavaScript performs it with a
      string pattern and a string replacement. */
  function ReplaceFirstExpanding(text: string, pattern: string, replacement: string): string {
    match IndexOf(text, pattern)
    case None => text
    case Some(i) =>
      text[..i] + ExpandReplacement(replacement, pattern, text[..i], text[i + |pattern|..]) + text[i + |pattern|..]
  }

  /** The injection as server.js writes it: the script is interpolated into a
      replacement STRING, so a `$&`, `$'`, `` $` `` or `$$` in the page URL is
      expanded by `replace`. */
  function InjectShimAsWritten(content: string, shim: string): (r: string)
    ensures Includes(content, "</head>") ==>
      var i := IndexOf(content, "</head>").value;
      r == content[..i] + ExpandReplacement(shim, "</head>", content[..i], content[i + 7..]) + content[i..]
    ensures !Includes(content, "</head>") && Includes(content, "<html>") ==>
      var i := IndexOf(content, "<html>").value;
      r == content[..i + 6] + "<head>" + ExpandReplacement(shim, "<html>", content[..i], content[i + 6..])
           + "</head>" + content[i + 6..]
    ensures !Includes(content, "</head>") && !Includes(content, "<html>") ==> r == shim + content
  {
    if Includes(content, "</head>") then
      ExpandedBeforeHead(content, shim);
      ReplaceFirstExpanding(content, "</head>", shim + "</head>")
    else if Includes(content, "<html>") then
      ExpandedAfterHtml(content, shim);
      ReplaceFirstExpanding(content, "<html>", "<html><head>" + shim + "</head>")
    else shim + content
  }

  lemma ExpandedBeforeHead(content: string, shim: string)
    requires Includes(content, "</head>")
    ensures var i := IndexOf(content, "</head>").value;
      ReplaceFirstExpanding(content, "</head>", shim + "</head>")
      == content[..i] + ExpandReplacement(shim, "</head>", content[..i], content[i + 7..]) + content[i..]
  {
    var i := IndexOf(content, "</head>").value;
    var x := ExpandReplacement(shim, "</head>", content[..i], content[i + 7..]);
    ExpandBeforeLiteral(shim, "</head>", "</head>", content[..i], content[i + 7..]);
    InsertBefore(content, i, "</head>", x);
  }

  lemma ExpandedAfterHtml(content: string, shim: string)
    requires Includes(content, "<html>")
    ensures var i := IndexOf(content, "<html>").value;
      ReplaceFirstExpanding(content, "<html>", "<html><head>" + shim + "</head>")
      == content[..i + 6] + "<head>" + ExpandReplacement(shim, "<html>", content[..i], content[i + 6..])
         + "</head>" + content[i + 6..]
  {
    var i := IndexOf(content, "<html>").value;
    var bf, af := content[..i], content[i + 6..];
    var x := ExpandReplacement(shim, "<html>", bf, af);
    var r := "<html><head>" + shim + "</head>";
    ExpandWrapped("<html><head>", shim, "</head>", "<html>", bf, af);
    assert ReplaceFirstExpanding(content, "<html>", r) == bf + ("<html><head>" + x + "</head>") + af;
    assert content[..i + 6] == bf + "<html>";
    HtmlHeadSplit();
    ConcatShape(bf, "<html>", "<head>", x, "</head>", af);
  }

  /** Literal text without `$` around the script is copied as it is. */
  lemma ExpandWrapped(pre: string, shim: string, post: string, matched: string, before: string, after: string)
    requires DollarFree(pre) && DollarFree(post) && (post == [] || !IsPatternChar(post[0]))
    ensures ExpandReplacement(pre + shim + post, matched, before, after)
         == pre + ExpandReplacement(shim, matched, before, after) + post
  {
    var x := ExpandReplacement(shim, matched, before, after);
    Associate(pre, shim, post);
    ExpandAfterDollarFree(pre, shim + post, matched, before, after);
    ExpandBeforeLiteral(shim, post, matched, before, after);
    Associate(pre, x, post);
  }

  lemma HtmlHeadSplit()
    ensures "<html><head>" == "<html>" + "<head>"
  {
  }

  lemma ConcatShape(bf: string, h1: string, h2: string, x: string, h3: string, af: string)
    ensures bf + ((h1 + h2) + x + h3) + af == (bf + h1) + h2 + x + h3 + af
  {
  }

  /** For a page URL without `$`, the injection as written is the literal one. */
  lemma AsWrittenAgreesWithoutDollar(content: string, originalUrl: string)
    requires DollarFree(originalUrl)
    ensures InjectShimAsWritten(content, Shim(originalUrl)) == InjectShim(content, Shim(originalUrl))
  {
    var shim := Shim(originalUrl);
    ShimDollarFree(originalUrl);
  }

  lemma ExpandLiteralHead(a: string, b: string, matched: string, before: string, after: string)
    requires a != [] && DollarFree(a)
    ensures a[0] != '$' && DollarFree(a[1..])
    ensures ExpandReplacement(a + b, matched, before, after) == [a[0]] + ExpandReplacement(a[1..] + b, matched, before, after)
  {
    assert a[0] in a;
    assert DollarFree(a[1..]) by { forall c | c in a[1..] ensures c in a { } }
    assert (a + b)[0] == a[0];
    DropConcat(a, b, 1);
  }

  lemma {:induction false} ExpandAfterDollarFree(a: string, b: string, matched: string, before: string, after: string)
    requires DollarFree(a)
    ensures ExpandReplacement(a + b, matched, before, after) == a + ExpandReplacement(b, matched, before, after)
  {
    if a != [] {
      ExpandLiteralHead(a, b, matched, before, after);
      ExpandAfterDollarFree(a[1..], b, matched, before, after);
      Associate([a[0]], a[1..], ExpandReplacement(b, matched, before, after));
      assert a == [a[0]] + a[1..];
    } else {
      assert a + b == b;
    }
  }

  lemma ExpandAfterText(b: string, matched: string, before: string, after: string)
    ensures ExpandReplacement("$'" + b, matched, before, after) == after + ExpandReplacement(b, matched, before, after)
  {
    assert ("$'" + b)[2..] == b;
  }

  /** A page URL holding `$'` makes the injection as written copy the rest of
      the document into the script: for the document `</head>x` and the page
      `https://a/$'`, each `$'` of the script becomes `x`. */
  lemma DollarInUrlCorruptsInjection()
    ensures var content := "</head>x"; var url := "https://a/$'";
      InjectShimAsWritten(content, Shim(url)) != InjectShim(content, Shim(url))
  {
    var content := "</head>x";
    var url := "https://a/$'";
    var host := "https://a/";
    var shim := Shim(url);
    assert MatchesAt(content, 0, "</head>");
    assert IndexOf(content, "</head>") == Some(0);
    var after := content[7..];
    assert after == "x";
    var r2 := ShimMiddle + host + ("$'" + ShimEnd);
    var r := ShimStart + host + ("$'" + r2);
    assert shim == r;
    ShimDollarFree(host);
    ExpandAfterDollarFree(ShimStart + host, "$'" + r2, "</head>", [], after);
    ExpandAfterText(r2, "</head>", [], after);
    ExpandAfterDollarFree(ShimMiddle + host, "$'" + ShimEnd, "</head>", [], after);
    ExpandAfterText(ShimEnd, "</head>", [], after);
    assert DollarFree(ShimEnd);
    var expanded := ExpandReplacement(shim, "</head>", [], after);
    assert |expanded| == |shim| - 2;
    assert |InjectShimAsWritten(content, shim)| == |expanded| + |content|;
    assert |InjectShim(content, shim)| == |content| + |shim|;
  }

  // ---------------------------------------------------------------------
  // rewriteUrls

  /** The content as it stands, and whether a pass has thrown: the `catch`
      returns the content of the moment, with the passes done so far. */
  datatype Progress = Running(text: string) | Caught(text: string)

  function AndThen(pr: Progress, pass: string -> Option<string>): (r: Progress)
    ensures pr.Caught? ==> r == pr
  {
    match pr
    case Caught(_) => pr
    case Running(t) =>
      match pass(t)
      case Some(t') => Running(t')
      case None => Caught(t)
  }

  /** HTML passes 1 to 4, in order; `None` when one of them throws. */
  function HtmlReferences(html: string, base: string, protocol: string, api: UrlParser): Option<string> {
    match RelativeAttrPass(html, base, api)
    case None => None
    case Some(h1) =>
      match AbsoluteAttrPass(h1)
      case None => None
      case Some(h2) =>
        match ProtocolRelativeAttrPass(h2, protocol)
        case None => None
        case Some(h3) => StylePass(h3, base, api)
  }

  predicate IsHtmlType(contentType: string) { Includes(contentType, "text/html") }
  predicate IsCssType(contentType: string) { Includes(contentType, "text/css") }
  predicate IsScriptType(contentType: string) {
    Includes(contentType, "javascript") || Includes(contentType, "application/json")
  }

  /** `rewriteUrls(content, originalUrl, contentType)`. The three branches are
      independent `if`s, applied in order; whatever throws is caught and the
      content of that moment returned. */
  function RewriteUrls(content: string, originalUrl: string, contentType: string, api: UrlParser): (r: string)
    ensures content == [] ==> r == content
  {
    if content == [] then content
    else
      match api.Protocol(originalUrl)
      case None => content
      case Some(protocol) =>
        var shim := Shim(originalUrl);
        var p0 := Running(content);
        var p1 := if IsHtmlType(contentType) then
            AndThen(AndThen(p0, t => HtmlReferences(t, originalUrl, protocol, api)), t => Some(InjectShim(t, shim)))
          else p0;
        var p2 := if IsCssType(contentType) then AndThen(p1, t => CssRewrite.RewriteCssUrls(t, originalUrl, api)) else p1;
        var p3 := if IsScriptType(contentType) then AndThen(p2, LiteralPass) else p2;
        p3.text
  }

  /** Content of any other type, and content of a page whose URL does not
      parse, is returned as it is. */
  lemma OtherContentUnchanged(content: string, originalUrl: string, contentType: string, api: UrlParser)
    requires api.Protocol(originalUrl).None?
          || (!IsHtmlType(contentType) && !IsCssType(contentType) && !IsScriptType(contentType))
    ensures RewriteUrls(content, originalUrl, contentType, api) == content
  {
  }

  /** When HTML pass 1 throws (a reference that does not resolve), the page is
      returned as fetched: the shim is not injected and no other pass applies. */
  lemma UnresolvableReferenceKeepsPage(content: string, originalUrl: string, contentType: string, api: UrlParser)
    requires IsHtmlType(contentType) && api.Protocol(originalUrl).Some?
    requires RelativeAttrPass(content, originalUrl, api).None?
    ensures RewriteUrls(content, originalUrl, contentType, api) == content
  {
  }

  /** An HTML page whose references all rewrite gets the interception script
      exactly once, placed by `InjectShim`; the style pass cannot throw, since
      the page URL has already parsed. */
  lemma HtmlPageGetsShim(content: string, originalUrl: string, contentType: string, api: UrlParser)
    requires content != [] && api.Protocol(originalUrl).Some?
    requires IsHtmlType(contentType) && !IsCssType(contentType) && !IsScriptType(contentType)
    requires RelativeAttrPass(content, originalUrl, api).Some?
    ensures var refs := HtmlReferences(content, originalUrl, api.Protocol(originalUrl).value, api);
      refs.Some? && RewriteUrls(content, originalUrl, contentType, api) == InjectShim(refs.value, Shim(originalUrl))
  {
    var protocol := api.Protocol(originalUrl).value;
    var h1 := RelativeAttrPass(content, originalUrl, api).value;
    var m2 := (t: string, i: nat) => AbsoluteAttrStep(t, i);
    assert GlobalReplace.Advances(m2, h1);
    GlobalReplace.NoThrowFromSucceeds(h1, m2, 0);
    var h2 := AbsoluteAttrPass(h1).value;
    var m3 := (t: string, i: nat) => ProtocolRelativeAttrStep(t, i, protocol);
    assert GlobalReplace.Advances(m3, h2);
    GlobalReplace.NoThrowFromSucceeds(h2, m3, 0);
    var h3 := ProtocolRelativeAttrPass(h2, protocol).value;
    var m4 := (t: string, i: nat) => StyleStep(t, i, originalUrl, api);
    assert GlobalReplace.Advances(m4, h3);
    forall j | 0 <= j < |h3| ensures !m4(h3, j).Throw? {
      match StyleAt(h3, j)
      case None =>
      case Some(q) =>
    }
    GlobalReplace.NoThrowFromSucceeds(h3, m4, 0);
  }

  /** For a page URL without `$`, the literal injection the model uses and
      the `String.replace` injection as written give the same page. */
  lemma HtmlPageAsWritten(content: string, originalUrl: string, contentType: string, api: UrlParser)
    requires content != [] && api.Protocol(originalUrl).Some?
    requires IsHtmlType(contentType) && !IsCssType(contentType) && !IsScriptType(contentType)
    requires RelativeAttrPass(content, originalUrl, api).Some?
    requires DollarFree(originalUrl)
    ensures var refs := HtmlReferences(content, originalUrl, api.Protocol(originalUrl).value, api);
      refs.Some? && RewriteUrls(content, originalUrl, contentType, api) == InjectShimAsWritten(refs.value, Shim(originalUrl))
  {
    HtmlPageGetsShim(content, originalUrl, contentType, api);
    var refs := HtmlReferences(content, originalUrl, api.Protocol(originalUrl).value, api);
    AsWrittenAgreesWithoutDollar(refs.value, originalUrl);
  }

  /** A stylesheet goes through `rewriteCssUrls` whole. */
  lemma StylesheetRewritten(content: string, originalUrl: string, contentType: string, api: UrlParser)
    requires content != [] && api.Protocol(originalUrl).Some?
    requires !IsHtmlType(contentType) && IsCssType(contentType) && !IsScriptType(contentType)
    ensures var css := CssRewrite.RewriteCssUrls(content, originalUrl, api);
      css.Some? && RewriteUrls(content, originalUrl, contentType, api) == css.value
  {
  }

  /** A script or JSON document goes through the literal pass whole. */
  lemma ScriptRewritten(content: string, originalUrl: string, contentType: string, api: UrlParser)
    requires content != [] && api.Protocol(originalUrl).Some?
    requires !IsHtmlType(contentType) && !IsCssType(contentType) && IsScriptType(contentType)
    ensures var js := LiteralPass(content);
      js.Some? && RewriteUrls(content, originalUrl, contentType, api) == js.value
  {
    var m := (t: string, i: nat) => LiteralStep(t, i);
    assert GlobalReplace.Advances(m, content);
    GlobalReplace.NoThrowFromSucceeds(content, m, 0);
  }

  // ---------------------------------------------------------------------
  // What each pass does to a plain occurrence

  /** The five names are told apart by their first and sixth characters. */
  lemma AttrNameAtName(s: string, p: nat, name: string)
    requires IsAttrName(name) && MatchesAt(s, p, name)
    ensures AttrNameAt(s, p) == Some(name)
  {
    MatchesAtImpliesCI(s, p, name);
    assert Lower(s[p + 0]) == Lower(name[0]);
    if name != "src" {
      CaseDiffers(s, p, "src", 0);
    }
    if name != "src" && name != "href" {
      CaseDiffers(s, p, "href", 0);
    }
    if name == "data-src" || name == "data-href" {
      CaseDiffers(s, p, "action", 0);
    }
    if name == "data-href" {
      assert Lower(s[p + 5]) == Lower(name[5]);
      CaseDiffers(s, p, "data-src", 5);
    }
  }

  lemma CaseDiffers(s: string, p: nat, t: string, k: nat)
    requires k < |t| && p + k < |s| && Lower(s[p + k]) != Lower(t[k])
    ensures !MatchesAtCI(s, p, t)
  {
  }

  lemma AttrPieces(s: string, p: nat, name: string, q1: char, u: string, q2: char)
    requires MatchesAt(s, p, name + "=" + [q1] + u + [q2])
    ensures p + |name| + 3 + |u| <= |s|
    ensures MatchesAt(s, p, name)
    ensures s[p + |name|] == '=' && s[p + |name| + 1] == q1
    ensures s[p + |name| + 2..p + |name| + 2 + |u|] == u
    ensures s[p + |name| + 2 + |u|] == q2
  {
    var tok := name + "=" + [q1] + u + [q2];
    var n := |name|;
    SliceOfMatch(s, p, tok, 0, n);
    assert tok[..n] == name;
    SliceOfMatch(s, p, tok, n + 2, n + 2 + |u|);
    assert tok[n + 2..n + 2 + |u|] == u;
    assert s[p + n] == s[p..p + |tok|][n] == tok[n];
    assert s[p + n + 1] == s[p..p + |tok|][n + 1] == tok[n + 1];
    assert s[p + n + 2 + |u|] == s[p..p + |tok|][n + 2 + |u|] == tok[n + 2 + |u|];
  }

  /** Completeness of the attribute pattern: `name="u"` (either quote at
      either end) with a group free of quotes and line terminators, where the
      pass's lookaheads hold, is matched whole. */
  lemma CanonicalAttr(s: string, p: nat, name: string, q1: char, u: string, q2: char, pass: HtmlPass)
    requires IsAttrName(name) && IsQuote(q1) && IsQuote(q2)
    requires forall k :: 0 <= k < |u| ==> !IsQuote(u[k]) && !IsLineTerminator(u[k])
    requires MatchesAt(s, p, name + "=" + [q1] + u + [q2])
    requires StartFits(s, p + |name| + 2, pass)
    ensures AttrAt(s, p, pass) == Some(Attr(name, u, p + |name| + 3 + |u|))
  {
    AttrPieces(s, p, name, q1, u, q2);
    AttrAtOfName(s, p, name, pass);
    AfterNameOfGroup(s, p, name, u, pass);
  }

  lemma AttrAtOfName(s: string, p: nat, name: string, pass: HtmlPass)
    requires IsAttrName(name) && MatchesAt(s, p, name)
    ensures AttrAt(s, p, pass) == AttrAfterName(s, p, |name|, pass)
  {
    AttrNameAtName(s, p, name);
    AttrAtByName(s, p, name, pass);
  }

  lemma AfterNameOfGroup(s: string, p: nat, name: string, u: string, pass: HtmlPass)
    requires forall k :: 0 <= k < |u| ==> !IsQuote(u[k]) && !IsLineTerminator(u[k])
    requires p + |name| + 3 + |u| <= |s| && MatchesAt(s, p, name)
    requires s[p + |name|] == '=' && IsQuote(s[p + |name| + 1])
    requires s[p + |name| + 2..p + |name| + 2 + |u|] == u && IsQuote(s[p + |name| + 2 + |u|])
    requires StartFits(s, p + |name| + 2, pass)
    ensures AttrAfterName(s, p, |name|, pass) == Some(Attr(name, u, p + |name| + 3 + |u|))
  {
    LazyEndOfGroup(s, p + |name| + 2, u);
    AfterNameOfPieces(s, p, |name|, p + |name| + 2 + |u|, pass);
  }

  lemma AttrAtByName(s: string, p: nat, name: string, pass: HtmlPass)
    requires AttrNameAt(s, p) == Some(name)
    ensures AttrAt(s, p, pass) == AttrAfterName(s, p, |name|, pass)
  {
  }

  lemma AfterNameOfPieces(s: string, p: nat, n: nat, j: nat, pass: HtmlPass)
    requires p + n + 1 < |s| && s[p + n] == '=' && IsQuote(s[p + n + 1])
    requires StartFits(s, p + n + 2, pass)
    requires LazyQuoteEnd(s, p + n + 2) == Some(j)
    ensures AttrAfterName(s, p, n, pass) == Some(Attr(s[p..p + n], s[p + n + 2..j], j + 1))
  {
  }

  lemma LazyEndOfGroup(s: string, c: nat, u: string)
    requires c + |u| < |s| && s[c..c + |u|] == u && IsQuote(s[c + |u|])
    requires forall k :: 0 <= k < |u| ==> !IsQuote(u[k]) && !IsLineTerminator(u[k])
    ensures LazyQuoteEnd(s, c) == Some(c + |u|)
  {
    forall k | c <= k < c + |u| ensures !IsQuote(s[k]) && !IsLineTerminator(s[k]) {
      assert s[k] == u[k - c];
    }
    LazySkips(s, c, |u|);
  }

  /** How passes 1 to 3 rewrite a plain attribute: pass 1 keeps fragment,
      `javascript:` and `mailto:` targets, proxies the resolution of any other
      reference and throws where resolution fails; pass 2 proxies the
      reference itself; pass 3 the page's protocol followed by it. The
      attribute keeps the name as written and gets double quotes. */
  lemma CanonicalAttrRewritten(s: string, p: nat, name: string, q1: char, u: string, q2: char,
                               base: string, protocol: string, api: UrlParser, pass: HtmlPass)
    requires IsAttrName(name) && IsQuote(q1) && IsQuote(q2)
    requires forall k :: 0 <= k < |u| ==> !IsQuote(u[k]) && !IsLineTerminator(u[k])
    requires MatchesAt(s, p, name + "=" + [q1] + u + [q2])
    requires StartFits(s, p + |name| + 2, pass)
    ensures var end := p + |name| + 3 + |u|;
      match pass
      case Relative =>
        RelativeAttrStep(s, p, base, api) ==
          if IsLocalTarget(u) then GlobalReplace.Subst(end, name + "=" + [q1] + u + [q2])
          else if api.Resolve(u, base).Some? then GlobalReplace.Subst(end, ProxiedAttr(name, api.Resolve(u, base).value))
          else GlobalReplace.Throw
      case Absolute => AbsoluteAttrStep(s, p) == GlobalReplace.Subst(end, ProxiedAttr(name, u))
      case ProtocolRelative =>
        ProtocolRelativeAttrStep(s, p, protocol) == GlobalReplace.Subst(end, ProxiedAttr(name, protocol + u))
  {
    CanonicalAttr(s, p, name, q1, u, q2, pass);
    assert s[p..p + |name| + 3 + |u|] == name + "=" + [q1] + u + [q2];
  }

  /** What the script pass replaces: a quote, `http://` or `https://` and at
      least one more character up to the next quote, and that quote. */
  lemma LiteralStepSound(s: string, p: nat)
    requires LiteralStep(s, p).Subst?
    ensures var r := LiteralStep(s, p); var url := s[p + 1..r.end - 1];
      && IsScriptQuote(s[p]) && IsScriptQuote(s[r.end - 1])
      && ((StartsWith(url, "http://") && |url| > 7) || (StartsWith(url, "https://") && |url| > 8))
      && (forall k :: 0 <= k < |url| ==> !IsScriptQuote(url[k]))
      && r.text == [s[p]] + ProxyBase + EncodeURIComponent(url) + [s[r.end - 1]]
  {
    var c := p + 1;
    var e := RunUntil(s, c, IsScriptQuote);
    assert IsScriptQuote(s[p]) && 0 < SchemeLength(s, c) && c + SchemeLength(s, c) < e < |s|;
    assert LiteralStep(s, p) == GlobalReplace.Subst(e + 1, [s[p]] + ProxyBase + EncodeURIComponent(s[c..e]) + [s[e]]);
    SchemeOfRun(s, c, e);
    forall k | 0 <= k < e - c ensures !IsScriptQuote(s[c..e][k]) {
      assert s[c..e][k] == s[c + k];
    }
  }

  /** The group of the script pass starts with the scheme `SchemeLength` found. */
  lemma SchemeOfRun(s: string, c: nat, e: nat)
    requires c <= e <= |s| && 0 < SchemeLength(s, c) < e - c
    ensures var url := s[c..e];
      (StartsWith(url, "http://") && |url| > 7) || (StartsWith(url, "https://") && |url| > 8)
  {
    var url := s[c..e];
    if MatchesAt(s, c, "https://") {
      assert url[..8] == s[c..c + 8];
    } else {
      assert url[..7] == s[c..c + 7];
    }
  }

  /** Completeness of the script pass: `q1` + u + `q2` with u an absolute
      http(s) URL free of quotes is replaced by the proxy link between the
      same two quotes. */
  lemma CanonicalLiteral(s: string, p: nat, q1: char, u: string, q2: char)
    requires IsScriptQuote(q1) && IsScriptQuote(q2)
    requires (StartsWith(u, "http://") && |u| > 7) || (StartsWith(u, "https://") && |u| > 8)
    requires forall k :: 0 <= k < |u| ==> !IsScriptQuote(u[k])
    requires MatchesAt(s, p, [q1] + u + [q2])
    ensures LiteralStep(s, p) == GlobalReplace.Subst(p + |u| + 2, [q1] + ProxyBase + EncodeURIComponent(u) + [q2])
  {
    LiteralPieces(s, p, q1, u, q2);
    LiteralOfPieces(s, p, u);
  }

  lemma LiteralPieces(s: string, p: nat, q1: char, u: string, q2: char)
    requires IsScriptQuote(q2)
    requires forall k :: 0 <= k < |u| ==> !IsScriptQuote(u[k])
    requires MatchesAt(s, p, [q1] + u + [q2])
    ensures p + 1 + |u| < |s| && s[p] == q1 && s[p + 1 + |u|] == q2
    ensures s[p + 1..p + 1 + |u|] == u
    ensures RunUntil(s, p + 1, IsScriptQuote) == p + 1 + |u|
  {
    var tok := [q1] + u + [q2];
    assert s[p] == s[p..p + |tok|][0] == q1;
    SliceOfMatch(s, p, tok, 1, 1 + |u|);
    assert tok[1..1 + |u|] == u;
    assert s[p + 1 + |u|] == s[p..p + |tok|][1 + |u|] == q2;
    RunOfUrl(s, p + 1, u);
  }

  lemma LiteralOfPieces(s: string, p: nat, u: string)
    requires (StartsWith(u, "http://") && |u| > 7) || (StartsWith(u, "https://") && |u| > 8)
    requires forall k :: 0 <= k < |u| ==> !IsScriptQuote(u[k])
    requires p + 1 + |u| < |s| && IsScriptQuote(s[p]) && IsScriptQuote(s[p + 1 + |u|])
    requires s[p + 1..p + 1 + |u|] == u
    requires RunUntil(s, p + 1, IsScriptQuote) == p + 1 + |u|
    ensures LiteralStep(s, p) == GlobalReplace.Subst(p + |u| + 2, [s[p]] + ProxyBase + EncodeURIComponent(u) + [s[p + 1 + |u|]])
  {
    LiteralPrefix(s, p + 1, u);
    LiteralStepAt(s, p, u);
  }

  lemma RunOfUrl(s: string, c: nat, u: string)
    requires c + |u| < |s| && s[c..c + |u|] == u && IsScriptQuote(s[c + |u|])
    requires forall k :: 0 <= k < |u| ==> !IsScriptQuote(u[k])
    ensures RunUntil(s, c, IsScriptQuote) == c + |u|
  {
    forall k | c <= k < c + |u| ensures !IsScriptQuote(s[k]) { assert s[k] == u[k - c]; }
    RunEndCovers(s, c, |u|);
  }

  /** LiteralStep once the scheme and the end of the run are known. */
  lemma LiteralStepAt(s: string, p: nat, u: string)
    requires p + 1 + |u| < |s| && IsScriptQuote(s[p])
    requires 0 < SchemeLength(s, p + 1) < |u|
    requires s[p + 1..p + 1 + |u|] == u
    requires RunUntil(s, p + 1, IsScriptQuote) == p + 1 + |u|
    ensures LiteralStep(s, p) == GlobalReplace.Subst(p + |u| + 2, [s[p]] + ProxyBase + EncodeURIComponent(u) + [s[p + 1 + |u|]])
  {
  }

  lemma LiteralPrefix(s: string, c: nat, u: string)
    requires c + |u| <= |s| && s[c..c + |u|] == u
    requires (StartsWith(u, "http://") && |u| > 7) || (StartsWith(u, "https://") && |u| > 8)
    ensures 0 < SchemeLength(s, c) < |u|
  {
    if StartsWith(u, "https://") {
      assert s[c..c + 8] == u[..8];
      assert u[4] == 's';
      assert !StartsWith(u, "http://") by {
        assert u[..7][4] == 's';
      }
    } else {
      assert s[c..c + 7] == u[..7];
      assert s[c + 4] == u[4] == ':';
      assert !MatchesAt(s, c, "https://") by {
        assert s[c..c + 8][4] == ':';
      }
    }
  }

  lemma {:induction false} RunEndCovers(s: string, c: nat, n: nat)
    requires c + n <= |s|
    requires forall k :: c <= k < c + n ==> !IsScriptQuote(s[k])
    ensures c + n <= RunUntil(s, c, IsScriptQuote)
    decreases n
  {
    if n > 0 {
      RunEndCovers(s, c + 1, n - 1);
    }
  }
}
