/**
 * The full-page cache: which requests may be cached, how a finished page is
 * stamped, minified and written under a key derived from its URL path and
 * host, and how cache files are cleared. The cache directory is the map
 * `files` from file names (relative to the directory) to contents; WordPress
 * predicates, the clock, `md5`, `gzencode` and the outcome of each file
 * write are parameters.
 */
module HtmlCache {
  import opened Text
  import opened Codec
  import opened MinifyHtml
  import opened Minification

  // ----------------------------------------------------------------------
  // Which requests are cached
  // ----------------------------------------------------------------------

  /** What `should_cache_page` asks of WordPress and of the server. */
  datatype Request = Request(
    uri: string,          // REQUEST_URI
    host: string,         // HTTP_HOST
    verb: string,         // REQUEST_METHOD
    admin: bool,          // is_admin()
    loggedIn: bool,       // is_user_logged_in()
    search: bool,         // is_search()
    preview: bool,        // is_preview()
    wooActive: bool,      // function_exists('is_woocommerce')
    cart: bool,           // is_cart()
    checkout: bool,       // is_checkout()
    account: bool)        // is_account_page()

  /** The URI fragments that keep a request out of the cache, in their order. */
  const ExcludedUrls: seq<string> := [
    "wp-login.php", "wp-admin", "wp-cron.php", "wp-content", "wp-includes",
    "xmlrpc.php", "wp-api", "/cart/", "/checkout/", "/my-account/",
    "add-to-cart", "logout", "lost-password", "register"]

  /** Some excluded fragment occurs anywhere in the URI (`strpos`, case-sensitive). */
  predicate Excluded(uri: string)
  {
    exists k :: 0 <= k < |ExcludedUrls| && Contains(uri, ExcludedUrls[k])
  }

  /** The WooCommerce pages count only when WooCommerce is loaded. */
  predicate ShopPage(r: Request)
  {
    r.wooActive && (r.cart || r.checkout || r.account)
  }

  /** A request may be cached when no rule of `should_cache_page` refuses it. */
  predicate Eligible(r: Request)
  {
    && !r.admin
    && !r.loggedIn
    && !r.search && r.verb != "POST" && !r.preview
    && !ShopPage(r)
    && !Excluded(r.uri)
  }

  /** An excluded fragment anywhere in the URI, even inside a longer word, refuses the request. */
  lemma {:induction false} FragmentRefuses(r: Request, pre: string, k: nat, post: string)
    requires k < |ExcludedUrls|
    requires r.uri == pre + ExcludedUrls[k] + post
    ensures !Eligible(r)
  {
    AtPlaced(pre, ExcludedUrls[k], post);
    assert Contains(r.uri, ExcludedUrls[k]);
  }

  /** Only `POST` is refused for its method: any other verb of an eligible request is cached too. */
  lemma {:induction false} OnlyPostRefused(r: Request, verb: string)
    requires Eligible(r) && verb != "POST"
    ensures Eligible(r.(verb := verb))
    ensures !Eligible(r.(verb := "POST"))
  {
  }

  /** Without WooCommerce loaded, its page predicates do not matter. */
  lemma {:induction false} ShopNeedsWooCommerce(r: Request, cart: bool, checkout: bool, account: bool)
    requires !r.wooActive
    ensures Eligible(r.(cart := cart, checkout := checkout, account := account)) == Eligible(r)
  {
  }

  // ----------------------------------------------------------------------
  // The cache key
  // ----------------------------------------------------------------------

  /** Index of the first `?` or `#` at or after `i`, or the length. */
  function QueryStart(u: string, i: nat): (n: nat)
    requires i <= |u|
    ensures i <= n <= |u|
    decreases |u| - i
  {
    if i == |u| || u[i] == '?' || u[i] == '#' then i else QueryStart(u, i + 1)
  }

  predicate IsSchemeChar(c: char)
  {
    ('a' <= c <= 'z') || ('A' <= c <= 'Z') || ('0' <= c <= '9') || c == '+' || c == '-' || c == '.'
  }

  /** `v` starts with a URL scheme that ends at `k` (where `://` begins). */
  predicate SchemeEnds(v: string, k: nat)
  {
    0 < k <= |v| && forall j :: 0 <= j < k ==> IsSchemeChar(v[j])
  }

  /**
   * `parse_url($u, PHP_URL_PATH)`: query and fragment are cut off; with a
   * `scheme://` the authority is dropped and the path starts at the next
   * `/`. A URL without a path yields PHP's `null`, which concatenates as "".
   */
  function UrlPath(u: string): (r: string)
  {
    var v := u[..QueryStart(u, 0)];
    match Find(v, "://")
    case Some(k) =>
      if SchemeEnds(v, k) then
        match FindFrom(v, "/", k + 3)
        case Some(p) => v[p..]
        case None => ""
      else v
    case None => v
  }

  /** The cache key of a URL on a host: the digest of `path|host`. */
  function CacheKey(u: string, host: string, md5: string -> string): (r: string)
  {
    md5(UrlPath(u) + "|" + host)
  }

  function PageFile(key: string): (r: string)
  {
    key + ".html"
  }

  function GzipFile(key: string): (r: string)
  {
    key + ".html.gz"
  }

  /** What the cache relies on from `md5`: 32 lowercase hexadecimal digits. */
  ghost predicate Digest(md5: string -> string)
  {
    forall x :: |md5(x)| == 32 && forall j :: 0 <= j < |md5(x)| ==> ('0' <= md5(x)[j] <= '9' || 'a' <= md5(x)[j] <= 'f')
  }

  lemma {:induction false} QueryStartIs(u: string, i: nat, n: nat)
    requires i <= n <= |u|
    requires forall j :: i <= j < n ==> u[j] != '?' && u[j] != '#'
    requires n == |u| || u[n] == '?' || u[n] == '#'
    ensures QueryStart(u, i) == n
    decreases n - i
  {
    if i < n {
      QueryStartIs(u, i + 1, n);
    }
  }

  /** A URL without `?` and `#` keeps everything up to where they would begin. */
  lemma {:induction false} Unqueried(p: string, tail: string)
    requires forall j :: 0 <= j < |p| ==> p[j] != '?' && p[j] != '#'
    requires tail == [] || tail[0] == '?' || tail[0] == '#'
    ensures (p + tail)[..QueryStart(p + tail, 0)] == p
  {
    var u := p + tail;
    forall j | 0 <= j < |p|
      ensures u[j] != '?' && u[j] != '#'
    {
      assert u[j] == p[j];
    }
    if tail != [] {
      assert u[|p|] == tail[0];
    }
    QueryStartIs(u, 0, |p|);
  }

  /** The query string and the fragment do not change the key: all of them share one cache entry. */
  lemma {:induction false} QueryIgnored(p: string, sep: char, q: string, host: string, md5: string -> string)
    requires forall j :: 0 <= j < |p| ==> p[j] != '?' && p[j] != '#'
    requires sep == '?' || sep == '#'
    ensures CacheKey(p + [sep] + q, host, md5) == CacheKey(p, host, md5)
  {
    Unqueried(p, [sep] + q);
    Unqueried(p, []);
    assert p + [sep] + q == p + ([sep] + q);
    assert p + [] == p;
  }

  /** A URL without `?` and `#` is cut nowhere. */
  lemma {:induction false} NoQuery(u: string)
    requires forall j :: 0 <= j < |u| ==> u[j] != '?' && u[j] != '#'
    ensures u[..QueryStart(u, 0)] == u
  {
    Unqueried(u, []);
    assert u + [] == u;
  }

  /** A leading scheme is where `://` is first found. */
  lemma {:induction false} SchemeFound(scheme: string, rest: string)
    requires |scheme| > 0 && forall j :: 0 <= j < |scheme| ==> IsSchemeChar(scheme[j])
    ensures Find(scheme + "://" + rest, "://") == Some(|scheme|)
    ensures SchemeEnds(scheme + "://" + rest, |scheme|)
  {
    var u := scheme + "://" + rest;
    AtPlaced(scheme, "://", rest);
    forall k: nat | k < |scheme|
      ensures !At(u, "://", k)
    {
      assert u[k] == scheme[k];
    }
    FindIsFirst(u, "://", |scheme|);
    forall j | 0 <= j < |scheme|
      ensures IsSchemeChar(u[j])
    {
      assert u[j] == scheme[j];
    }
  }

  /** The path starts at the first `/` after an authority without one. */
  lemma {:induction false} PathFound(s: string, authority: string, path: string)
    requires forall j :: 0 <= j < |authority| ==> authority[j] != '/'
    requires |path| > 0 && path[0] == '/'
    ensures FindFrom(s + authority + path, "/", |s|) == Some(|s| + |authority|)
  {
    var u := s + authority + path;
    var p := |s| + |authority|;
    assert u[p] == '/';
    AtChars(u, "/", p);
    forall k: nat | |s| <= k < p
      ensures !At(u, "/", k)
    {
      assert u[k] == authority[k - |s|];
      AtChars(u, "/", k);
    }
    FindFromIsFirst(u, "/", |s|, p);
  }

  /** A path that starts with `/` has no scheme and is its own path. */
  lemma {:induction false} RelativePath(path: string)
    requires |path| > 0 && path[0] == '/'
    requires forall j :: 0 <= j < |path| ==> path[j] != '?' && path[j] != '#'
    ensures UrlPath(path) == path
  {
    NoQuery(path);
    assert !IsSchemeChar(path[0]);
  }

  /**
   * An absolute URL (a permalink) and the request URI of the same page give
   * the same path: `scheme://authority/path` yields `/path`.
   */
  lemma {:induction false} AbsolutePath(scheme: string, authority: string, path: string)
    requires |scheme| > 0 && forall j :: 0 <= j < |scheme| ==> IsSchemeChar(scheme[j])
    requires forall j :: 0 <= j < |authority| ==> authority[j] != '/' && authority[j] != '?' && authority[j] != '#'
    requires |path| > 0 && path[0] == '/'
    requires forall j :: 0 <= j < |path| ==> path[j] != '?' && path[j] != '#'
    ensures UrlPath(scheme + "://" + authority + path) == UrlPath(path) == path
  {
    var s := scheme + "://";
    var u := s + authority + path;
    forall j | 0 <= j < |u|
      ensures u[j] != '?' && u[j] != '#'
    {
      if j < |scheme| {
        assert u[j] == scheme[j];
      } else if j < |s| {
        assert u[j] == "://"[j - |scheme|];
      } else if j < |s| + |authority| {
        assert u[j] == authority[j - |s|];
      } else {
        assert u[j] == path[j - |s| - |authority|];
      }
    }
    NoQuery(u);
    assert u == scheme + "://" + (authority + path);
    SchemeFound(scheme, authority + path);
    PathFound(s, authority, path);
    assert u[|s| + |authority|..] == path;
    RelativePath(path);
  }

  // ----------------------------------------------------------------------
  // The provenance comment
  // ----------------------------------------------------------------------

  const HtmlClose := "</html>"

  /**
   * `preg_replace('/(pat)/i', c . '$1', s)`: before every occurrence of `pat`,
   * matched without regard to ASCII case, insert `c`; the match itself is kept
   * as written.
   */
  function Insert(s: string, pat: string, c: string): (r: string)
    requires |pat| > 0
    decreases |s|
  {
    match Find(Lower(s), pat)
    case None => s
    case Some(i) => s[..i] + c + s[i..i + |pat|] + Insert(s[i + |pat|..], pat, c)
  }

  /** `tag` is the first occurrence of `pat` in `x + tag`, ignoring case. */
  predicate FirstAt(x: string, tag: string, pat: string)
  {
    |tag| == |pat| && Find(Lower(x + tag), pat) == Some(|x|)
  }

  /** Without an occurrence the text is kept. */
  lemma {:induction false} InsertNone(s: string, pat: string, c: string)
    requires |pat| > 0
    requires !Contains(Lower(s), pat)
    ensures Insert(s, pat, c) == s
  {
  }

  /** At the first occurrence `c` is inserted, the occurrence kept, and the rest treated alike. */
  lemma {:induction false} InsertFirst(x: string, tag: string, y: string, pat: string, c: string)
    requires |pat| > 0 && FirstAt(x, tag, pat)
    ensures Insert(x + tag + y, pat, c) == x + c + tag + Insert(y, pat, c)
  {
    var s := x + tag + y;
    MatchOpen(x, tag, y, pat);
    assert s[..|x|] == x && s[|x|..|x| + |pat|] == tag && s[|x| + |pat|..] == y;
  }

  /** The comment line the cache puts before `</html>`, without its line end. */
  function Lead(now: string): (res: string)
  {
    "<!-- Cached by MACP on " + now + " -->"
  }

  /** The provenance stamp, ending the comment line with a line feed. */
  function Stamp(s: string, now: string): (r: string)
  {
    Insert(s, HtmlClose, Lead(now) + "\n")
  }

  /** The stamp as written: the single-quoted `'\n'` is a backslash followed by `n`. */
  function StampAsWritten(s: string, now: string): (r: string)
  {
    Insert(s, HtmlClose, Lead(now) + "\\n")
  }

  /** A page without a closing `</html>` in any case is not stamped. */
  lemma {:induction false} StampNeedsClose(s: string, now: string)
    requires !Contains(Lower(s), HtmlClose)
    ensures Stamp(s, now) == s
  {
    InsertNone(s, HtmlClose, Lead(now) + "\n");
  }

  /**
   * The first `</html>` (in any case) gets the comment line right before it,
   * the tag is kept as written, and every later one is stamped as well.
   */
  lemma {:induction false} StampBeforeClose(x: string, tag: string, y: string, now: string)
    requires FirstAt(x, tag, HtmlClose)
    ensures Stamp(x + tag + y, now) == x + Lead(now) + "\n" + tag + Stamp(y, now)
  {
    InsertFirst(x, tag, y, HtmlClose, Lead(now) + "\n");
  }

  /** The inserted text sits right after the text before the first occurrence. */
  lemma {:induction false} InsertedAt(x: string, tag: string, y: string, pat: string, c: string, j: nat)
    requires |pat| > 0 && FirstAt(x, tag, pat) && j < |c|
    ensures |x| + j < |Insert(x + tag + y, pat, c)|
    ensures Insert(x + tag + y, pat, c)[|x| + j] == c[j]
  {
    InsertFirst(x, tag, y, pat, c);
    assert (x + c + tag + Insert(y, pat, c))[|x| + j] == c[j];
  }

  /** As written, the comment line before the first `</html>` ends in `\\n` instead. */
  lemma {:induction false} StampAsWrittenBeforeClose(x: string, tag: string, y: string, now: string)
    requires FirstAt(x, tag, HtmlClose)
    ensures StampAsWritten(x + tag + y, now) == x + Lead(now) + "\\n" + tag + StampAsWritten(y, now)
  {
    InsertFirst(x, tag, y, HtmlClose, Lead(now) + "\\n");
  }

  /**
   * As written, the comment line ends in the two characters `\\` and `n`
   * where a line feed is meant, so the tag stays on the comment's line.
   */
  lemma {:induction false} StampAsWrittenBackslash(x: string, tag: string, y: string, now: string)
    requires FirstAt(x, tag, HtmlClose)
    ensures var n := |x| + |Lead(now)|;
      && n + 1 < |StampAsWritten(x + tag + y, now)| && n < |Stamp(x + tag + y, now)|
      && StampAsWritten(x + tag + y, now)[n] == '\\' && StampAsWritten(x + tag + y, now)[n + 1] == 'n'
      && Stamp(x + tag + y, now)[n] == '\n'
    ensures StampAsWritten(x + tag + y, now) != Stamp(x + tag + y, now)
  {
    var n := |Lead(now)|;
    InsertedAt(x, tag, y, HtmlClose, Lead(now) + "\\n", n);
    InsertedAt(x, tag, y, HtmlClose, Lead(now) + "\\n", n + 1);
    InsertedAt(x, tag, y, HtmlClose, Lead(now) + "\n", n);
  }

  /** The closing tag alone already shows the difference. */
  lemma {:induction false} ClosingTagFirst()
    ensures FirstAt([], HtmlClose, HtmlClose)
  {
    LowerIndex(HtmlClose);
    assert Lower(HtmlClose) == HtmlClose;
    assert [] + HtmlClose == HtmlClose;
    AtChars(HtmlClose, HtmlClose, 0);
    FindIsFirst(HtmlClose, HtmlClose, 0);
  }

  // ----------------------------------------------------------------------
  // Writing a page
  // ----------------------------------------------------------------------

  /** Pages shorter than this many bytes are served but not cached. */
  const MinSize := 255

  /** The site settings and host services `cache_output` consults. */
  datatype Env = Env(
    now: string,                // current_time('mysql')
    sw: Switches,               // macp_minify_html / _css / _js
    o: Options,                 // the HTML minifier's options
    b: Base64,                  // base64_encode / base64_decode
    css: string -> string,      // the CSS minifier
    js: string -> string,       // the JS minifier
    md5: string -> string,      // md5
    gz: string -> string,       // gzencode(_, 9)
    gzipOn: bool)               // macp_enable_gzip

  predicate AnySwitch(w: Switches)
  {
    w.html || w.css || w.js
  }

  /** The page as it is cached: stamped, then minified when some minifier is on. */
  function Prepared(buffer: string, e: Env): (r: string)
  {
    var p := Stamp(buffer, e.now);
    if AnySwitch(e.sw) then ProcessOutput(p, e.sw, e.o, e.b, e.css, e.js) else p
  }

  /** What `cache_output` hands back to PHP's output buffer. */
  function Output(buffer: string, e: Env): (r: string)
  {
    if |buffer| < MinSize then buffer else Prepared(buffer, e)
  }

  /** The two writes of a page of at least 255 bytes whose page-file write succeeded. */
  function Saved(fs: map<string, string>, key: string, p: string, e: Env, gzOk: bool): (res: map<string, string>)
  {
    var fs1 := fs[PageFile(key) := p];
    if e.gzipOn && gzOk then fs1[GzipFile(key) := e.gz(p)] else fs1
  }

  /**
   * The cache directory after `cache_output`: nothing for a short page or a
   * failed page write; otherwise the page file, and the gzip file when gzip
   * is on and its write succeeds.
   */
  function Stored(fs: map<string, string>, buffer: string, r: Request, e: Env, rawOk: bool, gzOk: bool): (saved: map<string, string>)
  {
    if |buffer| < MinSize || !rawOk then fs
    else Saved(fs, CacheKey(r.uri, r.host, e.md5), Prepared(buffer, e), e, gzOk)
  }

  /**
   * The page as `cache_output` as written caches it: the stamp with a
   * backslash and `n`, then `process_output` as written.
   */
  function PreparedAsWritten(buffer: string, e: Env): (res: string)
  {
    var p := StampAsWritten(buffer, e.now);
    if AnySwitch(e.sw) then ProcessOutputAsWritten(p, e.sw, e.o, e.b, e.css, e.js) else p
  }

  function OutputAsWritten(buffer: string, e: Env): (res: string)
  {
    if |buffer| < MinSize then buffer else PreparedAsWritten(buffer, e)
  }

  function StoredAsWritten(fs: map<string, string>, buffer: string, r: Request, e: Env, rawOk: bool, gzOk: bool): (res: map<string, string>)
  {
    if |buffer| < MinSize || !rawOk then fs
    else Saved(fs, CacheKey(r.uri, r.host, e.md5), PreparedAsWritten(buffer, e), e, gzOk)
  }

  /** Stamping never shortens a page. */
  lemma {:induction false} InsertGrows(s: string, pat: string, c: string)
    requires |pat| > 0
    ensures |Insert(s, pat, c)| >= |s|
    decreases |s|
  {
    match Find(Lower(s), pat)
    case None =>
    case Some(i) =>
      InsertGrows(s[i + |pat|..], pat, c);
  }

  /**
   * As written, with `macp_minify_html` on, every page of at least 255 bytes
   * is cached and served as the empty string: the minifier's `null` is
   * written, gzipped and returned.
   */
  lemma {:induction false} AsWrittenCachesBlank(fs: map<string, string>, buffer: string, r: Request, e: Env, rawOk: bool, gzOk: bool)
    requires |buffer| >= MinSize && e.sw.html && e.o.preserveConditionalComments
    ensures OutputAsWritten(buffer, e) == ""
    ensures var key := CacheKey(r.uri, r.host, e.md5); var left := StoredAsWritten(fs, buffer, r, e, rawOk, gzOk);
      && (rawOk ==> PageFile(key) in left && left[PageFile(key)] == "")
      && (rawOk && e.gzipOn && gzOk ==> GzipFile(key) in left && left[GzipFile(key)] == e.gz(""))
  {
    var key := CacheKey(r.uri, r.host, e.md5);
    var p := StampAsWritten(buffer, e.now);
    InsertGrows(buffer, HtmlClose, Lead(e.now) + "\\n");
    assert !IsEmpty(p) by {
      assert |p| >= 255;
    }
    ProcessOutputAsWrittenBlanks(p, e.sw, e.o, e.b, e.css, e.js);
    assert PageFile(key) != GzipFile(key) by {
      assert |PageFile(key)| != |GzipFile(key)|;
    }
  }

  /** The option gate before `process_output` changes nothing: with every option off it is the identity. */
  lemma {:induction false} GateRedundant(buffer: string, e: Env)
    ensures Prepared(buffer, e) == ProcessOutput(Stamp(buffer, e.now), e.sw, e.o, e.b, e.css, e.js)
  {
  }

  /** A page under 255 bytes is served as it is and nothing is written. */
  lemma {:induction false} ShortPageNotCached(fs: map<string, string>, buffer: string, r: Request, e: Env, rawOk: bool, gzOk: bool)
    requires |buffer| < MinSize
    ensures Output(buffer, e) == buffer
    ensures Stored(fs, buffer, r, e, rawOk, gzOk) == fs
  {
  }

  /** From 255 bytes on, a successful write stores exactly the page that is served. */
  lemma {:induction false} ServedIsStored(fs: map<string, string>, buffer: string, r: Request, e: Env, rawOk: bool, gzOk: bool)
    requires |buffer| >= MinSize && rawOk
    ensures var key := CacheKey(r.uri, r.host, e.md5);
      PageFile(key) in Stored(fs, buffer, r, e, rawOk, gzOk)
      && Stored(fs, buffer, r, e, rawOk, gzOk)[PageFile(key)] == Output(buffer, e)
  {
    var key := CacheKey(r.uri, r.host, e.md5);
    assert PageFile(key) != GzipFile(key) by {
      assert |PageFile(key)| != |GzipFile(key)|;
    }
  }

  /**
   * A new gzip file appears only after the page file was written, with gzip
   * on and its own write successful, and it holds the compressed served page.
   */
  lemma {:induction false} GzipFollowsPage(fs: map<string, string>, buffer: string, r: Request, e: Env, rawOk: bool, gzOk: bool)
    requires var key := CacheKey(r.uri, r.host, e.md5);
      GzipFile(key) !in fs && GzipFile(key) in Stored(fs, buffer, r, e, rawOk, gzOk)
    ensures |buffer| >= MinSize && rawOk && e.gzipOn && gzOk
    ensures Stored(fs, buffer, r, e, rawOk, gzOk)[GzipFile(CacheKey(r.uri, r.host, e.md5))] == e.gz(Output(buffer, e))
  {
    var key := CacheKey(r.uri, r.host, e.md5);
    assert PageFile(key) != GzipFile(key) by {
      assert |PageFile(key)| != |GzipFile(key)|;
    }
  }

  /**
   * When the page write, the gzip option and the gzip write all succeed, the
   * gzip file holds the compressed served page, whatever it held before.
   */
  lemma {:induction false} GzipWritten(fs: map<string, string>, buffer: string, r: Request, e: Env, rawOk: bool, gzOk: bool)
    requires |buffer| >= MinSize && rawOk && e.gzipOn && gzOk
    ensures var key := CacheKey(r.uri, r.host, e.md5); var left := Stored(fs, buffer, r, e, rawOk, gzOk);
      GzipFile(key) in left && left[GzipFile(key)] == e.gz(Output(buffer, e))
  {
  }

  /** A failed page write writes nothing else: the directory is as it was. */
  lemma {:induction false} FailedWriteStoresNothing(fs: map<string, string>, buffer: string, r: Request, e: Env, gzOk: bool)
    ensures Stored(fs, buffer, r, e, false, gzOk) == fs
  {
  }

  /** Without the gzip write, an older gzip file of the page stays as it was, even though the page file changed. */
  lemma {:induction false} GzipSkippedKeepsOld(fs: map<string, string>, buffer: string, r: Request, e: Env, rawOk: bool, gzOk: bool)
    requires !(e.gzipOn && gzOk)
    ensures var key := CacheKey(r.uri, r.host, e.md5); var left := Stored(fs, buffer, r, e, rawOk, gzOk);
      && (GzipFile(key) in left <==> GzipFile(key) in fs)
      && (GzipFile(key) in fs ==> left[GzipFile(key)] == fs[GzipFile(key)])
  {
    var key := CacheKey(r.uri, r.host, e.md5);
    assert PageFile(key) != GzipFile(key) by {
      assert |PageFile(key)| != |GzipFile(key)|;
    }
  }

  /** Writing a page touches no file but its own two. */
  lemma {:induction false} OtherFilesKept(fs: map<string, string>, buffer: string, r: Request, e: Env, rawOk: bool, gzOk: bool, f: string)
    requires var key := CacheKey(r.uri, r.host, e.md5); f != PageFile(key) && f != GzipFile(key)
    ensures var left := Stored(fs, buffer, r, e, rawOk, gzOk);
      && (f in left <==> f in fs)
      && (f in fs ==> left[f] == fs[f])
  {
  }

  /**
   * With every minifier off, a long page without `</html>` is returned as it
   * came and, when the page write succeeds, stored byte for byte.
   */
  lemma {:induction false} PlainPageStoredAsIs(fs: map<string, string>, buffer: string, r: Request, e: Env, rawOk: bool, gzOk: bool)
    requires |buffer| >= MinSize && !AnySwitch(e.sw)
    requires !Contains(Lower(buffer), HtmlClose)
    ensures Output(buffer, e) == buffer
    ensures var key := CacheKey(r.uri, r.host, e.md5); var left := Stored(fs, buffer, r, e, rawOk, gzOk);
      rawOk ==> PageFile(key) in left && left[PageFile(key)] == buffer
  {
    StampNeedsClose(buffer, e.now);
    if rawOk {
      ServedIsStored(fs, buffer, r, e, rawOk, gzOk);
    }
  }

  // ----------------------------------------------------------------------
  // Clearing
  // ----------------------------------------------------------------------

  /** The files `clear_cache` globs for. */
  datatype Sweep =
    | Keep                   // a post id without a usable permalink
    | PageFiles(key: string) // `<key>*`
    | AllPages               // `*.{html,gz}`

  predicate EndsWith(s: string, suffix: string)
  {
    |suffix| <= |s| && s[|s| - |suffix|..] == suffix
  }

  /** The file matches the glob; a leading `*` does not match a leading `.`. */
  predicate Doomed(f: string, sweep: Sweep)
  {
    match sweep
    case Keep => false
    case PageFiles(key) => HasPrefix(f, key)
    case AllPages => !(|f| > 0 && f[0] == '.') && (EndsWith(f, ".html") || EndsWith(f, ".gz"))
  }

  /**
   * What `clear_cache($post_id)` globs: with a (truthy) post id, the files of
   * that post's permalink on the current host, provided the permalink is not
   * empty; without one, every `.html` and `.gz` file. A post id of 0 stands
   * for none.
   */
  function SweepOf(postId: int, permalink: Option<string>, host: string, md5: string -> string): (r: Sweep)
  {
    if postId != 0 then
      if permalink.Some? && !IsEmpty(permalink.value) then PageFiles(CacheKey(permalink.value, host, md5)) else Keep
    else AllPages
  }

  /** The directory after every globbed file is unlinked. */
  function Survivors(fs: map<string, string>, sweep: Sweep): (r: map<string, string>)
  {
    map f | f in fs && !Doomed(f, sweep) :: fs[f]
  }

  /** The directory once the files of `gone` are unlinked. */
  function Unlinked(fs: map<string, string>, gone: set<string>): (left: map<string, string>)
    ensures forall f :: f in left <==> f in fs && f !in gone
  {
    map f | f in fs && f !in gone :: fs[f]
  }

  /** Unlinking one more file takes just that file out. */
  lemma {:induction false} UnlinkOne(fs: map<string, string>, gone: set<string>, f: string)
    ensures Unlinked(fs, gone + {f}) == Unlinked(fs, gone) - {f}
  {
  }

  /** Unlinking every file the glob finds leaves the survivors of the sweep. */
  lemma {:induction false} UnlinkFound(fs: map<string, string>, sweep: Sweep)
    ensures Unlinked(fs, set f | f in fs && Doomed(f, sweep)) == Survivors(fs, sweep)
  {
  }

  lemma {:induction false} KeyPrefix(key: string, suffix: string)
    ensures HasPrefix(key + suffix, key)
  {
    AtChars(key + suffix, key, 0);
    assert forall j :: 0 <= j < |key| ==> (key + suffix)[0 + j] == key[j];
  }

  /** Clearing a page after caching it leaves the directory as clearing it before would. */
  lemma {:induction false} ClearUndoesCache(fs: map<string, string>, buffer: string, r: Request, e: Env, rawOk: bool, gzOk: bool)
    ensures var key := CacheKey(r.uri, r.host, e.md5);
      Survivors(Stored(fs, buffer, r, e, rawOk, gzOk), PageFiles(key)) == Survivors(fs, PageFiles(key))
  {
    var key := CacheKey(r.uri, r.host, e.md5);
    KeyPrefix(key, ".html");
    KeyPrefix(key, ".html.gz");
  }

  /** Clearing everything after caching a page leaves the directory as clearing it before would. */
  lemma {:induction false} ClearAllUndoesCache(fs: map<string, string>, buffer: string, r: Request, e: Env, rawOk: bool, gzOk: bool)
    requires Digest(e.md5)
    ensures Survivors(Stored(fs, buffer, r, e, rawOk, gzOk), AllPages) == Survivors(fs, AllPages)
  {
    var key := CacheKey(r.uri, r.host, e.md5);
    assert |key| == 32 && key[0] != '.';
    var a, z := PageFile(key), GzipFile(key);
    assert a[0] == key[0] && z[0] == key[0];
    assert a[|a| - 5..] == ".html";
    assert z[|z| - 3..] == ".gz";
    assert Doomed(a, AllPages) && Doomed(z, AllPages);
  }

  /** The `.htaccess` guard survives every clearing. */
  lemma {:induction false} HtaccessSurvives(fs: map<string, string>, postId: int, permalink: Option<string>, host: string, md5: string -> string)
    requires Digest(md5) && ".htaccess" in fs
    ensures var left := Survivors(fs, SweepOf(postId, permalink, host, md5));
      ".htaccess" in left && left[".htaccess"] == fs[".htaccess"]
  {
    match SweepOf(postId, permalink, host, md5)
    case Keep =>
    case AllPages =>
    case PageFiles(key) =>
      assert key == md5(UrlPath(permalink.value) + "|" + host);
      assert |key| > 0 && key[0] != '.';
      AtChars(".htaccess", key, 0);
  }

  /** Clearing one page leaves the files of every page with a different key of the same length. */
  lemma {:induction false} OtherPagesSurvive(fs: map<string, string>, key: string, other: string, suffix: string)
    requires |other| == |key| && other != key
    requires other + suffix in fs
    ensures other + suffix in Survivors(fs, PageFiles(key))
  {
    PrefixOfIs(other + suffix, key);
    assert (other + suffix)[..|key|] == other;
  }

  // ----------------------------------------------------------------------
  // The cache object
  // ----------------------------------------------------------------------

  /** The directory after `ensure_cache_directory`: `.htaccess` is written once, never overwritten. */
  function Ensured(fs: map<string, string>, dirOk: bool, htOk: bool): (r: map<string, string>)
  {
    if dirOk && ".htaccess" !in fs && htOk then fs[".htaccess" := "deny from all"] else fs
  }

  /** Ensuring the directory twice is ensuring it once, and an existing guard is never rewritten. */
  lemma {:induction false} EnsuredOnce(fs: map<string, string>, dirOk: bool, htOk: bool)
    ensures Ensured(Ensured(fs, dirOk, htOk), dirOk, htOk) == Ensured(fs, dirOk, htOk)
    ensures ".htaccess" in fs ==> Ensured(fs, dirOk, htOk) == fs
    ensures dirOk && htOk ==> Ensured(fs, dirOk, htOk)[".htaccess"] == (if ".htaccess" in fs then fs[".htaccess"] else "deny from all")
  {
  }

  class PageCache {
    const excludedUrls: seq<string>
    /** The cache directory: file name to contents. */
    var files: map<string, string>

    predicate Valid()
    {
      excludedUrls == ExcludedUrls
    }

    /**
     * Starts over the directory as it is on disk; `dirOk` is whether the
     * directory exists or could be made, `htOk` whether writing `.htaccess`
     * succeeds.
     */
    constructor (existing: map<string, string>, dirOk: bool, htOk: bool)
      ensures Valid()
      ensures files == Ensured(existing, dirOk, htOk)
    {
      excludedUrls := ExcludedUrls;
      files := existing;
      new;
      EnsureCacheDirectory(dirOk, htOk);
    }

    method EnsureCacheDirectory(dirOk: bool, htOk: bool)
      modifies this
      ensures files == Ensured(old(files), dirOk, htOk)
    {
      if dirOk {
        if ".htaccess" !in files {
          if htOk {
            files := files[".htaccess" := "deny from all"];
          }
        }
      }
    }

    /** `should_cache_page`: the rules in order, then the excluded fragments one by one. */
    method ShouldCachePage(r: Request) returns (ok: bool)
      requires Valid()
      ensures ok == Eligible(r)
    {
      if r.admin {
        return false;
      }
      if r.loggedIn {
        return false;
      }
      if r.search || r.verb == "POST" || r.preview {
        return false;
      }
      if r.wooActive && (r.cart || r.checkout || r.account) {
        return false;
      }
      var i := 0;
      while i < |excludedUrls|
        invariant 0 <= i <= |excludedUrls|
        invariant forall k :: 0 <= k < i ==> !Contains(r.uri, excludedUrls[k])
      {
        if Contains(r.uri, excludedUrls[i]) {
          return false;
        }
        i := i + 1;
      }
      return true;
    }

    /**
     * `cache_output`: a page of at least 255 bytes is stamped, minified when
     * an option asks for it, written, and gzipped when gzip is on. `rawOk`
     * and `gzOk` are the outcomes of the two writes.
     */
    method CacheOutput(buffer: string, r: Request, e: Env, rawOk: bool, gzOk: bool) returns (out: string)
      modifies this
      ensures out == Output(buffer, e)
      ensures files == Stored(old(files), buffer, r, e, rawOk, gzOk)
    {
      if |buffer| < MinSize {
        return buffer;
      }
      var key := CacheKey(r.uri, r.host, e.md5);
      var page := Stamp(buffer, e.now);
      if e.sw.html || e.sw.css || e.sw.js {
        page := ProcessOutput(page, e.sw, e.o, e.b, e.css, e.js);
      }
      if !rawOk {
        return page;
      }
      files := files[PageFile(key) := page];
      if e.gzipOn && gzOk {
        files := files[GzipFile(key) := e.gz(page)];
      }
      return page;
    }

    /** `clear_cache`: unlink every file the glob finds, one at a time. */
    method ClearCache(postId: int, permalink: Option<string>, host: string, md5: string -> string)
      modifies this
      ensures files == Survivors(old(files), SweepOf(postId, permalink, host, md5))
    {
      var sweep := SweepOf(postId, permalink, host, md5);
      var found := set f | f in files && Doomed(f, sweep);
      var todo := found;
      ghost var gone: set<string> := {};
      while todo != {}
        invariant todo <= found && gone == found - todo
        invariant files == Unlinked(old(files), gone)
        decreases |todo|
      {
        var f :| f in todo;
        files := files - {f};
        UnlinkOne(old(files), gone, f);
        gone := gone + {f};
        todo := todo - {f};
      }
      UnlinkFound(old(files), sweep);
    }
  }
}
