/**
 * The output dispatcher (includes/class-macp-minification.php): the HTML
 * minifier, then every inline `<style>` block through the CSS minifier, then
 * every inline `<script>` block through the JS minifier. The CSS and JS
 * minifiers are parameters: their behaviour is left open.
 */
module Minification {
  import opened Text
  import opened Codec
  import opened MinifyHtml

  /**
   * A page cut at the matches of `/<name[^>]*>(.*?)<\/name>/is`: the text
   * before a match, the match's opening tag, its body (the regex's group 1)
   * and its closing tag, then the rest of the page.
   */
  datatype Blocks =
    | Rest(text: string)
    | Block(text: string, tag: string, inner: string, end: string, rest: Blocks)

  function Whole(bs: Blocks): (res: string)
  {
    match bs
    case Rest(t) => t
    case Block(t, g, i, e, r) => t + (g + i + e) + Whole(r)
  }

  /**
   * The matches of `/<open[^>]*>(.*?)close/is`, leftmost first: `open` and
   * `close` are lower case and compared with the page folded to lower case;
   * `[^>]*>` ends at the first `>` after `open`, and the lazy body at the
   * first `close` after that `>`. When the first `open` has no match, no
   * later one has either.
   */
  function Scan(s: string, open: string, close: string): (bs: Blocks)
    requires |open| > 0 && |close| > 0
    ensures Whole(bs) == s
    decreases |s|
  {
    match Find(Lower(s), open)
    case None => Rest(s)
    case Some(i) =>
      match FindFrom(s, ">", i + |open|)
      case None => Rest(s)
      case Some(g) =>
        match FindFrom(Lower(s), close, g + 1)
        case None => Rest(s)
        case Some(j) =>
          var e := j + |close|;
          assert s == s[..i] + (s[i..g + 1] + s[g + 1..j] + s[j..e]) + s[e..];
          Block(s[..i], s[i..g + 1], s[g + 1..j], s[j..e], Scan(s[e..], open, close))
  }

  // ----------------------------------------------------------------------
  // What the pattern matches
  // ----------------------------------------------------------------------

  /** `tag` is `open[^>]*>`, with `open` compared case-insensitively. */
  predicate OpeningTag(tag: string, open: string)
  {
    && |open| < |tag|
    && HasPrefix(Lower(tag), open)
    && tag[|tag| - 1] == '>'
    && forall k :: |open| <= k < |tag| - 1 ==> tag[k] != '>'
  }

  /** `inner + end` is `(.*?)close`: `end` is `close` and the first one. */
  predicate LazyBody(inner: string, end: string, close: string)
  {
    Lower(end) == close && Find(Lower(inner + end), close) == Some(|inner|)
  }

  /** `tag + inner + end` is a match, and no `open` starts in the text `t` before it. */
  predicate IsMatch(t: string, tag: string, inner: string, end: string, open: string, close: string)
  {
    Find(Lower(t + tag), open) == Some(|t|) && OpeningTag(tag, open) && LazyBody(inner, end, close)
  }

  /** `s` holds no match: no `open`, then a `>`, then a `close`, in that order. */
  ghost predicate NoMatch(s: string, open: string, close: string)
  {
    forall i: nat, g: nat, j: nat ::
      At(Lower(s), open, i) && i + |open| <= g < j && g < |s| && s[g] == '>' ==> !At(Lower(s), close, j)
  }

  lemma {:induction false} AtGt(s: string, k: nat)
    ensures At(s, ">", k) <==> k < |s| && s[k] == '>'
  {
    AtChars(s, ">", k);
  }

  lemma {:induction false} AtWhole(x: string, pat: string)
    requires |x| == |pat| && At(x, pat, 0)
    ensures x == pat
  {
    AtChars(x, pat, 0);
  }

  /** The first piece `Scan` cuts is a leftmost match. */
  lemma {:induction false} ScanLeftmost(s: string, open: string, i: nat, n: nat)
    requires Find(Lower(s), open) == Some(i) && i + |open| <= n <= |s|
    ensures Find(Lower(s[..i] + s[i..n]), open) == Some(i)
  {
    assert s[..i] + s[i..n] == s[0..n];
    LowerSlice(s, 0, n);
    FindFromPrefix(Lower(s), n, open, 0);
  }

  lemma {:induction false} ScanTag(s: string, open: string, i: nat, g: nat)
    requires Find(Lower(s), open) == Some(i)
    requires FindFrom(s, ">", i + |open|) == Some(g)
    ensures OpeningTag(s[i..g + 1], open)
  {
    var tag := s[i..g + 1];
    LowerSlice(s, i, g + 1);
    AtSlice(Lower(s), i, g + 1, open, 0);
    AtGt(s, g);
    forall k | |open| <= k < |tag| - 1
      ensures tag[k] != '>'
    {
      AtGt(s, i + k);
    }
  }

  lemma {:induction false} ScanEnd(s: string, close: string, j: nat)
    requires j + |close| <= |s| && At(Lower(s), close, j)
    ensures Lower(s[j..j + |close|]) == close
  {
    var e := j + |close|;
    LowerSlice(s, j, e);
    AtSlice(Lower(s), j, e, close, 0);
    AtWhole(Lower(s)[j..e], close);
  }

  lemma {:induction false} ScanLazy(s: string, close: string, g: nat, j: nat)
    requires FindFrom(Lower(s), close, g + 1) == Some(j)
    ensures Find(Lower(s[g + 1..j] + s[j..j + |close|]), close) == Some(j - g - 1)
  {
    var e := j + |close|;
    assert s[g + 1..j] + s[j..e] == s[g + 1..e];
    LowerSlice(s, g + 1, e);
    FindFromSlice(Lower(s), g + 1, e, close, 0);
  }

  lemma {:induction false} ScanBody(s: string, close: string, g: nat, j: nat)
    requires FindFrom(Lower(s), close, g + 1) == Some(j)
    ensures LazyBody(s[g + 1..j], s[j..j + |close|], close)
  {
    ScanEnd(s, close, j);
    ScanLazy(s, close, g, j);
  }

  /** One step of `Scan`: the first match, then the rest. */
  lemma {:induction false} ScanCut(s: string, open: string, close: string, i: nat, g: nat, j: nat)
    requires |open| > 0 && |close| > 0
    requires Find(Lower(s), open) == Some(i)
    requires FindFrom(s, ">", i + |open|) == Some(g)
    requires FindFrom(Lower(s), close, g + 1) == Some(j)
    ensures Scan(s, open, close)
         == Block(s[..i], s[i..g + 1], s[g + 1..j], s[j..j + |close|], Scan(s[j + |close|..], open, close))
  {
  }

  lemma {:induction false} ScanMatch(s: string, open: string, close: string, i: nat, g: nat, j: nat)
    requires Find(Lower(s), open) == Some(i)
    requires FindFrom(s, ">", i + |open|) == Some(g)
    requires FindFrom(Lower(s), close, g + 1) == Some(j)
    ensures IsMatch(s[..i], s[i..g + 1], s[g + 1..j], s[j..j + |close|], open, close)
  {
    ScanLeftmost(s, open, i, g + 1);
    ScanTag(s, open, i, g);
    ScanBody(s, close, g, j);
  }

  /** Every piece `Scan` cuts is a match of the pattern, leftmost first. */
  lemma {:induction false} ScanBlock(s: string, open: string, close: string)
    requires |open| > 0 && |close| > 0
    ensures var bs := Scan(s, open, close);
      bs.Block? ==>
        && IsMatch(bs.text, bs.tag, bs.inner, bs.end, open, close)
        && bs.rest == Scan(s[|bs.text| + |bs.tag| + |bs.inner| + |bs.end|..], open, close)
  {
    match Find(Lower(s), open)
    case None =>
    case Some(i) =>
      match FindFrom(s, ">", i + |open|)
      case None =>
      case Some(g) =>
        match FindFrom(Lower(s), close, g + 1)
        case None =>
        case Some(j) =>
          ScanCut(s, open, close, i, g, j);
          ScanMatch(s, open, close, i, g, j);
  }

  lemma {:induction false} MatchOpen(t: string, tag: string, body: string, open: string)
    requires Find(Lower(t + tag), open) == Some(|t|)
    ensures Find(Lower(t + tag + body), open) == Some(|t|)
  {
    LowerAppend(t + tag, body);
    FindAppend(Lower(t + tag), Lower(body), open);
  }

  lemma {:induction false} MatchGt(t: string, tag: string, body: string, open: string)
    requires OpeningTag(tag, open)
    ensures FindFrom(t + tag + body, ">", |t| + |open|) == Some(|t| + |tag| - 1)
  {
    var s := t + tag + body;
    var g := |t| + |tag| - 1;
    assert s[g] == tag[|tag| - 1];
    AtGt(s, g);
    forall k: nat | |t| + |open| <= k < g
      ensures !At(s, ">", k)
    {
      assert s[k] == tag[k - |t|];
      AtGt(s, k);
    }
    FindFromIsFirst(s, ">", |t| + |open|, g);
  }

  lemma {:induction false} MatchClose(x: string, inner: string, end: string, rest: string, close: string)
    requires Find(Lower(inner + end), close) == Some(|inner|)
    ensures FindFrom(Lower(x + (inner + end + rest)), close, |x|) == Some(|x| + |inner|)
  {
    LowerAppend(x, inner + end + rest);
    LowerAppend(inner + end, rest);
    FindAppend(Lower(inner + end), Lower(rest), close);
    FindFromRight(Lower(x), Lower(inner + end + rest), close, 0);
  }

  lemma {:induction false} Regrouped(t: string, a: string, b: string, c: string, r: string)
    ensures var s := t + (a + b + c) + r;
      && s == t + a + (b + c + r)
      && s[..|t|] == t && s[|t|..|t| + |a|] == a && s[|t| + |a|..|t| + |a| + |b|] == b
      && s[|t| + |a| + |b|..|t| + |a| + |b| + |c|] == c && s[|t| + |a| + |b| + |c|..] == r
  {
  }

  /** `ScanCut` for a page given as its pieces. */
  lemma {:induction false} ScanPieces(s: string, t: string, tag: string, inner: string, end: string, rest: string, open: string, close: string)
    requires |open| > 0 && |close| > 0 && |tag| > 0 && |end| == |close|
    requires s == t + (tag + inner + end) + rest
    requires Find(Lower(s), open) == Some(|t|)
    requires FindFrom(s, ">", |t| + |open|) == Some(|t| + |tag| - 1)
    requires FindFrom(Lower(s), close, |t + tag|) == Some(|t| + |tag| + |inner|)
    ensures Scan(s, open, close) == Block(t, tag, inner, end, Scan(rest, open, close))
  {
    Regrouped(t, tag, inner, end, rest);
  }

  /** A leftmost match is the first piece `Scan` cuts: the pattern and the scanner agree. */
  lemma {:induction false} MatchScan(t: string, tag: string, inner: string, end: string, rest: string, open: string, close: string)
    requires |open| > 0 && |close| > 0
    requires IsMatch(t, tag, inner, end, open, close)
    ensures Scan(t + (tag + inner + end) + rest, open, close) == Block(t, tag, inner, end, Scan(rest, open, close))
  {
    var s := t + (tag + inner + end) + rest;
    assert |end| == |close|;
    Regrouped(t, tag, inner, end, rest);
    MatchOpen(t, tag, inner + end + rest, open);
    MatchGt(t, tag, inner + end + rest, open);
    MatchClose(t + tag, inner, end, rest, close);
    ScanPieces(s, t, tag, inner, end, rest, open, close);
  }

  /** `Scan` cuts nothing exactly when the page holds no match. */
  lemma {:induction false} ScanRest(s: string, open: string, close: string)
    requires |open| > 0 && |close| > 0
    ensures Scan(s, open, close).Rest? <==> NoMatch(s, open, close)
  {
    var L := Lower(s);
    match Find(L, open)
    case None =>
    case Some(i0) =>
      match FindFrom(s, ">", i0 + |open|)
      case None =>
        forall i: nat, g: nat | At(L, open, i) && i + |open| <= g < |s|
          ensures s[g] != '>'
        {
          AtGt(s, g);
        }
      case Some(g0) =>
        match FindFrom(L, close, g0 + 1)
        case None =>
          forall i: nat, g: nat, j: nat | At(L, open, i) && i + |open| <= g < j && g < |s| && s[g] == '>'
            ensures !At(L, close, j)
          {
            AtGt(s, g);
          }
        case Some(j0) =>
          AtGt(s, g0);
          assert At(L, open, i0) && i0 + |open| <= g0 < j0 && g0 < |s| && s[g0] == '>' && At(L, close, j0);
  }

  const StyleOpen := "<style"
  const StyleClose := "</style>"
  const ScriptOpen := "<script"
  const ScriptClose := "</script>"

  /** Every style block replaced by `<style>` + css(body) + `</style>`; its attributes are dropped. */
  function RenderStyles(bs: Blocks, css: string -> string): (res: string)
  {
    match bs
    case Rest(t) => t
    case Block(t, _, i, _, r) => t + ("<style>" + css(i) + "</style>") + RenderStyles(r, css)
  }

  /**
   * A script block whose whole text holds `src=` (case-sensitive, in the tag
   * or the body) is kept; any other becomes `<script>` + js(body) + `</script>`.
   */
  function ScriptBlock(g: string, i: string, e: string, js: string -> string): (res: string)
  {
    if Contains(g + i + e, "src=") then g + i + e else "<script>" + js(i) + "</script>"
  }

  function RenderScripts(bs: Blocks, js: string -> string): (res: string)
  {
    match bs
    case Rest(t) => t
    case Block(t, g, i, e, r) => t + ScriptBlock(g, i, e, js) + RenderScripts(r, js)
  }

  function RewriteStyles(s: string, css: string -> string): (res: string)
  {
    RenderStyles(Scan(s, StyleOpen, StyleClose), css)
  }

  function RewriteScripts(s: string, js: string -> string): (res: string)
  {
    RenderScripts(Scan(s, ScriptOpen, ScriptClose), js)
  }

  /** The three options `macp_minify_html`, `macp_minify_css` and `macp_minify_js`; all default to off. */
  datatype Switches = Switches(html: bool, css: bool, js: bool)

  /**
   * `process_output`: HTML first, then styles, then scripts, each only when
   * its option is on. With every option off the page is returned as it is.
   */
  function ProcessOutput(h: string, w: Switches, o: Options, b: Base64, css: string -> string, js: string -> string): (r: string)
    ensures !w.html && !w.css && !w.js ==> r == h
  {
    var a := if w.html then Minify(h, o, b) else h;
    var c := if w.css then RewriteStyles(a, css) else a;
    if w.js then RewriteScripts(c, js) else c
  }

  // ----------------------------------------------------------------------
  // What the style and script stages do
  // ----------------------------------------------------------------------

  /** A page without a style match leaves the style stage unchanged. */
  lemma {:induction false} StylesUntouched(s: string, css: string -> string)
    requires NoMatch(s, StyleOpen, StyleClose)
    ensures RewriteStyles(s, css) == s
  {
    ScanRest(s, StyleOpen, StyleClose);
  }

  /**
   * The leftmost style match becomes `<style>` + css(body) + `</style>`; the
   * text before it is kept and the stage goes on after it.
   */
  lemma {:induction false} StyleRewritten(t: string, tag: string, inner: string, end: string, rest: string, css: string -> string)
    requires IsMatch(t, tag, inner, end, StyleOpen, StyleClose)
    ensures RewriteStyles(t + (tag + inner + end) + rest, css)
         == t + ("<style>" + css(inner) + "</style>") + RewriteStyles(rest, css)
  {
    MatchScan(t, tag, inner, end, rest, StyleOpen, StyleClose);
  }

  /** A page without a script match leaves the script stage unchanged. */
  lemma {:induction false} ScriptsUntouched(s: string, js: string -> string)
    requires NoMatch(s, ScriptOpen, ScriptClose)
    ensures RewriteScripts(s, js) == s
  {
    ScanRest(s, ScriptOpen, ScriptClose);
  }

  /** The leftmost script match is kept when it holds `src=`, and the stage goes on after it. */
  lemma {:induction false} ExternalScriptKept(t: string, tag: string, inner: string, end: string, rest: string, js: string -> string)
    requires IsMatch(t, tag, inner, end, ScriptOpen, ScriptClose)
    requires Contains(tag + inner + end, "src=")
    ensures RewriteScripts(t + (tag + inner + end) + rest, js) == t + (tag + inner + end) + RewriteScripts(rest, js)
  {
    MatchScan(t, tag, inner, end, rest, ScriptOpen, ScriptClose);
  }

  /** Otherwise it becomes `<script>` + js(body) + `</script>`. */
  lemma {:induction false} InlineScriptRewritten(t: string, tag: string, inner: string, end: string, rest: string, js: string -> string)
    requires IsMatch(t, tag, inner, end, ScriptOpen, ScriptClose)
    requires !Contains(tag + inner + end, "src=")
    ensures RewriteScripts(t + (tag + inner + end) + rest, js)
         == t + ("<script>" + js(inner) + "</script>") + RewriteScripts(rest, js)
  {
    MatchScan(t, tag, inner, end, rest, ScriptOpen, ScriptClose);
  }

  /** Every match holds `src=`. */
  predicate External(bs: Blocks)
  {
    match bs
    case Rest(_) => true
    case Block(_, g, i, e, r) => Contains(g + i + e, "src=") && External(r)
  }

  lemma {:induction false} RenderExternal(bs: Blocks, js: string -> string)
    requires External(bs)
    ensures RenderScripts(bs, js) == Whole(bs)
  {
    match bs
    case Rest(_) =>
    case Block(_, _, _, _, r) => RenderExternal(r, js);
  }

  /** A page whose scripts all load from `src=` comes through the script stage unchanged. */
  lemma {:induction false} ExternalScriptsKept(s: string, js: string -> string)
    requires External(Scan(s, ScriptOpen, ScriptClose))
    ensures RewriteScripts(s, js) == s
  {
    RenderExternal(Scan(s, ScriptOpen, ScriptClose), js);
  }

  /**
   * With the HTML minifier off, a page without style and script matches comes
   * through `process_output` unchanged, whatever the CSS and JS options.
   */
  lemma {:induction false} ProcessOutputNoBlocks(h: string, w: Switches, o: Options, b: Base64, css: string -> string, js: string -> string)
    requires !w.html
    requires NoMatch(h, StyleOpen, StyleClose) && NoMatch(h, ScriptOpen, ScriptClose)
    ensures ProcessOutput(h, w, o, b, css, js) == h
  {
    StylesUntouched(h, css);
    ScriptsUntouched(h, js);
  }

  /**
   * With the HTML minifier on, the style and script stages see the minified
   * page: `process_output` is the minifier followed by `process_output` with
   * the HTML option off.
   */
  lemma {:induction false} ProcessOutputMinifiesFirst(h: string, w: Switches, o: Options, b: Base64, css: string -> string, js: string -> string)
    requires w.html
    ensures ProcessOutput(h, w, o, b, css, js) == ProcessOutput(Minify(h, o, b), w.(html := false), o, b, css, js)
  {
  }

  /**
   * `process_output` as written: the HTML stage is `minify` as the source has
   * it, and the `null` it returns reaches the style and script stages, and
   * the caller, as the empty string.
   */
  function ProcessOutputAsWritten(h: string, w: Switches, o: Options, b: Base64, css: string -> string, js: string -> string): (r: string)
  {
    var a := if w.html then Coerce(MinifyAsWritten(h, o, b)) else h;
    var c := if w.css then RewriteStyles(a, css) else a;
    if w.js then RewriteScripts(c, js) else c
  }

  /** Neither stage finds anything in the empty page. */
  lemma {:induction false} RewritesOfNothing(css: string -> string, js: string -> string)
    ensures RewriteStyles("", css) == "" && RewriteScripts("", js) == ""
  {
    assert Find(Lower(""), StyleOpen).None?;
    assert Find(Lower(""), ScriptOpen).None?;
  }

  /**
   * As written, with the HTML minifier on and conditional comments preserved
   * (the minifier's only configuration), every page that is not empty comes
   * out of `process_output` as the empty string, whatever the CSS and JS
   * options.
   */
  lemma {:induction false} ProcessOutputAsWrittenBlanks(h: string, w: Switches, o: Options, b: Base64, css: string -> string, js: string -> string)
    requires w.html && !IsEmpty(h) && o.preserveConditionalComments
    ensures ProcessOutputAsWritten(h, w, o, b, css, js) == ""
  {
    AsWrittenBlanksPage(h, o, b);
    RewritesOfNothing(css, js);
  }

  /** With the HTML minifier off, or conditional comments not preserved, the source and the corrected model agree. */
  lemma {:induction false} ProcessOutputAsWrittenAgrees(h: string, w: Switches, o: Options, b: Base64, css: string -> string, js: string -> string)
    requires !w.html || !o.preserveConditionalComments
    ensures ProcessOutputAsWritten(h, w, o, b, css, js) == ProcessOutput(h, w, o, b, css, js)
  {
    if w.html {
      AsWrittenAgrees(h, o, b);
    }
  }
}
