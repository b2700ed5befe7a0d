# Full-page cache with a write-time minifier

This project models the core of a WordPress full-page cache plugin in Dafny and
proves properties of the model. The core has three parts:

- the page cache engine `MACP_HTML_Cache`. It decides which requests may be
  cached. It stamps a rendered page with a provenance comment, minifies it,
  writes it as `<key>.html` and `<key>.html.gz`, and clears cache files;
- the HTML minifier `MACP_Minify_HTML::minify`. It hides `<?php … ?>` blocks
  and conditional comments behind base64 placeholders. It then removes
  comments, whitespace and line breaks, and restores the hidden zones;
- the dispatcher `MACP_Minification::process_output`. It runs the HTML
  minifier, then rewrites inline `<style>` and `<script>` blocks through the
  CSS and JS minifiers.

Modules:

- `Text` holds the string primitives. `Find`/`FindFrom` model `strpos`, and
  `Lower` is ASCII case folding for the `/i` patterns.
- `Codec` holds the base64 pair as two functions and what the minifier relies
  on: the round trip and the output alphabet.
- `Zones` is a generic protect/restore layer. `Split` is the leftmost-shortest
  scanner for `open.*?close`. `Protect` and `Restore` are the two
  `preg_replace_callback` passes.
- `Stages` holds the comment, whitespace and line-break stages as explicit
  scanners.
- `MinifyHtml` is `minify` and its five option flags.
- `Minification` is `process_output` and the style/script block scanner.
- `HtmlCache` holds eligibility, the cache key and the provenance stamp. Its
  class `PageCache` has the cache directory as the field
  `files: map<string, string>`, and methods that update it in place.

PHP strings are `seq<char>` with one character per byte. Every regular
expression of the core is written out as a scanner.

## Model

| member | source | states |
|---|---|---|
| HtmlCache.PageCache.ShouldCachePage | includes/class-macp-html-cache.php:41-75 | the result is true exactly when the request is not admin, not logged in, not a search, not `POST`, not a preview, not a WooCommerce cart/checkout/account page while WooCommerce is loaded, and its URI contains none of the 14 excluded fragments (checked one by one in a loop) |
| HtmlCache.FragmentRefuses | includes/class-macp-html-cache.php:11-26 | a URI that contains any excluded fragment anywhere, even inside a longer word, is never cached |
| HtmlCache.OnlyPostRefused | includes/class-macp-html-cache.php:55-58 | of the request methods only `POST` is refused; any other verb leaves an eligible request eligible |
| HtmlCache.ShopNeedsWooCommerce | includes/class-macp-html-cache.php:60-63 | without `is_woocommerce` defined, the cart/checkout/account predicates do not affect eligibility |
| HtmlCache.QueryIgnored | includes/class-macp-html-cache.php:90-91 | appending a query string or a fragment to a URI does not change its cache key |
| HtmlCache.AbsolutePath | includes/class-macp-html-cache.php:128-129 | a permalink `scheme://authority/path` has the same URL path as the request URI `/path`, so it yields the same key |
| HtmlCache.RelativePath | includes/class-macp-html-cache.php:90 | a request URI that starts with `/` and has no query or fragment is its own URL path |
| HtmlCache.StampNeedsClose | includes/class-macp-html-cache.php:98 | a page without `</html>` in any letter case is left unchanged by the stamp |
| HtmlCache.StampBeforeClose | includes/class-macp-html-cache.php:98 | at the first case-insensitive `</html>`, the comment line `<!-- Cached by MACP on <now> -->` and a line feed are inserted right before the tag; the tag keeps its own case, and every later `</html>` is stamped the same way |
| HtmlCache.InsertFirst | includes/class-macp-html-cache.php:98 | the `preg_replace('/(pat)/i', c.'$1')` scanner: the text before the first match is kept, `c` goes before the match, the match is kept, and scanning resumes after it |
| HtmlCache.StampAsWrittenBeforeClose | includes/class-macp-html-cache.php:98 | as written, the comment line before `</html>` ends with a backslash and `n` rather than a line feed |
| HtmlCache.StampAsWrittenBackslash | includes/class-macp-html-cache.php:98 | as written, the stamped page has `\` then `n` where the corrected stamp has a line feed, so the two differ on every page that contains `</html>` |
| HtmlCache.ClosingTagFirst | includes/class-macp-html-cache.php:98 | `</html>` on its own is a first match of the closing-tag pattern, so the two stamp lemmas apply to any page that ends with it |
| HtmlCache.GateRedundant | includes/class-macp-html-cache.php:101-106 | the option gate in front of `process_output` changes nothing: the cached page is `process_output` applied to the stamped page |
| HtmlCache.ShortPageNotCached | includes/class-macp-html-cache.php:85-88 | a buffer under 255 bytes is returned unchanged and no file is written |
| HtmlCache.ServedIsStored | includes/class-macp-html-cache.php:84-120 | from 255 bytes on (255 itself included), a successful write stores in `<key>.html` exactly the page that is returned |
| HtmlCache.GzipFollowsPage | includes/class-macp-html-cache.php:109-117 | a new `<key>.html.gz` appears only when the page was at least 255 bytes, the raw write succeeded, gzip is on and the gzip write succeeded; it holds the compressed returned page |
| HtmlCache.GzipWritten | includes/class-macp-html-cache.php:109-117 | when the page is at least 255 bytes and the page write, the gzip option and the gzip write all succeed, `<key>.html.gz` holds the compressed returned page, whether or not an older one was there |
| HtmlCache.FailedWriteStoresNothing | includes/class-macp-html-cache.php:109-112 | a failed page write leaves the directory as it was: the gzip write is skipped too |
| HtmlCache.GzipSkippedKeepsOld | includes/class-macp-html-cache.php:114-117 | without the gzip write (gzip off or its write failed), an older `<key>.html.gz` survives with its old contents even when `<key>.html` is replaced |
| HtmlCache.AsWrittenCachesBlank | includes/class-macp-html-cache.php:84-120 | as written, with `macp_minify_html` on, every page of at least 255 bytes is returned as the empty string, `<key>.html` holds the empty string and `<key>.html.gz` the compressed empty string |
| HtmlCache.OtherFilesKept | includes/class-macp-html-cache.php:92-117 | caching a page changes no file other than its own `.html` and `.html.gz` |
| HtmlCache.PlainPageStoredAsIs | includes/class-macp-html-cache.php:98-119 | with every minifier off, a long page without `</html>` is returned unchanged and, after a successful page write, `<key>.html` holds it byte for byte |
| HtmlCache.PageCache.CacheOutput | includes/class-macp-html-cache.php:84-120 | the returned buffer and the new directory are those of the functions `Output` and `Stored`: short buffers pass through; otherwise stamp, optional `process_output`, raw write, then the gzip write only after a successful raw write |
| HtmlCache.ClearUndoesCache | includes/class-macp-html-cache.php:125-138 | clearing a page after caching it leaves the directory as clearing it before would, so both of its files are gone and nothing else is touched |
| HtmlCache.ClearAllUndoesCache | includes/class-macp-html-cache.php:139-147 | clearing everything after caching a page leaves the directory as clearing everything before would: both files match `*.{html,gz}` |
| HtmlCache.HtaccessSurvives | includes/class-macp-html-cache.php:122-148 | `.htaccess` survives every kind of clearing with its contents |
| HtmlCache.OtherPagesSurvive | includes/class-macp-html-cache.php:130-137 | clearing one page keeps every file of a page whose key has the same length and differs |
| HtmlCache.PageCache.ClearCache | includes/class-macp-html-cache.php:122-148 | after the unlink loop over the glob result, the directory holds exactly the files the glob does not match, with their contents unchanged |
| HtmlCache.EnsuredOnce | includes/class-macp-html-cache.php:31-39 | `.htaccess` is written with `deny from all` only when the directory exists and the file is absent; an existing one is never rewritten, and ensuring twice is ensuring once |
| HtmlCache.PageCache.EnsureCacheDirectory | includes/class-macp-html-cache.php:31-39 | the directory afterwards is `Ensured` of the directory before |
| HtmlCache.PageCache.constructor | includes/class-macp-html-cache.php:9-29 | the exclusion list is the 14 fragments in their order, and the directory has been ensured |
| MinifyHtml.Minify | includes/minify/class-macp-minify-html.php:23-24 | an empty page (`""` or `"0"`) is returned as it is |
| MinifyHtml.AsWrittenBlanksPage | includes/minify/class-macp-minify-html.php:27-33 | as written, the conditional-comment pattern does not compile, so every non-empty page comes out empty whenever conditional comments are preserved (the default) |
| MinifyHtml.AsWrittenAgrees | includes/minify/class-macp-minify-html.php:23-81 | with conditional comments not preserved, the as-written minifier and the corrected one agree |
| MinifyHtml.ZonesSurvive | includes/minify/class-macp-minify-html.php:27-78 | protect, text stages, restore: every zone of a layer comes back byte for byte, and each text between zones is compacted on its own |
| MinifyHtml.MinifyKeepsScript | includes/minify/class-macp-minify-html.php:35-41 | every `<?php … ?>` block (leftmost, shortest, across lines) comes through byte-identical while the text around it is compacted |
| MinifyHtml.MinifyKeepsConditionals | includes/minify/class-macp-minify-html.php:27-33 | with the intended pattern, every `<!--[if … <![endif]-->` comes through byte-identical |
| MinifyHtml.MinifyDefaults | includes/minify/class-macp-minify-html.php:14-20 | with the default options, a page without conditional comments keeps its script blocks and has its other text compacted |
| MinifyHtml.MinifyKeepsBoth | includes/minify/class-macp-minify-html.php:14-78 | with the default options, every conditional comment comes through byte for byte, and so does every `<?php … ?>` block in the text between them, when no script block runs into a conditional comment; the text around both is compacted |
| MinifyHtml.AroundRender | includes/minify/class-macp-minify-html.php:35-61 | the script layer and the text stages pass over conditional-comment placeholders: each text between them is handled on its own |
| MinifyHtml.AroundAcross | includes/minify/class-macp-minify-html.php:35-61 | after text whose every `<?php` closes inside it, a placeholder splits the script layer and the text stages in two |
| MinifyHtml.CompactGlue | includes/minify/class-macp-minify-html.php:43-61 | the text stages run over the script layer's pieces of `t` + placeholder + `R` as over those of `t`, the placeholder and those of `R` |
| MinifyHtml.CompactToken | includes/minify/class-macp-minify-html.php:43-61 | a placeholder alone passes every text stage unchanged |
| MinifyHtml.MinifyRoundTrip | includes/minify/class-macp-minify-html.php:63-78 | with every text stage off, minify returns the page: restoring undoes protecting |
| MinifyHtml.MinifyDecodesPageMarkers | includes/minify/class-macp-minify-html.php:72-78 | a `___PHP___…___PHP___` span that the page itself holds is decoded by the restore stage like a real placeholder |
| MinifyHtml.RestoreOrderLosesConditional | includes/minify/class-macp-minify-html.php:64-78 | with both layers preserved and any text stages, restoring conditional comments before script (as written) leaves a conditional comment inside a `<?php … ?>` block as a placeholder; the corrected order gives the page back |
| MinifyHtml.NestedSampleLost | includes/minify/class-macp-minify-html.php:14-20 | with the default options, a concrete page with a conditional comment inside a PHP string literal that the as-written order breaks |
| MinifyHtml.RestoreOrders | includes/minify/class-macp-minify-html.php:64-78 | when the conditional stage turns a page into one script match, whatever the text stages, the corrected order gives the page back and the as-written order the shielded page |
| MinifyHtml.NoZoneUntouched | includes/minify/class-macp-minify-html.php:28-40 | a page without a match is left unchanged by protect and by restore |
| Zones.SplitJoins | includes/minify/class-macp-minify-html.php:36-40 | the pieces the lazy scanner cuts join back to the page |
| Zones.SplitAcross | includes/minify/class-macp-minify-html.php:36-40 | on text whose every `open` closes inside it, then a placeholder, then more text, the lazy scanner cuts the text and the rest separately and joins the two texts around the placeholder |
| Zones.SplitShift | includes/minify/class-macp-minify-html.php:37 | a prefix in which no `open` starts only shifts the first cut text |
| Zones.SplitShaped | includes/minify/class-macp-minify-html.php:37 | each cut match runs from the leftmost `open` to the first `close` after it, so it is the leftmost-shortest match of `open.*?close` |
| Zones.ProtectRestore | includes/minify/class-macp-minify-html.php:35-41 | restoring a protected page gives it back |
| Zones.RestoreRender | includes/minify/class-macp-minify-html.php:72-78 | restoring a page rendered with placeholders puts every zone back byte for byte |
| Zones.RestoreDecodes | includes/minify/class-macp-minify-html.php:74 | the restore scan decodes a marker pair wherever it comes from, because the markers are fixed literals |
| Zones.SplitToken | includes/minify/class-macp-minify-html.php:66-74 | the restore scan takes a placeholder after safe text as its first match |
| Codec.TokenOfEncoding | includes/minify/class-macp-minify-html.php:30 | a placeholder is made of base64 characters and `_` only, so the later stages find nothing to change in it |
| Stages.StripRemovesComment | includes/minify/class-macp-minify-html.php:44-46 | a removable comment (not starting, after whitespace, with `[if …]`, `<!` or `>`) disappears up to its first `-->`, and nothing else changes |
| Stages.StripKeepsExempt | includes/minify/class-macp-minify-html.php:45 | a conditional comment or its closer keeps its opener |
| Stages.StripNoOpener | includes/minify/class-macp-minify-html.php:45 | a page without `<!--` is left as it is |
| Stages.StripShrinks | includes/minify/class-macp-minify-html.php:45 | comment removal never makes the page longer |
| Stages.StripAppend | includes/minify/class-macp-minify-html.php:45 | comment removal on a closed text does not depend on what follows it |
| Stages.TagGapClears | includes/minify/class-macp-minify-html.php:51 | after `/>\s+</` → `><` no `>`, whitespace, `<` remains |
| Stages.LeadStripClears | includes/minify/class-macp-minify-html.php:53 | after `/^\s+/` → `` the page does not start with whitespace |
| Stages.SpaceRunsClears | includes/minify/class-macp-minify-html.php:55 | after `/\s{2,}/` → ` ` no two whitespace characters are adjacent |
| Stages.WhitespaceClears | includes/minify/class-macp-minify-html.php:49-56 | after the three whitespace replacements there is no tag gap, no leading whitespace and no adjacent whitespace |
| Stages.LineBreaksClears | includes/minify/class-macp-minify-html.php:59-61 | after the line-break stage no `\n`, `\r` or `\t` remains |
| Stages.LineBreaksKeeps | includes/minify/class-macp-minify-html.php:49-61 | the line-break stage keeps everything the whitespace stage established |
| Stages.TidyClears | includes/minify/class-macp-minify-html.php:49-61 | after both stages, all four properties hold together |
| Stages.TidyIdempotent | includes/minify/class-macp-minify-html.php:49-61 | the whitespace and line-break stages together are idempotent |
| Stages.WhitespaceIdempotent | includes/minify/class-macp-minify-html.php:49-56 | the whitespace stage is idempotent |
| Stages.LineBreaksIdempotent | includes/minify/class-macp-minify-html.php:59-61 | the line-break stage is idempotent |
| Stages.TagGapAppend | includes/minify/class-macp-minify-html.php:51 | the tag-gap stage works separately on both sides of a boundary that cannot be inside a gap |
| Stages.SpaceRunsAppend | includes/minify/class-macp-minify-html.php:55 | the space-run stage works separately on both sides of a boundary that is not inside a run |
| Stages.LineBreaksAppend | includes/minify/class-macp-minify-html.php:60 | the line-break stage works piece by piece |
| Minification.ProcessOutput | includes/class-macp-minification.php:17-41 | with all three options off, the output is the input |
| Minification.ProcessOutputMinifiesFirst | includes/class-macp-minification.php:18-20 | with the HTML option on, `process_output` is the minifier followed by `process_output` with the HTML option off, whatever the CSS and JS options |
| Minification.ProcessOutputAsWrittenBlanks | includes/class-macp-minification.php:17-41 | as written, with the HTML option on, every non-empty page comes out as the empty string whatever the CSS and JS options |
| Minification.ProcessOutputAsWrittenAgrees | includes/class-macp-minification.php:17-41 | with the HTML option off, or conditional comments not preserved, `process_output` as written and the corrected one agree |
| Minification.ProcessOutputNoBlocks | includes/class-macp-minification.php:22-38 | with the HTML option off, a page without style and script matches is unchanged whatever the CSS and JS options |
| Minification.Scan | includes/class-macp-minification.php:24 | the block scanner's pieces join back to the page |
| Minification.MatchScan | includes/class-macp-minification.php:24 | a leftmost match of `<open[^>]*>(.*?)</close>` (case-insensitive, across lines) is exactly the first block the scanner cuts |
| Minification.ScanBlock | includes/class-macp-minification.php:24 | every block the scanner cuts is a leftmost match, and scanning resumes after it |
| Minification.ScanRest | includes/class-macp-minification.php:24-31 | the scanner finds no block exactly when the page has no match |
| Minification.StyleRewritten | includes/class-macp-minification.php:22-27 | each style match becomes `<style>` + css(inner) + `</style>` (its attributes dropped); the text before it is kept |
| Minification.StylesUntouched | includes/class-macp-minification.php:22-27 | a page without a style match passes the style stage unchanged |
| Minification.ExternalScriptKept | includes/class-macp-minification.php:33-35 | a script match containing `src=` anywhere in its text is kept as it is |
| Minification.InlineScriptRewritten | includes/class-macp-minification.php:36 | any other script match becomes `<script>` + js(inner) + `</script>` |
| Minification.ScriptsUntouched | includes/class-macp-minification.php:29-38 | a page without a script match passes the script stage unchanged |
| Minification.ExternalScriptsKept | includes/class-macp-minification.php:29-38 | a page whose scripts all contain `src=` passes the script stage unchanged |

## Left out

- WordPress and the server are inputs: `is_admin`, `is_user_logged_in`, `is_search`, `is_preview`, `function_exists('is_woocommerce')`, `is_cart`, `is_checkout`, `is_account_page`, `get_option`, `get_permalink`, `$_SERVER`.
- The foreign calls `md5`, `gzencode`, `base64_encode`/`base64_decode`, `current_time` and the CSS and JS minifiers are function parameters. The model requires of `md5` only 32 lowercase hex digits, and of base64 only the round trip and the alphabet.
- Each file write's success is a parameter (`rawOk`, `gzOk`, `htOk`). Directory creation is the parameter `dirOk`. A failed write changes nothing; partial writes are not modelled.
- The cache directory holds regular files only, named relative to the directory. `glob` is modelled as prefix and suffix matching, with `*` not matching a leading `.`. The unlink order does not matter.
- `MACP_Debug` logging, `ob_start` (`start_buffer`), the singleton `get_instance`, and concurrency between requests are not modelled.
- HtmlCache.UrlPath: models `parse_url` for a request URI and for an absolute URL with a scheme. Network-path references (`//host/path`), `host:port` forms and malformed URLs (where `parse_url` returns `false`) are not modelled.
- HtmlCache.SweepOf: a missing post id is modelled as `0`. PHP treats `null`, `0` and `"0"` alike there.
- `clear_page_cache`, which the admin screens call, is not defined in the cache class and is not part of this model.
- MinifyHtml.MinifyKeepsScript: one layer only (conditional comments not preserved), and only when the texts between zones cannot pair with a marker (`SafeTexts`) and comment removal is decided within each text (`ClosedTexts`). A page that forges a marker is the case `MinifyDecodesPageMarkers` describes. Both layers under the default options are `MinifyKeepsBoth`.
- MinifyHtml.MinifyKeepsConditionals: one layer only (server-side script not preserved), under the same two conditions. Both layers are `MinifyKeepsBoth`.
- MinifyHtml.MinifyKeepsBoth: holds when every `<?php` before a conditional comment closes before it, the texts between zones hold their comments whole, and the compacted texts cannot pair with a marker. A conditional comment inside a script block is the case `RestoreOrders` describes.
- HtmlCache.PageCache.CacheOutput: states the cache with the stamp's line feed and the corrected minifier. The code as written is `OutputAsWritten` and `StoredAsWritten`; `AsWrittenCachesBlank` states what it does with `macp_minify_html` on.
- Minification.ProcessOutput: states the corrected minifier. The code as written is `ProcessOutputAsWritten`; PHP's later calls read the minifier's `null` as the empty string, and `ProcessOutputAsWrittenBlanks` states the outcome.
- Behaviour of the code a reader may not expect, which the model follows:
  - there is one cache directory with no per-user scope, because logged-in visitors are never cached;
  - only `POST` is refused, not every method other than a safe read;
  - eligibility does not check that the cache directory is writable;
  - the comment is inserted before every `</html>`, not exactly once;
  - a failed raw write also skips the compressed one;
  - `clear_cache` reports nothing, and an empty permalink deletes nothing.

## Findings

| source | as written | input that shows it | evidently intended | confidence | as-written member | corrected member |
|---|---|---|---|---|---|---|
| includes/minify/class-macp-minify-html.php:29 | `/<!--[^]><!\[endif\]-->/s`: `[^]` opens a class whose first `]` is literal and which is never closed, so PCRE refuses the pattern and `preg_replace_callback` returns `null`; the later stages read it as `""` | any non-empty page other than `"0"`, with the default options | protect `<!--[if` … the first `<![endif]-->` | high (not executed) | MinifyHtml.AsWrittenBlanksPage | MinifyHtml.MinifyKeepsConditionals |
| includes/minify/class-macp-minify-html.php:64-78 | conditional comments are restored before server-side script, in the same order they were protected; latent while line 29 blanks every page, it shows once that pattern is fixed | `<?php '<!--[if IE]>x<![endif]-->' ?>` with the options hard-coded at lines 14-20 (all on) and line 29 fixed | restore in reverse protect order | high (not executed) | MinifyHtml.NestedSampleLost | MinifyHtml.RestoreOrders |
| includes/class-macp-html-cache.php:98 | the replacement `' -->\n$1'` is single-quoted, so `\n` stays a backslash and `n` | any page of at least 255 bytes that contains `</html>` | a line feed between the comment and `</html>` | high (not executed) | HtmlCache.StampAsWrittenBackslash | HtmlCache.StampBeforeClose |
