/**
 * The HTML minifier (includes/minify/class-macp-minify-html.php): protect
 * conditional comments and server-side script behind base64 placeholders, run
 * the comment, whitespace and line-break stages, then put the protected zones
 * back.
 */
module MinifyHtml {
  import opened Text
  import opened Codec
  import opened Zones
  import opened Stages

  /** The five switches of the minifier; all of them default to on. */
  datatype Options = Options(
    removeComments: bool,
    removeWhitespace: bool,
    removeLinebreaks: bool,
    preserveConditionalComments: bool,
    preserveServerScript: bool)

  const Defaults := Options(true, true, true, true, true)

  /** PHP's `empty()` on a string: the empty string and `"0"`. */
  predicate IsEmpty(h: string)
  {
    h == "" || h == "0"
  }

  /** The whitespace stage; only the start of the page can lose leading whitespace. */
  function WhitespaceAt(s: string, atStart: bool): (res: string)
  {
    if atStart then Whitespace(s) else SpaceRuns(TagGap(s))
  }

  /** The enabled text stages, in the minifier's order, on text that starts the page or not. */
  function Compact(s: string, o: Options, atStart: bool): (r: string)
  {
    var a := if o.removeComments then Strip(s) else s;
    var w := if o.removeWhitespace then WhitespaceAt(a, atStart) else a;
    if o.removeLinebreaks then LineBreaks(w) else w
  }

  /** The two protect stages, conditional comments first. */
  function Shield(h: string, o: Options, b: Base64): (r: string)
  {
    var c := if o.preserveConditionalComments then Protect(h, Conditional, b) else h;
    if o.preserveServerScript then Protect(c, Php, b) else c
  }

  /** The two restore stages, server-side script first: the reverse of the protect order. */
  function Unshield(m: string, o: Options, b: Base64): (r: string)
  {
    var p := if o.preserveServerScript then Restore(m, Php, b) else m;
    if o.preserveConditionalComments then Restore(p, Conditional, b) else p
  }

  /** The two restore stages in the order of the source: conditional comments first. */
  function UnshieldAsWritten(m: string, o: Options, b: Base64): (res: string)
  {
    var c := if o.preserveConditionalComments then Restore(m, Conditional, b) else m;
    if o.preserveServerScript then Restore(c, Php, b) else c
  }

  /**
   * `minify`, with the conditional-comment pattern as evidently intended and
   * the restore stages in reverse protect order. An empty page (`""` or `"0"`)
   * comes back as it is.
   */
  function Minify(h: string, o: Options, b: Base64): (r: string)
    ensures IsEmpty(h) ==> r == h
  {
    if IsEmpty(h) then h else Unshield(Compact(Shield(h, o, b), o, true), o, b)
  }

  /** `minify` with the intended protect pattern but the source's restore order. */
  function MinifyRestoreAsWritten(h: string, o: Options, b: Base64): (res: string)
  {
    if IsEmpty(h) then h else UnshieldAsWritten(Compact(Shield(h, o, b), o, true), o, b)
  }

  /** PHP's coercion of `null` to a string argument. */
  function Coerce(v: Option<string>): (res: string)
  {
    match v
    case Some(s) => s
    case None => ""
  }

  /**
   * `minify` as written. The pattern `/<!--[^]><!\[endif\]-->/s` does not
   * compile (in PCRE `[^]` opens a class whose first `]` is a literal, and no
   * `]` closes it), so `preg_replace_callback` returns `null`; every later
   * stage reads that `null` as the empty string. `None` is PHP's `null`.
   */
  function MinifyAsWritten(h: string, o: Options, b: Base64): (r: Option<string>)
  {
    if IsEmpty(h) then Some(h)
    else
      var c: Option<string> := if o.preserveConditionalComments then None else Some(h);
      var p := if o.preserveServerScript then Some(Protect(Coerce(c), Php, b)) else c;
      var a := if o.removeComments then Some(Strip(Coerce(p))) else p;
      var w := if o.removeWhitespace then Some(Whitespace(Coerce(a))) else a;
      var l := if o.removeLinebreaks then Some(LineBreaks(Coerce(w))) else w;
      var rc := if o.preserveConditionalComments then Some(Restore(Coerce(l), Conditional, b)) else l;
      if o.preserveServerScript then Some(Restore(Coerce(rc), Php, b)) else rc
  }

  // ----------------------------------------------------------------------
  // The pattern that does not compile
  // ----------------------------------------------------------------------

  lemma {:induction false} StagesOfNothing(L: Layer, b: Base64)
    requires WellFormed(L)
    ensures Protect("", L, b) == "" && Restore("", L, b) == ""
    ensures Strip("") == "" && Whitespace("") == "" && LineBreaks("") == ""
  {
  }

  /**
   * As written, with conditional comments preserved (the default), every page
   * that is not empty comes out as the empty string.
   */
  lemma {:induction false} AsWrittenBlanksPage(h: string, o: Options, b: Base64)
    requires !IsEmpty(h) && o.preserveConditionalComments
    ensures MinifyAsWritten(h, o, b) == Some("")
  {
    LayersWellFormed();
    StagesOfNothing(Php, b);
    StagesOfNothing(Conditional, b);
  }

  /** With conditional comments not preserved, the source and the corrected minifier agree. */
  lemma {:induction false} AsWrittenAgrees(h: string, o: Options, b: Base64)
    requires !o.preserveConditionalComments
    ensures MinifyAsWritten(h, o, b) == Some(Minify(h, o, b))
    ensures MinifyRestoreAsWritten(h, o, b) == Minify(h, o, b)
  {
  }

  // ----------------------------------------------------------------------
  // The text stages pass over placeholders
  // ----------------------------------------------------------------------

  /** A placeholder holds nothing any text stage looks for. */
  lemma {:induction false} TokenChars(T: string)
    requires IsToken(T)
    ensures T[0] == '_'
    ensures forall i :: 0 <= i < |T| ==> T[i] != '<' && T[i] != '>' && !IsSpace(T[i])
    ensures NoBreaks(T)
  {
  }

  lemma {:induction false} StripAcross(t: string, T: string, R: string)
    requires IsToken(T) && Closed(t)
    ensures Strip(t + T + R) == Strip(t) + T + Strip(R)
  {
    TokenChars(T);
    assert t + T + R == t + (T + R);
    StripAppend(t, T + R);
    StripInert(T, R);
    AppendAssoc(Strip(t), T, Strip(R));
  }

  lemma {:induction false} WhitespaceAcross(a: string, T: string, c: string, atStart: bool)
    requires IsToken(T)
    ensures WhitespaceAt(a + T + c, atStart) == WhitespaceAt(a, atStart) + T + WhitespaceAt(c, false)
  {
    TokenChars(T);
    assert a + T + c == a + (T + c);
    TagGapAppend(a, T + c);
    TagGapInert(T, c);
    var g := TagGap(a);
    var u := T + TagGap(c);
    if atStart {
      LeadStripAppend(g, u);
    }
    var x := if atStart then LeadStrip(g) else g;
    SpaceRunsAppend(x, u);
    SpaceRunsInert(T, TagGap(c));
    AppendAssoc(SpaceRuns(x), T, SpaceRuns(TagGap(c)));
  }

  lemma {:induction false} LineBreaksAcross(w: string, T: string, v: string)
    requires IsToken(T)
    ensures LineBreaks(w + T + v) == LineBreaks(w) + T + LineBreaks(v)
  {
    TokenChars(T);
    LineBreaksAppend(w + T, v);
    LineBreaksAppend(w, T);
    LineBreaksIdentity(T);
  }

  /**
   * The enabled stages treat text, placeholder, rest as three separate texts,
   * provided every comment that starts in the text also ends there.
   */
  lemma {:induction false} CompactAcross(t: string, T: string, R: string, o: Options, atStart: bool)
    requires IsToken(T)
    requires o.removeComments ==> Closed(t)
    ensures Compact(t + T + R, o, atStart) == Compact(t, o, atStart) + T + Compact(R, o, false)
  {
    var a := if o.removeComments then Strip(t) else t;
    var c := if o.removeComments then Strip(R) else R;
    if o.removeComments {
      StripAcross(t, T, R);
    }
    var w := if o.removeWhitespace then WhitespaceAt(a, atStart) else a;
    var v := if o.removeWhitespace then WhitespaceAt(c, false) else c;
    if o.removeWhitespace {
      WhitespaceAcross(a, T, c, atStart);
    }
    if o.removeLinebreaks {
      LineBreaksAcross(w, T, v);
    }
  }

  /** The stages applied to the text pieces, the zones left as they are. */
  function MapCompact(ps: Pieces, o: Options, atStart: bool): (res: Pieces)
  {
    match ps
    case Tail(t) => Tail(Compact(t, o, atStart))
    case Piece(t, z, r) => Piece(Compact(t, o, atStart), z, MapCompact(r, o, false))
  }

  /** The zones of a cut page, in order. */
  function ZoneList(ps: Pieces): (res: seq<string>)
  {
    match ps
    case Tail(_) => []
    case Piece(_, z, r) => [z] + ZoneList(r)
  }

  /** Every text piece that a zone follows holds its comments whole. */
  predicate ClosedTexts(ps: Pieces)
  {
    match ps
    case Tail(_) => true
    case Piece(t, _, r) => Closed(t) && ClosedTexts(r)
  }

  /** Compacting the texts keeps every zone, in order. */
  lemma {:induction false} MapCompactKeepsZones(ps: Pieces, o: Options, atStart: bool)
    ensures ZoneList(MapCompact(ps, o, atStart)) == ZoneList(ps)
    ensures ZonesNonEmpty(ps) ==> ZonesNonEmpty(MapCompact(ps, o, atStart))
  {
    match ps
    case Tail(_) =>
    case Piece(_, _, r) => MapCompactKeepsZones(r, o, false);
  }

  /** The stages run over a rendered page as over each text piece alone. */
  lemma {:induction false} CompactRender(ps: Pieces, L: Layer, b: Base64, o: Options, atStart: bool)
    requires WellFormed(L) && Valid(b)
    requires o.removeComments ==> ClosedTexts(ps)
    ensures Compact(Render(ps, L, b), o, atStart) == Render(MapCompact(ps, o, atStart), L, b)
  {
    match ps
    case Tail(_) =>
    case Piece(t, z, r) =>
      TokenOfEncoding(b, L.marker, z);
      CompactAcross(t, Token(L, b, z), Render(r, L, b), o, atStart);
      CompactRender(r, L, b, o, false);
  }

  /**
   * Protect, the text stages, restore: every zone of the layer comes back byte
   * for byte, and every text between zones is compacted on its own.
   */
  lemma {:induction false} ZonesSurvive(h: string, L: Layer, o: Options, b: Base64)
    requires WellFormed(L) && Valid(b)
    requires o.removeComments ==> ClosedTexts(Split(h, Zone(L)))
    requires SafeTexts(MapCompact(Split(h, Zone(L)), o, true), L.marker)
    ensures Restore(Compact(Protect(h, L, b), o, true), L, b) == Join(MapCompact(Split(h, Zone(L)), o, true))
  {
    var ps := Split(h, Zone(L));
    CompactRender(ps, L, b, o, true);
    SplitShaped(h, Zone(L));
    ShapedZonesNonEmpty(ps, Zone(L));
    MapCompactKeepsZones(ps, o, true);
    RestoreRender(MapCompact(ps, o, true), L, b);
  }

  // ----------------------------------------------------------------------
  // What minify promises
  // ----------------------------------------------------------------------

  /** A page without a match is one text piece: protect and restore leave it as it is. */
  lemma {:induction false} NoZoneUntouched(s: string, L: Layer, b: Base64)
    requires WellFormed(L)
    ensures NoZone(s, Zone(L)) ==> Protect(s, L, b) == s
    ensures NoZone(s, Placeholder(L)) ==> Restore(s, L, b) == s
  {
  }

  /** Server-side script preserved, every other stage off. */
  const ScriptOnly := Options(false, false, false, false, true)

  /**
   * A page without server-side script that holds `___PHP___` + e +
   * `___PHP___` of its own has that span decoded by the restore stage.
   */
  lemma {:induction false} MinifyDecodesPageMarkers(t: string, e: string, R: string, b: Base64)
    requires NoZone(t + Php.marker + e + Php.marker + R, Zone(Php))
    requires Safe(t, Php.marker)
    requires |e| > 0 && forall i :: 0 <= i < |e| ==> e[i] != '_'
    ensures Minify(t + Php.marker + e + Php.marker + R, ScriptOnly, b) == t + b.decode(e) + Restore(R, Php, b)
  {
    var h := t + Php.marker + e + Php.marker + R;
    LayersWellFormed();
    assert |h| > 1;
    NoZoneUntouched(h, Php, b);
    RestoreDecodes(t, e, R, Php, b);
  }

  /** With only server-side script preserved, every `<?php ... ?>` block comes through unchanged. */
  lemma {:induction false} MinifyKeepsScript(h: string, o: Options, b: Base64)
    requires Valid(b) && !IsEmpty(h)
    requires o.preserveServerScript && !o.preserveConditionalComments
    requires o.removeComments ==> ClosedTexts(Split(h, Zone(Php)))
    requires SafeTexts(MapCompact(Split(h, Zone(Php)), o, true), Php.marker)
    ensures Minify(h, o, b) == Join(MapCompact(Split(h, Zone(Php)), o, true))
  {
    LayersWellFormed();
    ZonesSurvive(h, Php, o, b);
  }

  /** With only conditional comments preserved, every `<!--[if ...<![endif]-->` comes through unchanged. */
  lemma {:induction false} MinifyKeepsConditionals(h: string, o: Options, b: Base64)
    requires Valid(b) && !IsEmpty(h)
    requires o.preserveConditionalComments && !o.preserveServerScript
    requires o.removeComments ==> ClosedTexts(Split(h, Zone(Conditional)))
    requires SafeTexts(MapCompact(Split(h, Zone(Conditional)), o, true), Conditional.marker)
    ensures Minify(h, o, b) == Join(MapCompact(Split(h, Zone(Conditional)), o, true))
  {
    LayersWellFormed();
    ZonesSurvive(h, Conditional, o, b);
  }

  /**
   * With the default options, a page without conditional comments keeps every
   * server-side script block and has its other text compacted, provided the
   * result holds no conditional-comment placeholder pair for the last restore
   * stage to decode.
   */
  lemma {:induction false} MinifyDefaults(h: string, b: Base64)
    requires Valid(b) && !IsEmpty(h)
    requires NoZone(h, Zone(Conditional))
    requires ClosedTexts(Split(h, Zone(Php)))
    requires SafeTexts(MapCompact(Split(h, Zone(Php)), Defaults, true), Php.marker)
    requires NoZone(Join(MapCompact(Split(h, Zone(Php)), Defaults, true)), Placeholder(Conditional))
    ensures Minify(h, Defaults, b) == Join(MapCompact(Split(h, Zone(Php)), Defaults, true))
  {
    LayersWellFormed();
    NoZoneUntouched(h, Conditional, b);
    ZonesSurvive(h, Php, Defaults, b);
    NoZoneUntouched(Join(MapCompact(Split(h, Zone(Php)), Defaults, true)), Conditional, b);
  }

  /** Every text piece holds its comments whole, the last one included. */
  predicate AllClosed(ps: Pieces)
  {
    match ps
    case Tail(t) => Closed(t)
    case Piece(t, _, r) => Closed(t) && AllClosed(r)
  }

  /** The stages run over glued pieces as over the two runs of pieces and the placeholder between them. */
  lemma {:induction false} CompactGlue(ps: Pieces, T: string, qs: Pieces, o: Options, atStart: bool)
    requires IsToken(T)
    requires o.removeComments ==> AllClosed(ps)
    ensures Join(MapCompact(Glue(ps, T, qs), o, atStart))
         == Join(MapCompact(ps, o, atStart)) + T + Join(MapCompact(qs, o, false))
  {
    match ps
    case Tail(t) =>
      CompactAcross(t, T, qs.text, o, atStart);
      if qs.Piece? {
        var a, c, d := Compact(t, o, atStart), Compact(qs.text, o, false), Join(MapCompact(qs.rest, o, false));
        assert (a + T + c) + qs.zone + d == a + T + (c + qs.zone + d);
      }
    case Piece(x, z, r) =>
      CompactGlue(r, T, qs, o, false);
      var a, c, d := Compact(x, o, atStart), Join(MapCompact(r, o, false)), Join(MapCompact(qs, o, false));
      assert a + z + (c + T + d) == (a + z + c) + T + d;
  }

  /**
   * Text minified with the default options around its server-side script
   * blocks: the blocks kept, the text between them compacted.
   */
  function Around(t: string, atStart: bool): (r: string)
  {
    Join(MapCompact(Split(t, Zone(Php)), Defaults, atStart))
  }

  /**
   * Every `<?php` of `t` is closed by a `?>` inside `t`, and every text
   * between its script blocks holds its comments whole: nothing after `t`
   * changes how `t` is cut or compacted.
   */
  predicate Settled(t: string)
  {
    Find(LastText(Split(t, Zone(Php))), Php.open).None? && AllClosed(Split(t, Zone(Php)))
  }

  /** A placeholder after settled text keeps the text on either side of it apart. */
  lemma {:induction false} AroundAcross(t: string, T: string, R: string, atStart: bool)
    requires IsToken(T) && Settled(t)
    ensures Around(t + T + R, atStart) == Around(t, atStart) + T + Around(R, false)
  {
    AppendAssoc(t, T, R);
    TokenChars(T);
    LayersWellFormed();
    assert Php.open[1] == '?' && Php.open[2] == 'p' && Php.open[3] == 'h' && Php.open[4] == 'p';
    SplitAcross(t, T, R, Zone(Php));
    CompactGlue(Split(t, Zone(Php)), T, Split(R, Zone(Php)), Defaults, atStart);
  }

  /** Each text piece minified around its server-side script blocks. */
  function MapAround(ps: Pieces, atStart: bool): (res: Pieces)
  {
    match ps
    case Tail(t) => Tail(Around(t, atStart))
    case Piece(t, z, r) => Piece(Around(t, atStart), z, MapAround(r, false))
  }

  /** Every text piece that a zone follows is settled. */
  predicate SettledTexts(ps: Pieces)
  {
    match ps
    case Tail(_) => true
    case Piece(t, _, r) => Settled(t) && SettledTexts(r)
  }

  /** Minifying around script blocks passes over conditional-comment placeholders. */
  lemma {:induction false} AroundRender(ps: Pieces, b: Base64, atStart: bool)
    requires Valid(b) && SettledTexts(ps)
    ensures Around(Render(ps, Conditional, b), atStart) == Render(MapAround(ps, atStart), Conditional, b)
  {
    match ps
    case Tail(_) =>
    case Piece(t, z, r) =>
      LayersWellFormed();
      TokenOfEncoding(b, Conditional.marker, z);
      AroundAcross(t, Token(Conditional, b, z), Render(r, Conditional, b), atStart);
      AroundRender(r, b, false);
  }

  /** Minifying the texts keeps every zone, in order. */
  lemma {:induction false} MapAroundKeepsZones(ps: Pieces, atStart: bool)
    ensures ZoneList(MapAround(ps, atStart)) == ZoneList(ps)
    ensures ZonesNonEmpty(ps) ==> ZonesNonEmpty(MapAround(ps, atStart))
  {
    match ps
    case Tail(_) =>
    case Piece(_, _, r) => MapAroundKeepsZones(r, false);
  }

  /**
   * With the default options, both layers: every conditional comment comes
   * through byte for byte, and so does every server-side script block in the
   * text between them, when no script block runs into a conditional comment.
   * The text around both is compacted.
   */
  lemma {:induction false} MinifyKeepsBoth(h: string, b: Base64)
    requires Valid(b) && !IsEmpty(h)
    requires SettledTexts(Split(h, Zone(Conditional)))
    requires ClosedTexts(Split(Protect(h, Conditional, b), Zone(Php)))
    requires SafeTexts(MapCompact(Split(Protect(h, Conditional, b), Zone(Php)), Defaults, true), Php.marker)
    requires SafeTexts(MapAround(Split(h, Zone(Conditional)), true), Conditional.marker)
    ensures Minify(h, Defaults, b) == Join(MapAround(Split(h, Zone(Conditional)), true))
  {
    LayersWellFormed();
    var ps := Split(h, Zone(Conditional));
    ZonesSurvive(Protect(h, Conditional, b), Php, Defaults, b);
    AroundRender(ps, b, true);
    SplitShaped(h, Zone(Conditional));
    ShapedZonesNonEmpty(ps, Zone(Conditional));
    MapAroundKeepsZones(ps, true);
    RestoreRender(MapAround(ps, true), Conditional, b);
  }

  /** With every text stage off, minify gives the page back: restoring undoes protecting. */
  lemma {:induction false} MinifyRoundTrip(h: string, o: Options, b: Base64)
    requires Valid(b)
    requires !o.removeComments && !o.removeWhitespace && !o.removeLinebreaks
    requires o.preserveConditionalComments ==> SafeTexts(Split(h, Zone(Conditional)), Conditional.marker)
    requires o.preserveServerScript ==>
      SafeTexts(Split(if o.preserveConditionalComments then Protect(h, Conditional, b) else h, Zone(Php)), Php.marker)
    ensures Minify(h, o, b) == h
  {
    LayersWellFormed();
    if !IsEmpty(h) {
      var c := if o.preserveConditionalComments then Protect(h, Conditional, b) else h;
      if o.preserveServerScript {
        ProtectRestore(c, Php, b);
      }
      if o.preserveConditionalComments {
        ProtectRestore(h, Conditional, b);
      }
    }
  }

  // ----------------------------------------------------------------------
  // The restore order
  // ----------------------------------------------------------------------

  /** No occurrence of `pat` starts where `s` holds something other than its first character. */
  lemma {:induction false} NotAtRange(s: string, pat: string, i: nat, j: nat)
    requires |pat| > 0 && i <= j <= |s|
    requires forall k :: i <= k < j ==> s[k] != pat[0]
    ensures forall k: nat :: i <= k < j ==> !At(s, pat, k)
  {
    forall k: nat | i <= k < j
      ensures !At(s, pat, k)
    {
      NoStartAt(s, pat, k);
    }
  }

  /** A pattern that cannot start anywhere in `s` is not found. */
  lemma {:induction false} FindAbsent(s: string, pat: string)
    requires |pat| > 0
    requires forall k :: 0 <= k < |s| ==> s[k] != pat[0]
    ensures Find(s, pat).None?
  {
    NotAtRange(s, pat, 0, |s|);
  }

  /** The first `open` of `x + o + mid + c + y` is the one after `x`, when `x` cannot hold one. */
  lemma {:induction false} CutOpen(x: string, o: string, rest: string)
    requires |o| >= 2 && |x| >= 2 && x[1] != o[1]
    requires forall k :: 1 <= k < |x| ==> x[k] != o[0]
    ensures Find(x + (o + rest), o) == Some(|x|)
  {
    var s := x + (o + rest);
    assert s == x + o + rest;
    AtPlaced(x, o, rest);
    AtChars(s, o, 0);
    assert s[1] == x[1];
    NotAtRange(s, o, 1, |x|);
    FindIsFirst(s, o, |x|);
  }

  /** The first `c` after `pre` in `pre + mid + c + y` ends `mid`, when `mid` cannot hold one. */
  lemma {:induction false} CutClose(pre: string, mid: string, c: string, y: string)
    requires |c| > 0
    requires forall k :: 0 <= k < |mid| ==> mid[k] != c[0]
    ensures FindFrom(pre + mid + c + y, c, |pre|) == Some(|pre| + |mid|)
  {
    var s := pre + mid + c + y;
    AtPlaced(pre + mid, c, y);
    forall k: nat | |pre| <= k < |pre| + |mid|
      ensures !At(s, c, k)
    {
      assert s[k] == mid[k - |pre|];
      NoStartAt(s, c, k);
    }
    FindFromIsFirst(s, c, |pre|, |pre| + |mid|);
  }

  /** Protecting `x + (o + mid + c) + y` cuts out exactly the one zone. */
  lemma {:induction false} CutOne(x: string, o: string, mid: string, c: string, y: string)
    requires |o| >= 2 && |c| > 0 && |x| >= 2 && x[1] != o[1]
    requires forall k :: 1 <= k < |x| ==> x[k] != o[0]
    requires forall k :: 0 <= k < |mid| ==> mid[k] != c[0]
    requires forall k :: 0 <= k < |y| ==> y[k] != o[0]
    ensures Split(x + (o + mid + c) + y, Span(o, c, 0)) == Piece(x, o + mid + c, Tail(y))
  {
    var z := o + mid + c;
    assert x + z + y == x + (z + y);
    assert z + y == o + (mid + c + y);
    CutOpen(x, o, mid + c + y);
    assert x + z + y == (x + o) + mid + c + y;
    CutClose(x + o, mid, c, y);
    SplitPieces(x, z, y, Span(o, c, 0));
    FindAbsent(y, o);
  }

  /** A page that is one whole match `o + mid + c` splits into that match alone. */
  lemma {:induction false} CutWhole(o: string, mid: string, c: string)
    requires |o| > 0 && |c| > 0
    requires forall k :: 0 <= k < |mid| ==> mid[k] != c[0]
    ensures Split(o + mid + c, Span(o, c, 0)) == Piece([], o + mid + c, Tail([]))
  {
    var z := o + mid + c;
    AtChars(o, o, 0);
    assert z == o + (mid + c);
    AtLeft(o, mid + c, o, 0);
    FindIsFirst(z, o, 0);
    CutClose(o, mid, c, []);
    assert o + mid + c + [] == z;
    SplitAt(z, Span(o, c, 0), 0, |o| + |mid|);
    assert z[..0] == [] && z[0..|z|] == z && z[|z|..] == [];
    FindAbsent([], o);
  }

  /** Protecting a page with exactly one match puts one placeholder in its place. */
  lemma {:induction false} ProtectOne(x: string, z: string, y: string, L: Layer, b: Base64)
    requires |L.open| > 0
    requires Split(x + z + y, Zone(L)) == Piece(x, z, Tail(y))
    ensures Protect(x + z + y, L, b) == x + Token(L, b, z) + y
  {
    assert Render(Tail(y), L, b) == y;
  }

  /** Protecting a page that is one whole match gives its placeholder. */
  lemma {:induction false} ProtectWhole(h: string, L: Layer, b: Base64)
    requires |L.open| > 0
    requires Split(h, Zone(L)) == Piece([], h, Tail([]))
    ensures Protect(h, L, b) == Token(L, b, h)
  {
    var T := Token(L, b, h);
    assert Render(Tail([]), L, b) == [];
    assert [] + T + [] == T;
  }

  /** The character at `j` has a `_` right before or right after it. */
  predicate Beside(t: string, j: nat)
    requires j < |t|
  {
    (0 < j && t[j - 1] == '_') || (j + 1 < |t| && t[j + 1] == '_')
  }

  /** Every `_` of `t` has a `_` beside it. */
  predicate Paired(t: string)
  {
    forall j: nat :: j < |t| && t[j] == '_' ==> Beside(t, j)
  }

  lemma PairedAt(m: string, i: nat)
    requires Paired(m) && i < |m| && m[i] == '_'
    ensures Beside(m, i)
  {
  }

  /** A placeholder whose marker has no lone `_` has none either: the encoding holds no `_`. */
  lemma {:induction false} PairedToken(m: string, e: string)
    requires Paired(m)
    requires forall i :: 0 <= i < |e| ==> e[i] != '_'
    ensures Paired(m + e + m)
  {
    var t := m + e + m;
    forall j: nat | j < |t| && t[j] == '_'
      ensures Beside(t, j)
    {
      if j < |m| {
        assert t[j] == m[j];
        PairedAt(m, j);
        if 0 < j && m[j - 1] == '_' {
          assert t[j - 1] == m[j - 1];
        } else {
          assert t[j + 1] == m[j + 1];
        }
      } else if j < |m| + |e| {
        assert false;
      } else {
        var i := j - |m| - |e|;
        assert i < |m| && t[j] == m[i] == '_';
        PairedAt(m, i);
        if 0 < i && m[i - 1] == '_' {
          assert t[j - 1] == m[i - 1];
        } else {
          assert t[j + 1] == m[i + 1];
        }
      }
    }
  }

  /** A text without a lone `_` holds no pattern that has one at index 14. */
  lemma {:induction false} PairedLacks(t: string, pat: string)
    requires Paired(t)
    requires |pat| >= 16 && pat[13] != '_' && pat[14] == '_' && pat[15] != '_'
    ensures Find(t, pat).None?
  {
    forall k: nat
      ensures !At(t, pat, k)
    {
      AtChars(t, pat, k);
      if k + |pat| <= |t| {
        var j := k + 14;
        assert t[j] == '_' ==> Beside(t, j);
      }
    }
  }

  /** The conditional-comment restore stage finds nothing inside a server-side script placeholder. */
  lemma {:induction false} ConditionalRestoreBlind(z: string, b: Base64)
    requires Valid(b)
    ensures Restore(Token(Php, b, z), Conditional, b) == Token(Php, b, z)
  {
    EncodingHasNoUnderscore(b, z);
    PairedToken(Php.marker, b.encode(z));
    PairedLacks(Token(Php, b, z), Conditional.marker);
  }

  /**
   * A server-side script block `<?php pre<!--[if mid<![endif]-->post?>` that
   * holds a conditional comment.
   */
  function Nested(pre: string, mid: string, post: string): (r: string)
  {
    (Php.open + pre) + (Conditional.open + mid + Conditional.close) + (post + Php.close)
  }

  /** The same block after the conditional-comment protect stage. */
  function NestedShielded(pre: string, mid: string, post: string, b: Base64): (r: string)
  {
    (Php.open + pre) + Token(Conditional, b, Conditional.open + mid + Conditional.close) + (post + Php.close)
  }

  /** What the block's free text must avoid for the two protect patterns to match as intended. */
  predicate Plain(pre: string, mid: string, post: string)
  {
    && Lacks(pre, '<') && Lacks(pre, '?') && Lacks(pre, '_')
    && Lacks(mid, '<') && Lacks(mid, '?')
    && Lacks(post, '<') && Lacks(post, '?') && Lacks(post, '_')
  }

  /** A character that none of three texts holds is not in their concatenation. */
  lemma {:induction false} LacksAround(a: string, m: string, d: string, ch: char)
    requires Lacks(a, ch) && Lacks(m, ch) && Lacks(d, ch)
    ensures Lacks(a + m + d, ch)
  {
    var t := a + m + d;
    forall k | 0 <= k < |t|
      ensures t[k] != ch
    {
      if k < |a| {
        assert t[k] == a[k];
      } else if k < |a| + |m| {
        assert t[k] == m[k - |a|];
      } else {
        assert t[k] == d[k - |a| - |m|];
      }
    }
  }

  lemma {:induction false} Regroup(a: string, p: string, t: string, q: string, c: string)
    ensures (a + p) + t + (q + c) == a + (p + t + q) + c
  {
    AppendAssoc(a, p, t);
    AppendAssoc(a, p + t, q);
    AppendAssoc(a + p + t, q, c);
  }

  /** The conditional-comment protect stage cuts the block at its conditional comment. */
  lemma {:induction false} NestedConditionalSplit(pre: string, mid: string, post: string)
    requires Plain(pre, mid, post)
    ensures Split(Nested(pre, mid, post), Zone(Conditional))
         == Piece(Php.open + pre, Conditional.open + mid + Conditional.close, Tail(post + Php.close))
  {
    var x, y := Php.open + pre, post + Php.close;
    forall k | 1 <= k < |x|
      ensures x[k] != '<'
    {
      if k >= |Php.open| {
        assert x[k] == pre[k - |Php.open|];
      }
    }
    forall k | 0 <= k < |y|
      ensures y[k] != '<'
    {
      if k < |post| {
        assert y[k] == post[k];
      }
    }
    CutOne(x, Conditional.open, mid, Conditional.close, y);
  }

  lemma {:induction false} NestedConditionalProtected(pre: string, mid: string, post: string, b: Base64)
    requires Plain(pre, mid, post)
    ensures Protect(Nested(pre, mid, post), Conditional, b) == NestedShielded(pre, mid, post, b)
  {
    var x, z, y := Php.open + pre, Conditional.open + mid + Conditional.close, post + Php.close;
    NestedConditionalSplit(pre, mid, post);
    ProtectOne(x, z, y, Conditional, b);
  }

  /** After the conditional comment is shielded, the whole block is one server-side script match. */
  lemma {:induction false} NestedPhpWhole(pre: string, mid: string, post: string, b: Base64)
    requires Valid(b) && Plain(pre, mid, post)
    ensures var h := NestedShielded(pre, mid, post, b); Split(h, Zone(Php)) == Piece([], h, Tail([]))
  {
    var T := Token(Conditional, b, Conditional.open + mid + Conditional.close);
    TokenOfEncoding(b, Conditional.marker, Conditional.open + mid + Conditional.close);
    var inner := pre + T + post;
    forall k | 0 <= k < |T|
      ensures T[k] != '?'
    {
      assert IsInert(T[k]);
    }
    LacksAround(pre, T, post, '?');
    Regroup(Php.open, pre, T, post, Php.close);
    CutWhole(Php.open, inner, Php.close);
  }

  /** The block's texts are safe for both restore stages. */
  lemma {:induction false} NestedSafe(pre: string, mid: string, post: string, b: Base64)
    requires Valid(b) && Plain(pre, mid, post)
    ensures SafeTexts(Split(Nested(pre, mid, post), Zone(Conditional)), Conditional.marker)
    ensures SafeTexts(Split(NestedShielded(pre, mid, post, b), Zone(Php)), Php.marker)
  {
    LayersWellFormed();
    var x, y := Php.open + pre, post + Php.close;
    forall k | 0 <= k < |x|
      ensures x[k] != '_'
    {
      if k >= |Php.open| {
        assert x[k] == pre[k - |Php.open|];
      }
    }
    forall k | 0 <= k < |y|
      ensures y[k] != '_'
    {
      if k < |post| {
        assert y[k] == post[k];
      }
    }
    NestedConditionalSplit(pre, mid, post);
    NoUnderscoreSafe(x, Conditional.marker);
    NoUnderscoreSafe(y, Conditional.marker);
    NestedPhpWhole(pre, mid, post, b);
    NoUnderscoreSafe([], Php.marker);
  }

  /** A placeholder alone passes every text stage unchanged. */
  lemma {:induction false} CompactToken(T: string, o: Options, atStart: bool)
    requires IsToken(T)
    ensures Compact(T, o, atStart) == T
  {
    CompactAcross([], T, [], o, atStart);
    assert [] + T + [] == T;
    assert Compact([], o, atStart) == [] && Compact([], o, false) == [];
  }

  /**
   * Both layers preserved, a page `h` whose conditional-comment stage yields
   * `h1`, and `h1` is one server-side script match: whatever the text stages,
   * the corrected order gives `h` back, the source's order gives `h1`.
   */
  lemma {:induction false} RestoreOrders(h: string, h1: string, o: Options, b: Base64)
    requires Valid(b) && !IsEmpty(h)
    requires o.preserveConditionalComments && o.preserveServerScript
    requires SafeTexts(Split(h, Zone(Conditional)), Conditional.marker)
    requires Protect(h, Conditional, b) == h1
    requires Split(h1, Zone(Php)) == Piece([], h1, Tail([]))
    ensures Minify(h, o, b) == h
    ensures MinifyRestoreAsWritten(h, o, b) == h1
  {
    LayersWellFormed();
    NoUnderscoreSafe([], Php.marker);
    ProtectWhole(h1, Php, b);
    assert Shield(h, o, b) == Token(Php, b, h1);
    TokenOfEncoding(b, Php.marker, h1);
    CompactToken(Token(Php, b, h1), o, true);
    ConditionalRestoreBlind(h1, b);
    ProtectRestore(h1, Php, b);
    ProtectRestore(h, Conditional, b);
  }

  lemma {:induction false} NestedNotEmpty(pre: string, mid: string, post: string)
    ensures !IsEmpty(Nested(pre, mid, post))
  {
    assert |Nested(pre, mid, post)| > 2;
  }

  /** The shielded block differs from the block where the conditional comment starts. */
  lemma {:induction false} NestedShieldedDiffers(pre: string, mid: string, post: string, b: Base64)
    ensures NestedShielded(pre, mid, post, b) != Nested(pre, mid, post)
  {
    var n := |Php.open + pre|;
    var T := Token(Conditional, b, Conditional.open + mid + Conditional.close);
    var z := Conditional.open + mid + Conditional.close;
    assert NestedShielded(pre, mid, post, b) == (Php.open + pre) + T + (post + Php.close);
    assert Nested(pre, mid, post) == (Php.open + pre) + z + (post + Php.close);
    assert NestedShielded(pre, mid, post, b)[n] == T[0] == '_';
    assert Nested(pre, mid, post)[n] == z[0] == '<';
  }

  /**
   * Restoring conditional comments before server-side script loses every
   * conditional comment that sits inside a script block: its placeholder is
   * still wrapped in the script placeholder when the conditional-comment
   * stage runs, and is only uncovered afterwards. Restoring in reverse
   * protect order gives the block back.
   */
  lemma {:induction false} RestoreOrderLosesConditional(pre: string, mid: string, post: string, o: Options, b: Base64)
    requires Valid(b) && Plain(pre, mid, post)
    requires o.preserveConditionalComments && o.preserveServerScript
    ensures Minify(Nested(pre, mid, post), o, b) == Nested(pre, mid, post)
    ensures MinifyRestoreAsWritten(Nested(pre, mid, post), o, b) == NestedShielded(pre, mid, post, b)
    ensures MinifyRestoreAsWritten(Nested(pre, mid, post), o, b) != Nested(pre, mid, post)
  {
    NestedSafe(pre, mid, post, b);
    NestedConditionalProtected(pre, mid, post, b);
    NestedPhpWhole(pre, mid, post, b);
    NestedShieldedDiffers(pre, mid, post, b);
    NestedNotEmpty(pre, mid, post);
    RestoreOrders(Nested(pre, mid, post), NestedShielded(pre, mid, post, b), o, b);
  }

  /** A conditional comment inside a string literal of a server-side script block, with the default options. */
  lemma {:induction false} NestedSampleLost(b: Base64)
    requires Valid(b)
    ensures MinifyRestoreAsWritten(Nested(" '", " IE]>x", "' "), Defaults, b) != Nested(" '", " IE]>x", "' ")
    ensures Minify(Nested(" '", " IE]>x", "' "), Defaults, b) == Nested(" '", " IE]>x", "' ")
  {
    RestoreOrderLosesConditional(" '", " IE]>x", "' ", Defaults, b);
  }
}
