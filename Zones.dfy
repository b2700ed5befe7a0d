/**
 * Protected zones of the HTML minifier (includes/minify/class-macp-minify-html.php).
 * Both regular expressions of a protect/restore pair have the shape
 * `open.{least,}?close` with the `s` flag: the protect stage matches
 * `open.*?close` and replaces each match by `marker + base64(match) + marker`;
 * the restore stage matches `marker(.+?)marker` and replaces each match by the
 * decoding of its inner text.
 */
module Zones {
  import opened Text
  import opened Codec

  /** The non-greedy pattern `open.{least,}?close`, dot matching newlines. */
  datatype Span = Span(open: string, close: string, least: nat)

  /** A page cut at the matches of a pattern: text, match, text, match, ..., text. */
  datatype Pieces = Tail(text: string) | Piece(text: string, zone: string, rest: Pieces)

  /** The page the pieces were cut from. */
  function Join(ps: Pieces): (r: string)
  {
    match ps
    case Tail(t) => t
    case Piece(t, z, r) => t + z + Join(r)
  }

  /** `z` is one match: it starts with `open` and ends at the first `close` at least `least` characters later. */
  predicate ZoneShaped(z: string, P: Span)
  {
    && HasPrefix(z, P.open)
    && |z| >= |P.open| + P.least + |P.close|
    && FindFrom(z, P.close, |P.open| + P.least) == Some(|z| - |P.close|)
  }

  /** Text holds no match: no `open`, or no `close` far enough after the first one. */
  predicate NoZone(t: string, P: Span)
  {
    match Find(t, P.open)
    case None => true
    case Some(i) => FindFrom(t, P.close, i + |P.open| + P.least).None?
  }

  /** The leftmost, shortest matches that `preg_replace_callback` walks, in order. */
  predicate Shaped(ps: Pieces, P: Span)
  {
    match ps
    case Tail(t) => NoZone(t, P)
    case Piece(t, z, r) => Find(t + z, P.open) == Some(|t|) && ZoneShaped(z, P) && Shaped(r, P)
  }

  /**
   * Cut `s` at the matches of `P`, leftmost first. When the first `open` has
   * no `close` after it, no later `open` has one either, so there is no match.
   */
  function Split(s: string, P: Span): (r: Pieces)
    requires |P.open| > 0
    decreases |s|
  {
    match Find(s, P.open)
    case None => Tail(s)
    case Some(i) =>
      match FindFrom(s, P.close, i + |P.open| + P.least)
      case None => Tail(s)
      case Some(j) =>
        var e := j + |P.close|;
        Piece(s[..i], s[i..e], Split(s[e..], P))
  }

  /** The pieces `Split` cuts join back into the page. */
  lemma {:induction false} SplitJoins(s: string, P: Span)
    requires |P.open| > 0
    ensures Join(Split(s, P)) == s
    decreases |s|
  {
    match Find(s, P.open)
    case None =>
    case Some(i) =>
      match FindFrom(s, P.close, i + |P.open| + P.least)
      case None =>
      case Some(j) =>
        var e := j + |P.close|;
        SplitJoins(s[e..], P);
        assert s == s[..i] + s[i..e] + s[e..];
  }

  /** One step of `Split`: the first match, then the rest. */
  lemma SplitAt(s: string, P: Span, i: nat, j: nat)
    requires |P.open| > 0
    requires Find(s, P.open) == Some(i)
    requires FindFrom(s, P.close, i + |P.open| + P.least) == Some(j)
    ensures j + |P.close| <= |s|
    ensures Split(s, P) == Piece(s[..i], s[i..j + |P.close|], Split(s[j + |P.close|..], P))
  {
  }

  /** `SplitAt` for a page given as text, match and rest. */
  lemma SplitPieces(x: string, z: string, y: string, P: Span)
    requires |P.open| > 0 && |z| >= |P.close|
    requires Find(x + z + y, P.open) == Some(|x|)
    requires FindFrom(x + z + y, P.close, |x| + |P.open| + P.least) == Some(|x| + |z| - |P.close|)
    ensures Split(x + z + y, P) == Piece(x, z, Split(y, P))
  {
    var s := x + z + y;
    SplitAt(s, P, |x|, |x| + |z| - |P.close|);
    assert s[..|x|] == x;
    assert s[|x|..|x| + |z|] == z;
    assert s[|x| + |z|..] == y;
  }

  /** The text of a match is zone-shaped. */
  lemma MatchShaped(s: string, P: Span, i: nat, j: nat)
    requires At(s, P.open, i)
    requires FindFrom(s, P.close, i + |P.open| + P.least) == Some(j)
    ensures ZoneShaped(s[i..j + |P.close|], P)
  {
    CloseInMatch(s, P, i, j);
    AtSlice(s, i, j + |P.close|, P.open, 0);
  }

  /** The `close` that ends a match is the first one the match itself holds far enough in. */
  lemma CloseInMatch(s: string, P: Span, i: nat, j: nat)
    requires FindFrom(s, P.close, i + |P.open| + P.least) == Some(j)
    ensures FindFrom(s[i..j + |P.close|], P.close, |P.open| + P.least) == Some(j - i)
  {
    var k: nat := |P.open| + P.least;
    assert FindFrom(s, P.close, i + k) == Some(j);
    FindFromSlice(s, i, j + |P.close|, P.close, k);
  }

  /** The first `open` of a match's page prefix is where the match starts. */
  lemma MatchFirst(s: string, P: Span, i: nat, e: nat)
    requires Find(s, P.open) == Some(i)
    requires i + |P.open| <= e <= |s|
    ensures Find(s[..i] + s[i..e], P.open) == Some(i)
  {
    assert s[..i] + s[i..e] == s[..e];
    FindFromPrefix(s, e, P.open, 0);
  }

  /** `Split` finds exactly the leftmost-shortest matches. */
  lemma {:induction false} SplitShaped(s: string, P: Span)
    requires |P.open| > 0
    ensures Shaped(Split(s, P), P)
    decreases |s|
  {
    match Find(s, P.open)
    case None =>
    case Some(i) =>
      match FindFrom(s, P.close, i + |P.open| + P.least)
      case None =>
      case Some(j) =>
        var e := j + |P.close|;
        SplitAt(s, P, i, j);
        MatchShaped(s, P, i, j);
        MatchFirst(s, P, i, e);
        SplitShaped(s[e..], P);
  }

  /** The text after the last match. */
  function LastText(ps: Pieces): (res: string)
  {
    match ps
    case Tail(t) => t
    case Piece(_, _, r) => LastText(r)
  }

  /** `qs` with `x` put in front of its first text. */
  function Prefixed(x: string, qs: Pieces): (res: Pieces)
  {
    match qs
    case Tail(u) => Tail(x + u)
    case Piece(u, z, r) => Piece(x + u, z, r)
  }

  /** The pieces `ps`, then `T`, then the pieces `qs`: the last text of `ps`, `T` and the first text of `qs` make one text. */
  function Glue(ps: Pieces, T: string, qs: Pieces): (res: Pieces)
  {
    match ps
    case Tail(t) => Prefixed(t + T, qs)
    case Piece(x, z, r) => Piece(x, z, Glue(r, T, qs))
  }

  /** `Split` of a page whose leftmost match is known. */
  lemma SplitFirst(s: string, P: Span, i: nat, j: nat, x: string, z: string, y: string)
    requires |P.open| > 0
    requires Find(s, P.open) == Some(i)
    requires FindFrom(s, P.close, i + |P.open| + P.least) == Some(j)
    requires s[..i] == x && s[i..j + |P.close|] == z && s[j + |P.close|..] == y
    ensures Split(s, P) == Piece(x, z, Split(y, P))
  {
    SplitAt(s, P, i, j);
  }

  /** `Split` of a page with no match. */
  lemma SplitNone(s: string, P: Span)
    requires |P.open| > 0
    requires Find(s, P.open).None? || FindFrom(s, P.close, Find(s, P.open).value + |P.open| + P.least).None?
    ensures Split(s, P) == Tail(s)
  {
  }

  /** The slices of `x + R` past `x` are those of `R`. */
  lemma ShiftedSlices(x: string, R: string, i: nat, e: nat)
    requires i <= e <= |R|
    ensures (x + R)[..|x| + i] == x + R[..i]
    ensures (x + R)[|x| + i..|x| + e] == R[i..e]
    ensures (x + R)[|x| + e..] == R[e..]
  {
  }

  /** `SplitShift` when `R` has a match. */
  lemma SplitShiftFound(x: string, R: string, P: Span, i: nat, j: nat)
    requires |P.open| > 0
    requires Find(R, P.open) == Some(i)
    requires FindFrom(R, P.close, i + |P.open| + P.least) == Some(j)
    requires Find(x + R, P.open) == Some(|x| + i)
    requires FindFrom(x + R, P.close, (|x| + i) + |P.open| + P.least) == Some(|x| + j)
    ensures Split(x + R, P) == Prefixed(x, Split(R, P))
  {
    var e := j + |P.close|;
    SplitFirst(R, P, i, j, R[..i], R[i..e], R[e..]);
    ShiftedSlices(x, R, i, e);
    SplitFirst(x + R, P, |x| + i, |x| + j, x + R[..i], R[i..e], R[e..]);
  }

  /** When no match can start inside `x`, cutting `x + R` is cutting `R` with `x` in front. */
  lemma {:induction false} SplitShift(x: string, R: string, P: Span)
    requires |P.open| > 0
    requires Find(x + R, P.open) == (match Find(R, P.open)
                                     case None => None
                                     case Some(j) => Some(|x| + j))
    ensures Split(x + R, P) == Prefixed(x, Split(R, P))
  {
    if Find(R, P.open).None? {
      SplitNone(R, P);
      SplitNone(x + R, P);
    } else {
      var i := Find(R, P.open).value;
      var k := i + |P.open| + P.least;
      FindFromRight(x, R, P.close, k);
      if FindFrom(R, P.close, k).None? {
        SplitNone(R, P);
        SplitNone(x + R, P);
      } else {
        SplitShiftFound(x, R, P, i, FindFrom(R, P.close, k).value);
      }
    }
  }

  /** No match starts inside `t + T` when `t` holds no `open` and `T` can neither hold one nor finish one. */
  lemma {:induction false} NoOpenBefore(t: string, T: string, R: string, open: string)
    requires |open| > 0 && |T| > 0 && Find(t, open).None?
    requires forall i :: 0 <= i < |T| ==> T[i] != open[0]
    requires forall j :: 0 < j < |open| ==> open[j] != T[0]
    ensures forall k: nat :: k < |t + T| ==> !At(t + T + R, open, k)
  {
    var s := t + T + R;
    forall k: nat | k < |t + T|
      ensures !At(s, open, k)
    {
      if k >= |t| {
        assert s[k] == T[k - |t|];
        NoStartAt(s, open, k);
      } else if k + |open| <= |t| {
        assert s == t + (T + R);
        AtLeft(t, T + R, open, k);
      } else {
        var d := |t| - k;
        assert 0 < d < |open| && open[d] != T[0];
        assert s[k + d] == T[0];
        AtChars(s, open, k);
      }
    }
  }

  /** The slices of `t + y` within `t` are those of `t`. */
  lemma AppendedSlices(t: string, y: string, i: nat, e: nat)
    requires i <= e <= |t|
    ensures (t + y)[..i] == t[..i]
    ensures (t + y)[i..e] == t[i..e]
    ensures (t + y)[e..] == t[e..] + y
  {
  }

  /** `SplitAcross` when `t` has a match: the match is the first of `t + T + R` as well. */
  lemma SplitAcrossFound(t: string, y: string, P: Span, i: nat, j: nat)
    requires |P.open| > 0
    requires Find(t, P.open) == Some(i)
    requires FindFrom(t, P.close, i + |P.open| + P.least) == Some(j)
    ensures j + |P.close| <= |t|
    ensures Split(t + y, P) == Piece(t[..i], t[i..j + |P.close|], Split(t[j + |P.close|..] + y, P))
  {
    var e := j + |P.close|;
    FindAppend(t, y, P.open);
    FindFromAppend(t, y, P.close, i + |P.open| + P.least);
    AppendedSlices(t, y, i, e);
    SplitFirst(t + y, P, i, j, t[..i], t[i..e], t[e..] + y);
  }

  /**
   * Text whose every `open` is matched inside it, then `T`, which no match
   * can start in or run into: cutting `t + T + R` cuts `t`, then `R`, and
   * joins the texts either side of `T`.
   */
  lemma {:induction false} SplitAcross(t: string, T: string, R: string, P: Span)
    requires |P.open| > 0 && |T| > 0
    requires Find(LastText(Split(t, P)), P.open).None?
    requires forall i :: 0 <= i < |T| ==> T[i] != P.open[0]
    requires forall j :: 0 < j < |P.open| ==> P.open[j] != T[0]
    ensures Split(t + (T + R), P) == Glue(Split(t, P), T, Split(R, P))
    decreases |t|
  {
    if Find(t, P.open).None? {
      SplitNone(t, P);
      NoOpenBefore(t, T, R, P.open);
      FindShift(t + T, R, P.open);
      SplitShift(t + T, R, P);
      AppendAssoc(t, T, R);
    } else {
      var i := Find(t, P.open).value;
      if FindFrom(t, P.close, i + |P.open| + P.least).None? {
        SplitNone(t, P);
        assert false;
      } else {
        var j := FindFrom(t, P.close, i + |P.open| + P.least).value;
        var e := j + |P.close|;
        SplitFirst(t, P, i, j, t[..i], t[i..e], t[e..]);
        SplitAcross(t[e..], T, R, P);
        SplitAcrossFound(t, T + R, P, i, j);
      }
    }
  }

  /** One protect/restore pair of the minifier: the zone delimiters and the placeholder marker. */
  datatype Layer = Layer(open: string, close: string, marker: string)

  /** Server-side script: `/<\?php.*?\?>/s` and `/___PHP___(.+?)___PHP___/s`. */
  const Php := Layer("<?php", "?>", "___PHP___")

  /**
   * Conditional comments, as the protect stage evidently intends them: from
   * `<!--[if` to the first following `<![endif]-->`, restored through
   * `/___CONDITIONAL_COMMENT___(.+?)___CONDITIONAL_COMMENT___/s`.
   */
  const Conditional := Layer("<!--[if", "<![endif]-->", "___CONDITIONAL_COMMENT___")

  predicate WellFormed(L: Layer)
  {
    |L.open| > 0 && IsToken(L.marker)
  }

  lemma LayersWellFormed()
    ensures WellFormed(Php) && WellFormed(Conditional)
  {
  }

  /** The protect pattern `open.*?close`. */
  function Zone(L: Layer): (res: Span)
  {
    Span(L.open, L.close, 0)
  }

  /** The restore pattern `marker(.+?)marker`. */
  function Placeholder(L: Layer): (res: Span)
  {
    Span(L.marker, L.marker, 1)
  }

  /** The placeholder that stands for zone `z`. */
  function Token(L: Layer, b: Base64, z: string): (res: string)
  {
    L.marker + b.encode(z) + L.marker
  }

  /** Every zone replaced by its placeholder. */
  function Render(ps: Pieces, L: Layer, b: Base64): (res: string)
  {
    match ps
    case Tail(t) => t
    case Piece(t, z, r) => t + Token(L, b, z) + Render(r, L, b)
  }

  /** The text between the two markers of a placeholder match (the regex's group 1). */
  function Inner(z: string, marker: string): (res: string)
  {
    if |z| >= 2 * |marker| then z[|marker|..|z| - |marker|] else z
  }

  /** Every placeholder match replaced by the decoding of its inner text. */
  function Decode(ps: Pieces, L: Layer, b: Base64): (res: string)
  {
    match ps
    case Tail(t) => t
    case Piece(t, z, r) => t + b.decode(Inner(z, L.marker)) + Decode(r, L, b)
  }

  /** `preg_replace_callback('/open.*?close/s', ...)` with the placeholder callback. */
  function Protect(s: string, L: Layer, b: Base64): (r: string)
    requires |L.open| > 0
  {
    Render(Split(s, Zone(L)), L, b)
  }

  /** `preg_replace_callback('/marker(.+?)marker/s', ...)` with the decoding callback. */
  function Restore(s: string, L: Layer, b: Base64): (r: string)
    requires |L.marker| > 0
  {
    Decode(Split(s, Placeholder(L)), L, b)
  }

  /** The first marker in `t + marker` is the appended one: `t` cannot pair with a placeholder. */
  predicate Safe(t: string, marker: string)
  {
    Find(t + marker, marker) == Some(|t|)
  }

  predicate SafeTexts(ps: Pieces, marker: string)
  {
    match ps
    case Tail(t) => Safe(t, marker)
    case Piece(t, _, r) => Safe(t, marker) && SafeTexts(r, marker)
  }

  predicate ZonesNonEmpty(ps: Pieces)
  {
    match ps
    case Tail(_) => true
    case Piece(_, z, r) => |z| > 0 && ZonesNonEmpty(r)
  }

  lemma {:induction false} ShapedZonesNonEmpty(ps: Pieces, P: Span)
    requires |P.open| > 0 && Shaped(ps, P)
    ensures ZonesNonEmpty(ps)
  {
    match ps
    case Tail(_) =>
    case Piece(_, _, r) => ShapedZonesNonEmpty(r, P);
  }

  /** Safe text holds no marker at all. */
  lemma SafeHasNoMarker(t: string, marker: string)
    requires |marker| > 0 && Safe(t, marker)
    ensures Find(t, marker).None?
  {
    if Find(t, marker).Some? {
      FindAppend(t, marker, marker);
    }
  }

  /** Text without `_` is always safe: every marker starts with `_`. */
  lemma NoUnderscoreSafe(t: string, marker: string)
    requires IsToken(marker)
    requires forall i :: 0 <= i < |t| ==> t[i] != '_'
    ensures Safe(t, marker)
  {
    var s := t + marker;
    AtPlaced(t, marker, []);
    assert t + marker + [] == s;
    forall k: nat | k < |t|
      ensures !At(s, marker, k)
    {
      NoStartAt(s, marker, k);
    }
    FindIsFirst(s, marker, |t|);
  }

  /** An encoding holds no `_`. */
  lemma EncodingHasNoUnderscore(b: Base64, z: string)
    requires Valid(b)
    ensures forall i :: 0 <= i < |b.encode(z)| ==> b.encode(z)[i] != '_'
  {
    forall i | 0 <= i < |b.encode(z)|
      ensures b.encode(z)[i] != '_'
    {
      assert IsBase64Char(b.encode(z)[i]);
    }
  }

  /** Where the restore scan sees the two markers of a placeholder that follows safe text. */
  lemma TokenMarkers(t: string, e: string, R: string, m: string)
    requires IsToken(m) && Safe(t, m)
    requires |e| > 0 && forall i :: 0 <= i < |e| ==> e[i] != '_'
    ensures Find(t + m + e + m + R, m) == Some(|t|)
    ensures FindFrom(t + m + e + m + R, m, |t| + |m| + 1) == Some(|t| + |m| + |e|)
  {
    var s := t + m + e + m + R;
    assert s == (t + m) + (e + m + R);
    FindAppend(t + m, e + m + R, m);
    var c := |t| + |m| + |e|;
    AtPlaced(t + m + e, m, R);
    forall k: nat | |t| + |m| + 1 <= k < c
      ensures !At(s, m, k)
    {
      assert s[k] == e[k - |t| - |m|];
      NoStartAt(s, m, k);
    }
    FindFromIsFirst(s, m, |t| + |m| + 1, c);
  }

  /** The restore scan takes a placeholder that follows safe text as its first match. */
  lemma SplitToken(t: string, e: string, R: string, L: Layer)
    requires WellFormed(L) && Safe(t, L.marker)
    requires |e| > 0 && forall i :: 0 <= i < |e| ==> e[i] != '_'
    ensures Split(t + L.marker + e + L.marker + R, Placeholder(L))
         == Piece(t, L.marker + e + L.marker, Split(R, Placeholder(L)))
  {
    var m := L.marker;
    TokenMarkers(t, e, R, m);
    assert t + m + e + m + R == t + (m + e + m) + R;
    SplitPieces(t, m + e + m, R, Placeholder(L));
  }

  /**
   * The restore scan decodes a marker pair wherever it comes from: the
   * markers are fixed literals, so a pair the page itself holds is decoded
   * like a placeholder the protect stage made.
   */
  lemma {:induction false} RestoreDecodes(t: string, e: string, R: string, L: Layer, b: Base64)
    requires WellFormed(L) && Safe(t, L.marker)
    requires |e| > 0 && forall i :: 0 <= i < |e| ==> e[i] != '_'
    ensures Restore(t + L.marker + e + L.marker + R, L, b) == t + b.decode(e) + Restore(R, L, b)
  {
    var m := L.marker;
    SplitToken(t, e, R, L);
    assert Inner(m + e + m, m) == e;
  }

  /** Restoring a rendered page puts every zone back byte for byte. */
  lemma {:induction false} RestoreRender(ps: Pieces, L: Layer, b: Base64)
    requires WellFormed(L) && Valid(b)
    requires SafeTexts(ps, L.marker) && ZonesNonEmpty(ps)
    ensures Restore(Render(ps, L, b), L, b) == Join(ps)
  {
    match ps
    case Tail(t) =>
      SafeHasNoMarker(t, L.marker);
    case Piece(t, z, r) =>
      var e := b.encode(z);
      EncodingHasNoUnderscore(b, z);
      TokenRegrouped(t, L.marker, e, Render(r, L, b));
      RestoreDecodes(t, e, Render(r, L, b), L, b);
      RestoreRender(r, L, b);
  }

  lemma {:induction false} TokenRegrouped(t: string, m: string, e: string, R: string)
    ensures t + (m + e + m) + R == t + m + e + m + R
  {
  }

  /** Protect followed directly by restore gives the page back. */
  lemma ProtectRestore(s: string, L: Layer, b: Base64)
    requires WellFormed(L) && Valid(b)
    requires SafeTexts(Split(s, Zone(L)), L.marker)
    ensures Restore(Protect(s, L, b), L, b) == s
  {
    SplitShaped(s, Zone(L));
    ShapedZonesNonEmpty(Split(s, Zone(L)), Zone(L));
    RestoreRender(Split(s, Zone(L)), L, b);
    SplitJoins(s, Zone(L));
  }
}
