/**
 * The text stages of the HTML minifier (includes/minify/class-macp-minify-html.php),
 * each regular expression written out as the left-to-right scanner that
 * `preg_replace` runs: at every position it tries a match, replaces it and goes
 * on after it, or else keeps one character and moves on.
 */
module Stages {
  import opened Text

  // ----------------------------------------------------------------------
  // Comments: /<!--(?!\s*(?:\[if [^\]]+]|<!|>))(?:(?!-->).)*-->/s -> ''
  // ----------------------------------------------------------------------

  /**
   * The negative lookahead after `<!--`: past optional whitespace the comment
   * goes on with `[if `, at least one character other than `]` and a `]`, or
   * with `<!`, or with `>`. Such comments (conditional comments and their
   * closers) are kept.
   */
  predicate Exempt(u: string)
    decreases |u|
  {
    if |u| > 0 && IsSpace(u[0]) then Exempt(u[1..])
    else HasPrefix(u, "<!") || HasPrefix(u, ">") || IfCondition(u)
  }

  /** `\[if [^\]]+]`: `[if `, then at least one character before the first `]`. */
  predicate IfCondition(u: string)
  {
    HasPrefix(u, "[if ") && match Find(u[4..], "]")
                            case Some(q) => q >= 1
                            case None => false
  }

  /**
   * Whether the lookahead holds depends on what follows `u`: past the
   * whitespace, `u` is empty, a proper beginning of `<!` or `[if `, or an
   * `[if ` with no `]` yet.
   */
  predicate Undecided(u: string)
    decreases |u|
  {
    if |u| > 0 && IsSpace(u[0]) then Undecided(u[1..])
    else
      || u == "" || u == "<" || u == "[" || u == "[i" || u == "[if"
      || (HasPrefix(u, "[if ") && Find(u[4..], "]").None?)
  }

  /** The comment-removal stage. */
  function Strip(s: string): (r: string)
    decreases |s|
  {
    if |s| == 0 then []
    else if At(s, "<!--", 0) && !Exempt(s[4..]) && FindFrom(s, "-->", 4).Some? then
      Strip(s[FindFrom(s, "-->", 4).value + 3..])
    else [s[0]] + Strip(s[1..])
  }

  /**
   * Every comment opener of `s` is decided inside `s`, and every one the stage
   * removes has its `-->` inside `s`: text that follows `s` cannot change what
   * the stage does to `s`.
   */
  predicate Closed(s: string)
    decreases |s|
  {
    if |s| == 0 then true
    else if At(s, "<!--", 0) then
      && !Undecided(s[4..])
      && (Exempt(s[4..]) || FindFrom(s, "-->", 4).Some?)
      && if Exempt(s[4..]) then Closed(s[1..]) else Closed(s[FindFrom(s, "-->", 4).value + 3..])
    else Closed(s[1..])
  }

  /** A decided lookahead stays decided the same way whatever follows. */
  lemma {:induction false} ExemptAppend(u: string, z: string)
    requires !Undecided(u)
    ensures Exempt(u + z) == Exempt(u)
    decreases |u|
  {
    if IsSpace(u[0]) {
      assert (u + z)[1..] == u[1..] + z;
      ExemptAppend(u[1..], z);
    } else {
      DecidedAppend(u, z);
    }
  }

  /** The three alternatives of the lookahead, decided at a non-whitespace start. */
  lemma {:induction false} DecidedAppend(u: string, z: string)
    requires |u| > 0 && !IsSpace(u[0]) && !Undecided(u)
    ensures HasPrefix(u + z, "<!") == HasPrefix(u, "<!")
    ensures HasPrefix(u + z, ">") == HasPrefix(u, ">")
    ensures IfCondition(u + z) == IfCondition(u)
  {
    PrefixOfIs("<!", u);
    PrefixOfIs("[if ", u);
    if |u| < 4 {
      assert u == [u[0]] || u == [u[0], u[1]] || u == [u[0], u[1], u[2]];
    }
    PrefixAppend(u, z, "<!");
    PrefixAppend(u, z, ">");
    PrefixAppend(u, z, "[if ");
    if HasPrefix(u, "[if ") {
      assert (u + z)[4..] == u[4..] + z;
      FindAppend(u[4..], z, "]");
    }
  }

  /** One step of the stage where no removable comment starts. */
  lemma {:induction false} StripKeeps(s: string)
    requires |s| > 0
    requires !At(s, "<!--", 0) || Exempt(s[4..]) || FindFrom(s, "-->", 4).None?
    ensures Strip(s) == [s[0]] + Strip(s[1..])
  {
  }

  /** One step of the stage where a removable comment starts. */
  lemma {:induction false} StripDrops(s: string, j: nat)
    requires At(s, "<!--", 0) && !Exempt(s[4..]) && FindFrom(s, "-->", 4) == Some(j)
    ensures j + 3 <= |s| && Strip(s) == Strip(s[j + 3..])
  {
  }

  /** No comment opener can straddle the end of `x` when `z` starts with neither `!` nor `-`. */
  lemma {:induction false} OpenerAppend(x: string, z: string)
    requires x != [] && (z == [] || (z[0] != '!' && z[0] != '-'))
    ensures At(x + z, "<!--", 0) <==> At(x, "<!--", 0)
  {
    if z != [] {
      PrefixOfIs("<!--", x);
      PrefixAppend(x, z, "<!--");
    } else {
      assert x + z == x;
    }
  }

  /** A kept opener stays kept when text follows. */
  lemma {:induction false} KeepsAppend(x: string, z: string)
    requires |x| > 0
    requires z == [] || (z[0] != '!' && z[0] != '-')
    requires At(x, "<!--", 0) ==> !Undecided(x[4..]) && Exempt(x[4..])
    ensures !At(x + z, "<!--", 0) || Exempt((x + z)[4..])
  {
    OpenerAppend(x, z);
    if At(x, "<!--", 0) {
      SuffixAppend(x, z, 4);
      ExemptAppend(x[4..], z);
    }
  }

  /** A step that keeps the first character is the same when text follows. */
  lemma {:induction false} KeepAppend(x: string, z: string)
    requires |x| > 0
    requires z == [] || (z[0] != '!' && z[0] != '-')
    requires At(x, "<!--", 0) ==> !Undecided(x[4..]) && Exempt(x[4..])
    ensures Strip(x) == [x[0]] + Strip(x[1..])
    ensures Strip(x + z) == [x[0]] + Strip(x[1..] + z)
  {
    StripKeeps(x);
    KeepsAppend(x, z);
    StripKeeps(x + z);
    SuffixAppend(x, z, 1);
  }

  /** A removable comment at the head of a text stays removable, up to the same `-->`, when text follows. */
  lemma {:induction false} DropsAppend(x: string, z: string, j: nat)
    requires At(x, "<!--", 0) && !Undecided(x[4..]) && !Exempt(x[4..]) && FindFrom(x, "-->", 4) == Some(j)
    ensures At(x + z, "<!--", 0) && !Exempt((x + z)[4..]) && FindFrom(x + z, "-->", 4) == Some(j)
  {
    AtLeft(x, z, "<!--", 0);
    SuffixAppend(x, z, 4);
    ExemptAppend(x[4..], z);
    FindFromAppend(x, z, "-->", 4);
  }

  /** A comment removed from a text is removed the same way when text follows. */
  lemma {:induction false} DropAppend(x: string, z: string, j: nat)
    requires At(x, "<!--", 0) && !Undecided(x[4..]) && !Exempt(x[4..]) && FindFrom(x, "-->", 4) == Some(j)
    ensures j + 3 <= |x|
    ensures Strip(x) == Strip(x[j + 3..])
    ensures Strip(x + z) == Strip(x[j + 3..] + z)
  {
    StripDrops(x, j);
    DropsAppend(x, z, j);
    StripDrops(x + z, j);
    SuffixAppend(x, z, j + 3);
  }

  /** The first step of the stage on a closed text, and the same step when text follows. */
  lemma {:induction false} StripStep(x: string, z: string) returns (h: string, y: string)
    requires |x| > 0 && Closed(x)
    requires z == [] || (z[0] != '!' && z[0] != '-')
    ensures |y| < |x| && Closed(y)
    ensures Strip(x) == h + Strip(y)
    ensures Strip(x + z) == h + Strip(y + z)
  {
    if At(x, "<!--", 0) && !Exempt(x[4..]) {
      var j := FindFrom(x, "-->", 4).value;
      DropAppend(x, z, j);
      h, y := [], x[j + 3..];
      assert h + Strip(y) == Strip(y);
      assert h + Strip(y + z) == Strip(y + z);
    } else {
      KeepAppend(x, z);
      h, y := [x[0]], x[1..];
    }
  }

  /** What the stage does to a closed text does not depend on what follows it. */
  lemma {:induction false} StripAppend(x: string, z: string)
    requires Closed(x)
    requires z == [] || (z[0] != '!' && z[0] != '-')
    ensures Strip(x + z) == Strip(x) + Strip(z)
    decreases |x|
  {
    if |x| == 0 {
      assert x + z == z;
    } else {
      var h, y := StripStep(x, z);
      StripAppend(y, z);
      AppendAssoc(h, Strip(y), Strip(z));
    }
  }

  /** Text without `<` passes through the stage unchanged. */
  lemma {:induction false} StripInert(t: string, y: string)
    requires forall i :: 0 <= i < |t| ==> t[i] != '<'
    ensures Strip(t + y) == t + Strip(y)
    decreases |t|
  {
    if |t| > 0 {
      assert (t + y)[1..] == t[1..] + y;
      StripInert(t[1..], y);
      assert t == [t[0]] + t[1..];
      AppendAssoc([t[0]], t[1..], Strip(y));
    } else {
      assert t + y == y;
    }
  }

  /** The stage never makes the page longer. */
  lemma {:induction false} StripShrinks(s: string)
    ensures |Strip(s)| <= |s|
    decreases |s|
  {
    if |s| > 0 {
      if At(s, "<!--", 0) && !Exempt(s[4..]) && FindFrom(s, "-->", 4).Some? {
        StripShrinks(s[FindFrom(s, "-->", 4).value + 3..]);
      } else {
        StripShrinks(s[1..]);
      }
    }
  }

  /** A page without `<!--` is left as it is. */
  lemma {:induction false} StripNoOpener(s: string)
    requires Find(s, "<!--").None?
    ensures Strip(s) == s
    decreases |s|
  {
    if |s| > 0 {
      FindFromSuffix(s, 1, "<!--", 0);
      StripNoOpener(s[1..]);
      assert s == [s[0]] + s[1..];
    }
  }

  /**
   * A removable comment: `<!--`, a body whose start is decided and is not
   * exempt, and the first `-->` after the opener at its very end.
   */
  predicate Removable(c: string)
  {
    && At(c, "<!--", 0)
    && !Undecided(c[4..])
    && !Exempt(c[4..])
    && FindFrom(c, "-->", 4) == Some(|c| - 3)
  }

  /** A removable comment after a closed text disappears, and nothing else changes. */
  lemma {:induction false} StripRemovesComment(x: string, c: string, y: string)
    requires Closed(x) && Removable(c)
    ensures Strip(x + c + y) == Strip(x) + Strip(y)
  {
    AppendAssoc(x, c, y);
    StripAppend(x, c + y);
    DropsAppend(c, y, |c| - 3);
    StripDrops(c + y, |c| - 3);
    assert (c + y)[|c|..] == y;
  }

  /** An exempt comment (a conditional comment or its closer) keeps its opener. */
  lemma {:induction false} StripKeepsExempt(u: string)
    requires At(u, "<!--", 0) && Exempt(u[4..])
    ensures Strip(u) == "<!--" + Strip(u[4..])
  {
    StripKeeps(u);
    StripKeeps(u[1..]);
    StripKeeps(u[2..]);
    StripKeeps(u[3..]);
    assert u[1..][1..] == u[2..] && u[2..][1..] == u[3..] && u[3..][1..] == u[4..];
    assert u[..4] == "<!--";
  }

  // ----------------------------------------------------------------------
  // Whitespace between tags: />\s+</ -> '><'
  // ----------------------------------------------------------------------

  /** `\s+<` at the start of `u`: a whitespace run, then `<`. */
  predicate Gap(u: string)
  {
    var n := WsRun(u);
    0 < n < |u| && u[n] == '<'
  }

  function TagGap(s: string): (r: string)
    decreases |s|
  {
    if |s| == 0 then []
    else if s[0] == '>' && Gap(s[1..]) then ">" + TagGap(s[1 + WsRun(s[1..])..])
    else [s[0]] + TagGap(s[1..])
  }

  /** No `>` is followed by whitespace and then `<`. */
  predicate NoTagGap(s: string)
    decreases |s|
  {
    |s| == 0 || (!(s[0] == '>' && Gap(s[1..])) && NoTagGap(s[1..]))
  }

  lemma {:induction false} NoTagGapCons(c: char, w: string)
    ensures NoTagGap([c] + w) <==> !(c == '>' && Gap(w)) && NoTagGap(w)
  {
    assert ([c] + w)[1..] == w;
  }

  /** The stage keeps the first character. */
  lemma {:induction false} TagGapHead(v: string)
    requires |v| > 0
    ensures |TagGap(v)| > 0 && TagGap(v)[0] == v[0]
  {
  }

  /** A leading whitespace run passes through the stage unchanged. */
  lemma {:induction false} TagGapSpaces(u: string)
    ensures TagGap(u) == u[..WsRun(u)] + TagGap(u[WsRun(u)..])
    decreases |u|
  {
    if |u| > 0 && IsSpace(u[0]) {
      TagGapSpaces(u[1..]);
      var n := WsRun(u[1..]);
      assert u[1..][..n] == u[1..n + 1];
      assert u[1..][n..] == u[n + 1..];
      assert u[..n + 1] == [u[0]] + u[1..n + 1];
    }
  }

  /** The run of whitespace that opens a string is the run that opens its image. */
  lemma {:induction false} GapTagGap(u: string)
    ensures Gap(TagGap(u)) == Gap(u)
  {
    var n := WsRun(u);
    TagGapSpaces(u);
    var w := TagGap(u[n..]);
    WsRunSpaces(u);
    WsRunIs(u[..n], n);
    WsRunAppend(u[..n], w);
    if n < |u| {
      TagGapHead(u[n..]);
    }
  }

  /** After the stage no `>`, whitespace, `<` remains. */
  lemma {:induction false} TagGapClears(s: string)
    ensures NoTagGap(TagGap(s))
    decreases |s|
  {
    if |s| > 0 {
      if s[0] == '>' && Gap(s[1..]) {
        var v := s[1 + WsRun(s[1..])..];
        assert v[0] == '<';
        TagGapHead(v);
        TagGapClears(v);
        NoTagGapCons('>', TagGap(v));
      } else {
        GapTagGap(s[1..]);
        TagGapClears(s[1..]);
        NoTagGapCons(s[0], TagGap(s[1..]));
      }
    }
  }

  /** A page without such gaps is left as it is. */
  lemma {:induction false} TagGapIdentity(s: string)
    requires NoTagGap(s)
    ensures TagGap(s) == s
    decreases |s|
  {
    if |s| > 0 {
      TagGapIdentity(s[1..]);
      assert s == [s[0]] + s[1..];
    }
  }

  /** Text that starts with neither whitespace nor `<` cannot complete a gap. */
  lemma {:induction false} GapAppend(u: string, z: string)
    requires z == [] || (!IsSpace(z[0]) && z[0] != '<')
    ensures Gap(u + z) == Gap(u)
  {
    WsRunAppend(u, z);
    if z != [] {
      assert (u + z)[|u|] == z[0];
    } else {
      assert u + z == u;
    }
  }

  /** One step of the stage: a `>` and the whitespace gap after it, or one character. */
  lemma TagGapUnfold(s: string)
    requires |s| > 0
    ensures s[0] == '>' && Gap(s[1..]) ==> TagGap(s) == ">" + TagGap(s[1 + WsRun(s[1..])..])
    ensures !(s[0] == '>' && Gap(s[1..])) ==> TagGap(s) == [s[0]] + TagGap(s[1..])
  {
  }

  /** The first step of the stage is the same when such text follows. */
  lemma {:induction false} TagGapStep(x: string, z: string) returns (h: string, y: string)
    requires |x| > 0
    requires z == [] || (!IsSpace(z[0]) && z[0] != '<')
    ensures |y| < |x|
    ensures TagGap(x) == h + TagGap(y)
    ensures TagGap(x + z) == h + TagGap(y + z)
  {
    var s := x + z;
    assert s[0] == x[0];
    assert s[1..] == x[1..] + z;
    GapAppend(x[1..], z);
    TagGapUnfold(x);
    TagGapUnfold(s);
    if x[0] == '>' && Gap(x[1..]) {
      var n := WsRun(x[1..]);
      WsRunAppend(x[1..], z);
      assert s[1 + n..] == x[1 + n..] + z;
      h, y := ">", x[1 + n..];
    } else {
      h, y := [x[0]], x[1..];
    }
  }

  /** The stage works on both sides of a boundary that cannot be inside a gap. */
  lemma {:induction false} TagGapAppend(x: string, z: string)
    requires z == [] || (!IsSpace(z[0]) && z[0] != '<')
    ensures TagGap(x + z) == TagGap(x) + TagGap(z)
    decreases |x|
  {
    if |x| == 0 {
      assert x + z == z;
    } else {
      var h, y := TagGapStep(x, z);
      TagGapAppend(y, z);
      AppendAssoc(h, TagGap(y), TagGap(z));
    }
  }

  /** Text without `>` passes through the stage unchanged. */
  lemma {:induction false} TagGapInert(t: string, y: string)
    requires forall i :: 0 <= i < |t| ==> t[i] != '>'
    ensures TagGap(t + y) == t + TagGap(y)
    decreases |t|
  {
    if |t| > 0 {
      assert (t + y)[1..] == t[1..] + y;
      TagGapInert(t[1..], y);
      assert t == [t[0]] + t[1..];
      AppendAssoc([t[0]], t[1..], TagGap(y));
    } else {
      assert t + y == y;
    }
  }

  // ----------------------------------------------------------------------
  // Leading whitespace: /^\s+/ -> ''
  // ----------------------------------------------------------------------

  function LeadStrip(s: string): (r: string)
  {
    s[WsRun(s)..]
  }

  predicate NoLeadingSpace(s: string)
  {
    |s| == 0 || !IsSpace(s[0])
  }

  lemma {:induction false} LeadStripClears(s: string)
    ensures NoLeadingSpace(LeadStrip(s))
  {
  }

  lemma {:induction false} LeadStripIdentity(s: string)
    requires NoLeadingSpace(s)
    ensures LeadStrip(s) == s
  {
  }

  /** Only the start of the page is touched. */
  lemma {:induction false} LeadStripAppend(x: string, z: string)
    requires z == [] || !IsSpace(z[0])
    ensures LeadStrip(x + z) == LeadStrip(x) + z
  {
    WsRunAppend(x, z);
    var n := WsRun(x);
    assert (x + z)[n..] == x[n..] + z;
  }

  lemma {:induction false} NoTagGapSuffix(s: string, k: nat)
    requires NoTagGap(s) && k <= |s|
    ensures NoTagGap(s[k..])
    decreases k
  {
    if k > 0 {
      NoTagGapSuffix(s[1..], k - 1);
      assert s[1..][k - 1..] == s[k..];
    }
  }

  // ----------------------------------------------------------------------
  // Runs of whitespace: /\s{2,}/ -> ' '
  // ----------------------------------------------------------------------

  function SpaceRuns(s: string): (r: string)
    decreases |s|
  {
    if |s| == 0 then []
    else if WsRun(s) >= 2 then " " + SpaceRuns(s[WsRun(s)..])
    else [s[0]] + SpaceRuns(s[1..])
  }

  /** No two whitespace characters are adjacent. */
  predicate NoDoubleSpace(s: string)
    decreases |s|
  {
    |s| < 2 || (!(IsSpace(s[0]) && IsSpace(s[1])) && NoDoubleSpace(s[1..]))
  }

  lemma {:induction false} NoDoubleSpaceCons(c: char, w: string)
    ensures NoDoubleSpace([c] + w) <==> (|w| == 0 || !(IsSpace(c) && IsSpace(w[0]))) && NoDoubleSpace(w)
  {
    assert ([c] + w)[1..] == w;
  }

  /** The image starts with whitespace exactly when the string does. */
  lemma {:induction false} SpaceRunsHead(v: string)
    requires |v| > 0
    ensures |SpaceRuns(v)| > 0 && (IsSpace(SpaceRuns(v)[0]) <==> IsSpace(v[0]))
    ensures !IsSpace(v[0]) ==> SpaceRuns(v)[0] == v[0]
  {
  }

  /** After the stage no two whitespace characters are adjacent. */
  lemma {:induction false} SpaceRunsClears(s: string)
    ensures NoDoubleSpace(SpaceRuns(s))
    decreases |s|
  {
    if |s| > 0 {
      var n := WsRun(s);
      if n >= 2 {
        var v := s[n..];
        SpaceRunsClears(v);
        if |v| > 0 {
          SpaceRunsHead(v);
        }
        NoDoubleSpaceCons(' ', SpaceRuns(v));
      } else {
        SpaceRunsClears(s[1..]);
        if |s| > 1 {
          SpaceRunsHead(s[1..]);
          if IsSpace(s[0]) {
            assert WsRun(s) == 1 + WsRun(s[1..]);
          }
        }
        NoDoubleSpaceCons(s[0], SpaceRuns(s[1..]));
      }
    }
  }

  lemma {:induction false} SpaceRunsLead(s: string)
    requires NoLeadingSpace(s)
    ensures NoLeadingSpace(SpaceRuns(s))
  {
    if |s| > 0 {
      SpaceRunsHead(s);
    }
  }

  /** `WsRun` of a string that starts with one whitespace character. */
  lemma {:induction false} WsRunCons(c: char, w: string)
    requires IsSpace(c)
    ensures WsRun([c] + w) == 1 + WsRun(w)
  {
    assert ([c] + w)[1..] == w;
  }

  /** The stage neither makes nor unmakes a gap at the start. */
  lemma {:induction false} GapSpaceRuns(u: string)
    ensures Gap(SpaceRuns(u)) == Gap(u)
  {
    var n := WsRun(u);
    if |u| > 0 {
      if n >= 2 {
        var v := u[n..];
        var w := SpaceRuns(v);
        WsRunCons(' ', w);
        if |v| > 0 {
          SpaceRunsHead(v);
        }
        assert SpaceRuns(u) == [' '] + w;
      } else if n == 1 {
        var w := SpaceRuns(u[1..]);
        WsRunCons(u[0], w);
        if |u| > 1 {
          SpaceRunsHead(u[1..]);
        }
        assert SpaceRuns(u) == [u[0]] + w;
      } else {
        SpaceRunsHead(u);
      }
    }
  }

  /** The stage keeps a page free of tag gaps. */
  lemma {:induction false} SpaceRunsNoTagGap(s: string)
    requires NoTagGap(s)
    ensures NoTagGap(SpaceRuns(s))
    decreases |s|
  {
    if |s| > 0 {
      var n := WsRun(s);
      if n >= 2 {
        NoTagGapSuffix(s, n);
        SpaceRunsNoTagGap(s[n..]);
        NoTagGapCons(' ', SpaceRuns(s[n..]));
      } else {
        GapSpaceRuns(s[1..]);
        SpaceRunsNoTagGap(s[1..]);
        NoTagGapCons(s[0], SpaceRuns(s[1..]));
      }
    }
  }

  /** A page without adjacent whitespace is left as it is. */
  lemma {:induction false} SpaceRunsIdentity(s: string)
    requires NoDoubleSpace(s)
    ensures SpaceRuns(s) == s
    decreases |s|
  {
    if |s| > 0 {
      if |s| > 1 && IsSpace(s[0]) {
        assert WsRun(s) == 1 + WsRun(s[1..]);
      }
      SpaceRunsIdentity(s[1..]);
      assert s == [s[0]] + s[1..];
    }
  }

  /** The first step of the stage is the same when such text follows. */
  lemma {:induction false} SpaceRunsStep(x: string, z: string)
    requires |x| > 0
    requires z == [] || !IsSpace(z[0])
    ensures WsRun(x) >= 2 ==>
      && SpaceRuns(x) == " " + SpaceRuns(x[WsRun(x)..])
      && SpaceRuns(x + z) == " " + SpaceRuns(x[WsRun(x)..] + z)
    ensures WsRun(x) < 2 ==>
      && SpaceRuns(x) == [x[0]] + SpaceRuns(x[1..])
      && SpaceRuns(x + z) == [x[0]] + SpaceRuns(x[1..] + z)
  {
    var n := WsRun(x);
    WsRunAppend(x, z);
    if z != [] {
      assert WsRun(z) == 0;
    }
    var s := x + z;
    assert s[0] == x[0];
    assert s[n..] == x[n..] + z;
    assert s[1..] == x[1..] + z;
  }

  /** The stage works on both sides of a boundary that is not inside a run. */
  lemma {:induction false} SpaceRunsAppend(x: string, z: string)
    requires z == [] || !IsSpace(z[0])
    ensures SpaceRuns(x + z) == SpaceRuns(x) + SpaceRuns(z)
    decreases |x|
  {
    if |x| == 0 {
      assert x + z == z;
    } else {
      SpaceRunsStep(x, z);
      var y := if WsRun(x) >= 2 then x[WsRun(x)..] else x[1..];
      var h := if WsRun(x) >= 2 then " " else [x[0]];
      SpaceRunsAppend(y, z);
      AppendAssoc(h, SpaceRuns(y), SpaceRuns(z));
    }
  }

  /** Text without whitespace passes through the stage unchanged. */
  lemma {:induction false} SpaceRunsInert(t: string, y: string)
    requires forall i :: 0 <= i < |t| ==> !IsSpace(t[i])
    ensures SpaceRuns(t + y) == t + SpaceRuns(y)
    decreases |t|
  {
    if |t| > 0 {
      assert (t + y)[1..] == t[1..] + y;
      SpaceRunsInert(t[1..], y);
      assert t == [t[0]] + t[1..];
      AppendAssoc([t[0]], t[1..], SpaceRuns(y));
    } else {
      assert t + y == y;
    }
  }

  /** The three whitespace replacements, in the order the minifier runs them. */
  function Whitespace(s: string): (r: string)
  {
    SpaceRuns(LeadStrip(TagGap(s)))
  }

  /** After the whitespace stage: no tag gap, no leading whitespace, no adjacent whitespace. */
  lemma {:induction false} WhitespaceClears(s: string)
    ensures NoTagGap(Whitespace(s))
    ensures NoLeadingSpace(Whitespace(s))
    ensures NoDoubleSpace(Whitespace(s))
  {
    var t := TagGap(s);
    TagGapClears(s);
    NoTagGapSuffix(t, WsRun(t));
    LeadStripClears(t);
    SpaceRunsNoTagGap(LeadStrip(t));
    SpaceRunsLead(LeadStrip(t));
    SpaceRunsClears(LeadStrip(t));
  }

  // ----------------------------------------------------------------------
  // Line breaks: str_replace(["\n", "\r", "\t"], '', ...)
  // ----------------------------------------------------------------------

  /** Every occurrence of `c` removed. */
  function Without(s: string, c: char): (res: string)
    decreases |s|
  {
    if |s| == 0 then []
    else (if s[0] == c then [] else [s[0]]) + Without(s[1..], c)
  }

  predicate Lacks(s: string, c: char)
  {
    forall i :: 0 <= i < |s| ==> s[i] != c
  }

  /** `str_replace` with an array of searches: each search replaced everywhere, in turn. */
  function LineBreaks(s: string): (r: string)
  {
    Without(Without(Without(s, '\n'), '\r'), '\t')
  }

  predicate NoBreaks(s: string)
  {
    Lacks(s, '\n') && Lacks(s, '\r') && Lacks(s, '\t')
  }

  /** Removing `c` leaves no `c`, and adds no character that was not there. */
  lemma {:induction false} WithoutLacks(s: string, c: char, d: char)
    ensures Lacks(Without(s, c), c)
    ensures Lacks(s, d) ==> Lacks(Without(s, c), d)
    decreases |s|
  {
    if |s| > 0 {
      WithoutLacks(s[1..], c, d);
      var w := Without(s[1..], c);
      if s[0] != c {
        assert Without(s, c) == [s[0]] + w;
        forall i | 1 <= i < |Without(s, c)|
          ensures Without(s, c)[i] == w[i - 1]
        {
        }
        if Lacks(s, d) {
          assert Lacks(s[1..], d) by {
            forall i | 0 <= i < |s[1..]|
              ensures s[1..][i] != d
            {
              assert s[1..][i] == s[i + 1];
            }
          }
        }
      } else {
        if Lacks(s, d) {
          assert Lacks(s[1..], d) by {
            forall i | 0 <= i < |s[1..]|
              ensures s[1..][i] != d
            {
              assert s[1..][i] == s[i + 1];
            }
          }
        }
      }
    }
  }

  lemma {:induction false} LineBreaksClears(s: string)
    ensures NoBreaks(LineBreaks(s))
  {
    var a := Without(s, '\n');
    var b := Without(a, '\r');
    WithoutLacks(s, '\n', '\n');
    WithoutLacks(a, '\r', '\n');
    WithoutLacks(b, '\t', '\n');
    WithoutLacks(b, '\t', '\r');
    WithoutLacks(a, '\r', '\r');
  }

  lemma {:induction false} WithoutIdentity(s: string, c: char)
    requires Lacks(s, c)
    ensures Without(s, c) == s
    decreases |s|
  {
    if |s| > 0 {
      assert Lacks(s[1..], c) by {
        forall i | 0 <= i < |s[1..]|
          ensures s[1..][i] != c
        {
          assert s[1..][i] == s[i + 1];
        }
      }
      WithoutIdentity(s[1..], c);
      assert s == [s[0]] + s[1..];
    }
  }

  lemma {:induction false} LineBreaksIdentity(s: string)
    requires NoBreaks(s)
    ensures LineBreaks(s) == s
  {
    WithoutIdentity(s, '\n');
    WithoutIdentity(s, '\r');
    WithoutIdentity(s, '\t');
  }

  /** Removal works piece by piece. */
  lemma {:induction false} WithoutAppend(x: string, y: string, c: char)
    ensures Without(x + y, c) == Without(x, c) + Without(y, c)
    decreases |x|
  {
    if |x| == 0 {
      assert x + y == y;
    } else {
      assert (x + y)[1..] == x[1..] + y;
      WithoutAppend(x[1..], y, c);
      AppendAssoc(if x[0] == c then [] else [x[0]], Without(x[1..], c), Without(y, c));
    }
  }

  lemma {:induction false} LineBreaksAppend(x: string, y: string)
    ensures LineBreaks(x + y) == LineBreaks(x) + LineBreaks(y)
  {
    WithoutAppend(x, y, '\n');
    WithoutAppend(Without(x, '\n'), Without(y, '\n'), '\r');
    WithoutAppend(Without(Without(x, '\n'), '\r'), Without(Without(y, '\n'), '\r'), '\t');
  }

  /** The first character kept by a removal. */
  lemma {:induction false} WithoutHead(v: string, c: char)
    requires |v| > 0 && v[0] != c
    ensures Without(v, c) == [v[0]] + Without(v[1..], c)
  {
  }

  /** A removed character leaves the rest to the removal. */
  lemma {:induction false} WithoutSkip(v: string, c: char)
    requires |v| > 0 && v[0] == c
    ensures Without(v, c) == Without(v[1..], c)
  {
    assert Without(v, c) == [] + Without(v[1..], c);
  }

  /** Removing a whitespace character keeps a page free of leading whitespace. */
  lemma {:induction false} WithoutLead(x: string, c: char)
    requires IsSpace(c) && NoLeadingSpace(x)
    ensures NoLeadingSpace(Without(x, c))
  {
    if |x| > 0 {
      WithoutHead(x, c);
    }
  }

  /** Removing a whitespace character never makes two whitespace characters adjacent. */
  lemma {:induction false} WithoutNoDouble(x: string, c: char)
    requires IsSpace(c) && NoDoubleSpace(x)
    ensures NoDoubleSpace(Without(x, c))
    decreases |x|
  {
    if |x| > 0 {
      WithoutNoDouble(x[1..], c);
      if x[0] == c {
        WithoutSkip(x, c);
      } else {
        WithoutHead(x, c);
        if IsSpace(x[0]) && |x| > 1 {
          WithoutHead(x[1..], c);
        }
        NoDoubleSpaceCons(x[0], Without(x[1..], c));
      }
    }
  }

  /** Whitespace, then `<`. */
  predicate LtAhead(u: string)
  {
    WsRun(u) < |u| && u[WsRun(u)] == '<'
  }

  /** Whitespace-then-`<` behind one leading whitespace character. */
  lemma {:induction false} LtAheadCons(c: char, w: string)
    requires IsSpace(c)
    ensures LtAhead([c] + w) == LtAhead(w)
  {
    WsRunCons(c, w);
    if WsRun(w) < |w| {
      assert ([c] + w)[WsRun([c] + w)] == w[WsRun(w)];
    }
  }

  /** A removal of whitespace that leaves whitespace-then-`<` found it in the original. */
  lemma {:induction false} WithoutLtAhead(u: string, c: char)
    requires IsSpace(c) && LtAhead(Without(u, c))
    ensures LtAhead(u)
    decreases |u|
  {
    if u[0] == c {
      WithoutSkip(u, c);
      WithoutLtAhead(u[1..], c);
      LtAheadCons(u[0], u[1..]);
      assert [u[0]] + u[1..] == u;
    } else {
      WithoutHead(u, c);
      if IsSpace(u[0]) {
        LtAheadCons(u[0], Without(u[1..], c));
        WithoutLtAhead(u[1..], c);
        LtAheadCons(u[0], u[1..]);
        assert [u[0]] + u[1..] == u;
      }
    }
  }

  /** A removal of whitespace never makes a gap. */
  lemma {:induction false} GapWithout(u: string, c: char)
    requires IsSpace(c) && Gap(Without(u, c))
    ensures Gap(u)
  {
    WithoutLtAhead(u, c);
    if |u| > 0 && u[0] != c {
      WithoutHead(u, c);
    }
  }

  /** Removing a whitespace character keeps a page free of tag gaps. */
  lemma {:induction false} WithoutNoTagGap(x: string, c: char)
    requires IsSpace(c) && NoTagGap(x)
    ensures NoTagGap(Without(x, c))
    decreases |x|
  {
    if |x| > 0 {
      WithoutNoTagGap(x[1..], c);
      if x[0] == c {
        WithoutSkip(x, c);
      } else {
        WithoutHead(x, c);
        if Gap(Without(x[1..], c)) {
          GapWithout(x[1..], c);
        }
        NoTagGapCons(x[0], Without(x[1..], c));
      }
    }
  }

  /** What the whitespace stage leaves, removing a whitespace character keeps. */
  lemma {:induction false} WithoutKeeps(x: string, c: char)
    requires IsSpace(c)
    requires NoTagGap(x) && NoLeadingSpace(x) && NoDoubleSpace(x)
    ensures NoTagGap(Without(x, c)) && NoLeadingSpace(Without(x, c)) && NoDoubleSpace(Without(x, c))
  {
    WithoutNoTagGap(x, c);
    WithoutLead(x, c);
    WithoutNoDouble(x, c);
  }

  /** What the whitespace stage leaves, the line-break stage keeps. */
  lemma {:induction false} LineBreaksKeeps(x: string)
    requires NoTagGap(x) && NoLeadingSpace(x) && NoDoubleSpace(x)
    ensures NoTagGap(LineBreaks(x)) && NoLeadingSpace(LineBreaks(x)) && NoDoubleSpace(LineBreaks(x))
  {
    WithoutKeeps(x, '\n');
    WithoutKeeps(Without(x, '\n'), '\r');
    WithoutKeeps(Without(Without(x, '\n'), '\r'), '\t');
  }

  /** The whitespace stage, then the line-break stage, as the minifier runs them by default. */
  function Tidy(s: string): (r: string)
  {
    LineBreaks(Whitespace(s))
  }

  /** Everything the two stages promise holds together at the end. */
  lemma {:induction false} TidyClears(s: string)
    ensures NoTagGap(Tidy(s)) && NoLeadingSpace(Tidy(s)) && NoDoubleSpace(Tidy(s)) && NoBreaks(Tidy(s))
  {
    WhitespaceClears(s);
    LineBreaksKeeps(Whitespace(s));
    LineBreaksClears(Whitespace(s));
  }

  /** A page the whitespace stage has nothing to do on is left as it is. */
  lemma {:induction false} WhitespaceIdentity(s: string)
    requires NoTagGap(s) && NoLeadingSpace(s) && NoDoubleSpace(s)
    ensures Whitespace(s) == s
  {
    TagGapIdentity(s);
    LeadStripIdentity(s);
    SpaceRunsIdentity(s);
  }

  lemma {:induction false} WhitespaceIdempotent(s: string)
    ensures Whitespace(Whitespace(s)) == Whitespace(s)
  {
    WhitespaceClears(s);
    WhitespaceIdentity(Whitespace(s));
  }

  lemma {:induction false} LineBreaksIdempotent(s: string)
    ensures LineBreaks(LineBreaks(s)) == LineBreaks(s)
  {
    LineBreaksClears(s);
    LineBreaksIdentity(LineBreaks(s));
  }

  /** Running the two stages twice gives what running them once gives. */
  lemma {:induction false} TidyIdempotent(s: string)
    ensures Tidy(Tidy(s)) == Tidy(s)
  {
    TidyClears(s);
    WhitespaceIdentity(Tidy(s));
    LineBreaksIdentity(Tidy(s));
  }
}
