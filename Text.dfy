/**
 * String scanning primitives shared by the page cache and the minifiers.
 * A PHP string is modelled as `string` (one `char` per byte); every regular
 * expression of the cache is written as an explicit scanner built on `Find`
 * and `FindFrom`.
 */
module Text {

  datatype Option<T> = None | Some(value: T)

  /** `pat` occurs in `s` starting at index `i`. */
  predicate At(s: string, pat: string, i: nat)
    decreases |pat|
  {
    i + |pat| <= |s| && (|pat| == 0 || (s[i] == pat[0] && At(s, pat[1..], i + 1)))
  }

  /** `At` character by character. */
  lemma {:induction false} AtChars(s: string, pat: string, i: nat)
    ensures At(s, pat, i) <==> i + |pat| <= |s| && forall j :: 0 <= j < |pat| ==> s[i + j] == pat[j]
    decreases |pat|
  {
    if |pat| > 0 {
      AtChars(s, pat[1..], i + 1);
      if i + |pat| <= |s| && forall j :: 0 <= j < |pat| ==> s[i + j] == pat[j] {
        forall j | 0 <= j < |pat| - 1
          ensures s[i + 1 + j] == pat[1..][j]
        {
          assert s[i + (j + 1)] == pat[j + 1];
        }
      }
      if At(s, pat, i) {
        forall j | 0 <= j < |pat|
          ensures s[i + j] == pat[j]
        {
          if j > 0 {
            assert s[i + 1 + (j - 1)] == pat[1..][j - 1];
          }
        }
      }
    }
  }

  predicate HasPrefix(s: string, pat: string)
  {
    At(s, pat, 0)
  }

  /** Index of the first occurrence of `pat` in `s` (PHP `strpos`). */
  function Find(s: string, pat: string): (r: Option<nat>)
    ensures r.Some? ==> At(s, pat, r.value)
    ensures r.Some? ==> forall k: nat :: k < r.value ==> !At(s, pat, k)
    ensures r.None? ==> forall k: nat :: !At(s, pat, k)
  {
    FindFrom(s, pat, 0)
  }

  /** Index of the first occurrence of `pat` in `s` at or after `i` (PHP `strpos` with an offset). */
  function FindFrom(s: string, pat: string, i: nat): (r: Option<nat>)
    ensures r.Some? ==> i <= r.value && r.value + |pat| <= |s| && At(s, pat, r.value)
    ensures r.Some? ==> forall k: nat :: i <= k < r.value ==> !At(s, pat, k)
    ensures r.None? ==> forall k: nat :: i <= k ==> !At(s, pat, k)
    decreases |s| - i
  {
    if i + |pat| > |s| then None
    else if At(s, pat, i) then Some(i)
    else FindFrom(s, pat, i + 1)
  }

  predicate Contains(s: string, pat: string)
  {
    Find(s, pat).Some?
  }

  /** Any occurrence at or after `i` with no earlier one from `i` on is what `FindFrom` returns. */
  lemma FindFromIsFirst(s: string, pat: string, i: nat, j: nat)
    requires i <= j && At(s, pat, j)
    requires forall k: nat :: i <= k < j ==> !At(s, pat, k)
    ensures FindFrom(s, pat, i) == Some(j)
  {
  }

  /** Any occurrence with no earlier one is what `Find` returns. */
  lemma FindIsFirst(s: string, pat: string, j: nat)
    requires At(s, pat, j)
    requires forall k: nat :: k < j ==> !At(s, pat, k)
    ensures Find(s, pat) == Some(j)
  {
  }

  /** An occurrence inside a prefix is an occurrence of the whole string. */
  lemma AtPrefix(s: string, n: nat, pat: string, k: nat)
    requires n <= |s|
    ensures At(s[..n], pat, k) <==> k + |pat| <= n && At(s, pat, k)
  {
    AtSlice(s, 0, n, pat, k);
    assert s[0..n] == s[..n];
  }

  /** Occurrences in a suffix are occurrences of the whole string, shifted. */
  lemma AtSuffix(s: string, n: nat, pat: string, k: nat)
    requires n <= |s|
    ensures At(s[n..], pat, k) <==> At(s, pat, n + k)
  {
    AtSlice(s, n, |s|, pat, k);
    assert s[n..|s|] == s[n..];
  }

  /** Occurrences of `x + y` that lie inside `x` are those of `x`. */
  lemma AtLeft(x: string, y: string, pat: string, k: nat)
    ensures k + |pat| <= |x| ==> (At(x + y, pat, k) <==> At(x, pat, k))
  {
    AtSlice(x + y, 0, |x|, pat, k);
    assert (x + y)[0..|x|] == x;
  }

  /** Occurrences of `x + y` that start after `x` are those of `y`, shifted. */
  lemma AtRight(x: string, y: string, pat: string, k: nat)
    ensures At(x + y, pat, |x| + k) <==> At(y, pat, k)
  {
    AtSlice(x + y, |x|, |x + y|, pat, k);
    assert (x + y)[|x|..|x + y|] == y;
  }

  /** Occurrences inside a slice are occurrences of the whole string, shifted. */
  lemma AtSlice(s: string, i: nat, e: nat, pat: string, k: nat)
    requires i <= e <= |s|
    ensures At(s[i..e], pat, k) <==> k + |pat| <= e - i && At(s, pat, i + k)
  {
    AtChars(s[i..e], pat, k);
    AtChars(s, pat, i + k);
    if k + |pat| <= e - i && At(s, pat, i + k) {
      forall j | 0 <= j < |pat|
        ensures s[i..e][k + j] == pat[j]
      {
        assert s[i..e][k + j] == s[i + k + j];
      }
    }
    if At(s[i..e], pat, k) {
      forall j | 0 <= j < |pat|
        ensures s[i + k + j] == pat[j]
      {
        assert s[i..e][k + j] == s[i + k + j];
      }
    }
  }

  /** A pattern occurs where it is placed. */
  lemma AtPlaced(x: string, pat: string, y: string)
    ensures At(x + pat + y, pat, |x|)
  {
    AtChars(pat, pat, 0);
    AtLeft(pat, y, pat, 0);
    assert x + pat + y == x + (pat + y);
    AtRight(x, pat + y, pat, 0);
  }

  /** `r` is a prefix of `p` exactly when it is `p` cut to its length. */
  lemma PrefixOfIs(p: string, r: string)
    ensures HasPrefix(p, r) <==> |r| <= |p| && p[..|r|] == r
  {
    AtChars(p, r, 0);
    if |r| <= |p| && p[..|r|] == r {
      forall j | 0 <= j < |r|
        ensures p[0 + j] == r[j]
      {
        assert p[..|r|][j] == p[j];
      }
    }
  }

  /**
   * Appending to `r` does not change whether it starts with `pat` once `r`
   * is long enough, already differs from `pat`, or is followed by a
   * character `pat` does not have there.
   */
  lemma PrefixAppend(r: string, z: string, pat: string)
    requires |pat| <= |r| || !HasPrefix(pat, r) || (|z| > 0 && z[0] != pat[|r|])
    ensures HasPrefix(r + z, pat) <==> HasPrefix(r, pat)
  {
    AtLeft(r, z, pat, 0);
    if |r| < |pat| {
      AtChars(r + z, pat, 0);
      if !HasPrefix(pat, r) {
        AtChars(pat, r, 0);
        if |r| <= |pat| {
          var k :| 0 <= k < |r| && pat[0 + k] != r[k];
          assert (r + z)[0 + k] == r[k];
        }
      } else {
        assert (r + z)[0 + |r|] == z[0];
      }
    }
  }

  /** No occurrence of `pat` can start at a character that differs from its first one. */
  lemma NoStartAt(s: string, pat: string, k: nat)
    requires |pat| > 0 && k < |s| && s[k] != pat[0]
    ensures !At(s, pat, k)
  {
  }

  /** The first occurrence from `i` on is found again after anything is appended. */
  lemma FindFromAppend(x: string, y: string, pat: string, i: nat)
    requires FindFrom(x, pat, i).Some?
    ensures FindFrom(x + y, pat, i) == FindFrom(x, pat, i)
  {
    var j := FindFrom(x, pat, i).value;
    AtLeft(x, y, pat, j);
    forall k: nat | i <= k < j
      ensures !At(x + y, pat, k)
    {
      AtLeft(x, y, pat, k);
    }
    FindFromIsFirst(x + y, pat, i, j);
  }

  /** The first occurrence is found again after anything is appended. */
  lemma FindAppend(x: string, y: string, pat: string)
    requires Find(x, pat).Some?
    ensures Find(x + y, pat) == Find(x, pat)
  {
    FindFromAppend(x, y, pat, 0);
  }

  /** A search that starts after `x` sees only `y`. */
  lemma FindFromRight(x: string, y: string, pat: string, k: nat)
    ensures FindFrom(x + y, pat, |x| + k) == (match FindFrom(y, pat, k)
                                             case None => None
                                             case Some(j) => Some(|x| + j))
  {
    match FindFrom(y, pat, k)
    case None =>
      forall n: nat | |x| + k <= n
        ensures !At(x + y, pat, n)
      {
        AtRight(x, y, pat, n - |x|);
      }
    case Some(j) =>
      AtRight(x, y, pat, j);
      forall n: nat | |x| + k <= n < |x| + j
        ensures !At(x + y, pat, n)
      {
        AtRight(x, y, pat, n - |x|);
      }
      FindFromIsFirst(x + y, pat, |x| + k, |x| + j);
  }

  /** If no occurrence starts inside `x`, the first one of `x + y` is that of `y`, shifted. */
  lemma FindShift(x: string, y: string, pat: string)
    requires forall k: nat :: k < |x| ==> !At(x + y, pat, k)
    ensures Find(x + y, pat) == (match Find(y, pat)
                                 case None => None
                                 case Some(j) => Some(|x| + j))
  {
    FindFromRight(x, y, pat, 0);
    match FindFrom(x + y, pat, |x|)
    case None =>
    case Some(j) =>
      FindFromIsFirst(x + y, pat, 0, j);
  }

  /** A first occurrence that ends within a prefix is the first occurrence of that prefix. */
  lemma FindFromPrefix(s: string, n: nat, pat: string, i: nat)
    requires n <= |s| && FindFrom(s, pat, i).Some? && FindFrom(s, pat, i).value + |pat| <= n
    ensures FindFrom(s[..n], pat, i) == FindFrom(s, pat, i)
  {
    var j := FindFrom(s, pat, i).value;
    AtPrefix(s, n, pat, j);
    forall k: nat | i <= k < j
      ensures !At(s[..n], pat, k)
    {
      AtPrefix(s, n, pat, k);
    }
    FindFromIsFirst(s[..n], pat, i, j);
  }

  /** A search from `n` on in `s` is a search of `s[n..]`, shifted. */
  lemma FindFromSuffix(s: string, n: nat, pat: string, k: nat)
    requires n <= |s|
    ensures FindFrom(s, pat, n + k) == (match FindFrom(s[n..], pat, k)
                                        case None => None
                                        case Some(j) => Some(n + j))
  {
    assert s == s[..n] + s[n..];
    FindFromRight(s[..n], s[n..], pat, k);
  }

  /** A search inside a slice that ends after the occurrence finds it, shifted. */
  lemma FindFromSlice(s: string, i: nat, e: nat, pat: string, k: nat)
    requires i <= e <= |s|
    requires FindFrom(s, pat, i + k).Some? && FindFrom(s, pat, i + k).value + |pat| <= e
    ensures FindFrom(s[i..e], pat, k) == Some(FindFrom(s, pat, i + k).value - i)
  {
    var j := FindFrom(s, pat, i + k).value;
    AtSlice(s, i, e, pat, j - i);
    forall n: nat | k <= n < j - i
      ensures !At(s[i..e], pat, n)
    {
      AtSlice(s, i, e, pat, n);
    }
    FindFromIsFirst(s[i..e], pat, k, j - i);
  }

  /** ASCII case folding, as PCRE applies it under the `i` flag. */
  function LowerChar(c: char): (res: char)
  {
    if 'A' <= c <= 'Z' then (c as int + 32) as char else c
  }

  function Lower(s: string): (r: string)
    ensures |r| == |s|
  {
    if s == [] then [] else [LowerChar(s[0])] + Lower(s[1..])
  }

  lemma {:induction false} LowerIndex(s: string)
    ensures forall i :: 0 <= i < |s| ==> Lower(s)[i] == LowerChar(s[i])
  {
    if s != [] {
      LowerIndex(s[1..]);
      forall i | 0 < i < |s|
        ensures Lower(s)[i] == LowerChar(s[i])
      {
        assert Lower(s)[i] == Lower(s[1..])[i - 1];
        assert s[1..][i - 1] == s[i];
      }
    }
  }

  /** Folding a slice is slicing the folded string. */
  lemma {:induction false} LowerSlice(s: string, i: nat, e: nat)
    requires i <= e <= |s|
    ensures Lower(s[i..e]) == Lower(s)[i..e]
  {
    LowerIndex(s);
    LowerIndex(s[i..e]);
  }

  lemma {:induction false} LowerAppend(a: string, b: string)
    ensures Lower(a + b) == Lower(a) + Lower(b)
  {
    LowerIndex(a);
    LowerIndex(b);
    LowerIndex(a + b);
  }

  /** Whitespace as PCRE's `\s` (space, tab, line feed, vertical tab, form feed, carriage return). */
  predicate IsSpace(c: char)
  {
    c == ' ' || c == '\t' || c == '\n' || c == '\r' || c == 11 as char || c == 12 as char
  }

  lemma AppendAssoc(a: string, b: string, c: string)
    ensures a + (b + c) == (a + b) + c
  {
  }

  /** Dropping a prefix of `x` from `x + z`. */
  lemma SuffixAppend(x: string, z: string, n: nat)
    requires n <= |x|
    ensures (x + z)[n..] == x[n..] + z
  {
  }

  /** Length of the run of whitespace at the start of `s`. */
  function WsRun(s: string): (n: nat)
    ensures n <= |s|
    ensures n < |s| ==> !IsSpace(s[n])
    decreases |s|
  {
    if |s| > 0 && IsSpace(s[0]) then 1 + WsRun(s[1..]) else 0
  }

  /** Every character of the run is whitespace. */
  lemma {:induction false} WsRunSpaces(s: string)
    ensures forall i :: 0 <= i < WsRun(s) ==> IsSpace(s[i])
    decreases |s|
  {
    if |s| > 0 && IsSpace(s[0]) {
      WsRunSpaces(s[1..]);
      forall i | 0 <= i < WsRun(s)
        ensures IsSpace(s[i])
      {
        if i > 0 {
          assert s[i] == s[1..][i - 1];
        }
      }
    }
  }

  /** The run is determined by where the first non-whitespace character sits. */
  lemma {:induction false} WsRunIs(s: string, n: nat)
    requires n <= |s|
    requires forall i :: 0 <= i < n ==> IsSpace(s[i])
    requires n < |s| ==> !IsSpace(s[n])
    ensures WsRun(s) == n
    decreases n
  {
    if n > 0 {
      assert IsSpace(s[0]);
      forall i | 0 <= i < n - 1
        ensures IsSpace(s[1..][i])
      {
        assert s[1..][i] == s[i + 1];
      }
      WsRunIs(s[1..], n - 1);
    }
  }

  /** The whitespace run of `x + y` stops inside `x` unless `x` is all whitespace. */
  lemma WsRunAppend(x: string, y: string)
    ensures WsRun(x + y) == if WsRun(x) < |x| then WsRun(x) else |x| + WsRun(y)
  {
    var n := WsRun(x);
    WsRunSpaces(x);
    if n < |x| {
      WsRunIs(x + y, n);
    } else {
      var m := WsRun(y);
      WsRunSpaces(y);
      forall i | 0 <= i < n + m
        ensures IsSpace((x + y)[i])
      {
        if i >= n {
          assert (x + y)[i] == y[i - n];
        }
      }
      WsRunIs(x + y, n + m);
    }
  }
}
