/**
 * The base64 pair that the HTML minifier uses to hide protected zones, and the
 * shape of the placeholder tokens built from it. PHP's `base64_encode` and
 * `base64_decode` are foreign calls: the model takes them as a pair of functions
 * and asks only what the minifier relies on.
 */
module Codec {

  datatype Base64 = Base64(encode: string -> string, decode: string -> string)

  /** The base64 output alphabet (RFC 4648, section 4): letters, digits, `+`, `/` and the pad `=`. */
  predicate IsBase64Char(c: char)
  {
    ('A' <= c <= 'Z') || ('a' <= c <= 'z') || ('0' <= c <= '9') || c == '+' || c == '/' || c == '='
  }

  /**
   * What the minifier relies on: decoding inverts encoding, a non-empty input
   * has a non-empty encoding, and every encoded character is in the alphabet
   * (so neither `_`, whitespace, `<`, `>`, `-` nor `]` ever appears in it).
   */
  ghost predicate Valid(b: Base64)
  {
    && (forall x :: b.decode(b.encode(x)) == x)
    && (forall x :: x != [] ==> b.encode(x) != [])
    && (forall x, i :: 0 <= i < |b.encode(x)| ==> IsBase64Char(b.encode(x)[i]))
  }

  /** Characters a placeholder token is made of: the base64 alphabet and `_`. */
  predicate IsInert(c: char)
  {
    IsBase64Char(c) || c == '_'
  }

  /**
   * A placeholder token: inert characters only, with `_` at both ends. Later
   * minifier stages look for whitespace, `<`, `>`, `-` and `]`; none occurs in
   * a token, and a token never joins its neighbours into a match.
   */
  predicate IsToken(t: string)
  {
    && |t| > 0
    && t[0] == '_'
    && t[|t| - 1] == '_'
    && forall i :: 0 <= i < |t| ==> IsInert(t[i])
  }

  /** `marker + encode(z) + marker` is a token whenever the marker is one. */
  lemma TokenOfEncoding(b: Base64, marker: string, z: string)
    requires Valid(b) && IsToken(marker)
    ensures IsToken(marker + b.encode(z) + marker)
  {
    var t := marker + b.encode(z) + marker;
    forall i | 0 <= i < |t|
      ensures IsInert(t[i])
    {
      if i < |marker| {
        assert t[i] == marker[i];
      } else if i < |marker| + |b.encode(z)| {
        assert t[i] == b.encode(z)[i - |marker|];
      } else {
        assert t[i] == marker[i - |marker| - |b.encode(z)|];
      }
    }
  }
}
