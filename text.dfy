/**
 * Label normalisation applied to the five key columns before grouping
 * (`clean_text` in utils.py): Unicode NFKC normalisation followed by
 * Python's `str.strip()`.
 *
 * NFKC itself lives in the Unicode database; this module models a small
 * part of it: the full-width ASCII forms (U+FF01..U+FF5E) and the
 * compatibility spaces, each of which NFKC maps to a single ASCII
 * character. Every other character is left as it is.
 */
module Text {

  /** Python's `str.isspace()`: the characters `str.strip()` removes. */
  predicate IsSpace(c: char) {
    || '\t' <= c <= '\r'
    || '\U{1C}' <= c <= '\U{1F}'
    || c == ' '
    || c == '\U{85}'
    || c == '\U{A0}'
    || c == '\U{1680}'
    || '\U{2000}' <= c <= '\U{200A}'
    || c == '\U{2028}' || c == '\U{2029}'
    || c == '\U{202F}' || c == '\U{205F}'
    || c == '\U{3000}'
  }

  /** Characters whose NFKC form is a different single character in this model. */
  predicate HasCompatMapping(c: char) {
    || '\U{FF01}' <= c <= '\U{FF5E}'
    || c == '\U{A0}'
    || '\U{2000}' <= c <= '\U{200A}'
    || c == '\U{202F}' || c == '\U{205F}'
    || c == '\U{3000}'
  }

  /** NFKC of one character: full-width forms become ASCII, compatibility spaces become U+0020. */
  function NormalizeChar(c: char): (d: char)
    ensures !HasCompatMapping(d)
    ensures !HasCompatMapping(c) ==> d == c
    ensures IsSpace(c) <==> IsSpace(d)
  {
    if '\U{FF01}' <= c <= '\U{FF5E}' then (c as int - 0xFEE0) as char
    else if HasCompatMapping(c) then ' '
    else c
  }

  predicate IsNormalized(s: string) {
    forall i :: 0 <= i < |s| ==> !HasCompatMapping(s[i])
  }

  /** `unicodedata.normalize("NFKC", s)`, restricted to the mappings above. */
  function Normalize(s: string): (r: string)
    ensures |r| == |s| && IsNormalized(r)
    ensures forall i :: 0 <= i < |s| ==> r[i] == NormalizeChar(s[i])
    ensures IsNormalized(s) ==> r == s
  {
    seq(|s|, i requires 0 <= i < |s| => NormalizeChar(s[i]))
  }

  /** Length of the longest all-whitespace prefix of `s`. */
  function Lead(s: string): (n: nat)
    ensures n <= |s|
    ensures forall i :: 0 <= i < n ==> IsSpace(s[i])
    ensures n < |s| ==> !IsSpace(s[n])
    decreases |s|
  {
    if |s| > 0 && IsSpace(s[0]) then 1 + Lead(s[1..]) else 0
  }

  /** `s.lstrip()`: drops the longest all-whitespace prefix. */
  function TrimStart(s: string): (r: string)
    ensures r == s[Lead(s)..]
    ensures |r| > 0 ==> !IsSpace(r[0])
  {
    s[Lead(s)..]
  }

  /** `s.rstrip()`: drops the longest all-whitespace suffix. */
  function TrimEnd(s: string): (r: string)
    ensures |r| <= |s| && r == s[..|r|]
    ensures forall i :: |r| <= i < |s| ==> IsSpace(s[i])
    ensures |r| > 0 ==> !IsSpace(r[|r| - 1])
    decreases |s|
  {
    if |s| > 0 && IsSpace(s[|s| - 1]) then TrimEnd(s[..|s| - 1]) else s
  }

  /**
   * `s.strip()`: the result is a contiguous piece of `s`, everything cut
   * off on either side is whitespace, and it neither starts nor ends with
   * whitespace.
   */
  function Strip(s: string): (r: string)
    ensures |r| > 0 ==> !IsSpace(r[0]) && !IsSpace(r[|r| - 1])
    ensures Lead(s) + |r| <= |s| && r == s[Lead(s)..Lead(s) + |r|]
    ensures forall i :: Lead(s) + |r| <= i < |s| ==> IsSpace(s[i])
  {
    var t := TrimStart(s);
    var r := TrimEnd(t);
    assert forall i :: Lead(s) + |r| <= i < |s| ==> s[i] == t[i - Lead(s)];
    r
  }

  /**
   * `clean_text` (utils.py:5-7): NFKC, then strip. The result is the
   * normalised text with only whitespace cut from either end, and it has no
   * whitespace left at either end.
   */
  function CleanText(s: string): (r: string)
    ensures IsNormalized(r)
    ensures |r| > 0 ==> !IsSpace(r[0]) && !IsSpace(r[|r| - 1])
    ensures exists a, b :: Normalize(s) == a + r + b && AllSpace(a) && AllSpace(b)
  {
    var n := Normalize(s);
    NormalizedSlice(n, Lead(n), Lead(n) + |Strip(n)|);
    StripParts(n);
    var front, back := n[..Lead(n)], n[Lead(n) + |Strip(n)|..];
    assert n == front + Strip(n) + back && AllSpace(front) && AllSpace(back);
    Strip(n)
  }

  lemma {:induction false} NormalizedSlice(s: string, lo: nat, hi: nat)
    requires IsNormalized(s) && lo <= hi <= |s|
    ensures IsNormalized(s[lo..hi])
  {
    assert forall i :: 0 <= i < hi - lo ==> s[lo..hi][i] == s[lo + i];
  }

  /** Stripping a string with no whitespace at either end changes nothing. */
  lemma {:induction false} StripKeepsTrimmed(t: string)
    requires |t| > 0 ==> !IsSpace(t[0]) && !IsSpace(t[|t| - 1])
    ensures Strip(t) == t
  {
    assert TrimStart(t) == t;
    assert TrimEnd(t) == t;
  }

  /** `clean_text` is idempotent: a cleaned label is its own cleaned form. */
  lemma {:induction false} CleanTextIdempotent(s: string)
    ensures CleanText(CleanText(s)) == CleanText(s)
  {
    var t := CleanText(s);
    assert Normalize(t) == t;
    StripKeepsTrimmed(t);
  }

  predicate AllSpace(s: string) {
    forall i :: 0 <= i < |s| ==> IsSpace(s[i])
  }

  /** Neither starts nor ends with whitespace. */
  predicate Trimmed(s: string) {
    |s| > 0 ==> !IsSpace(s[0]) && !IsSpace(s[|s| - 1])
  }

  /** A string splits in at most one way into whitespace, a trimmed core and whitespace. */
  lemma {:induction false} TrimmedCoreUnique(a: string, r: string, b: string, a': string, r': string, b': string)
    requires a + r + b == a' + r' + b'
    requires AllSpace(a) && AllSpace(b) && AllSpace(a') && AllSpace(b')
    requires Trimmed(r) && Trimmed(r')
    ensures r == r'
  {
    var s := a + r + b;
    assert forall i :: 0 <= i < |r| ==> s[|a| + i] == r[i];
    assert forall i :: 0 <= i < |r'| ==> s[|a'| + i] == r'[i];
    assert forall i :: 0 <= i < |a| ==> s[i] == a[i];
    assert forall i :: 0 <= i < |a'| ==> s[i] == a'[i];
    assert forall i :: 0 <= i < |b| ==> s[|a| + |r| + i] == b[i];
    assert forall i :: 0 <= i < |b'| ==> s[|a'| + |r'| + i] == b'[i];
    if |r| > 0 && |r'| > 0 {
      assert !IsSpace(s[|a|]) && !IsSpace(s[|a'|]);
      assert |a| == |a'|;
      assert !IsSpace(s[|a| + |r| - 1]) && !IsSpace(s[|a'| + |r'| - 1]);
      assert |r| == |r'|;
      assert r == s[|a|..|a| + |r|];
      assert r' == s[|a'|..|a'| + |r'|];
    }
  }

  /** `strip` returns the trimmed core of a string framed by whitespace. */
  lemma {:induction false} StripFramed(a: string, r: string, b: string)
    requires AllSpace(a) && AllSpace(b) && Trimmed(r)
    ensures Strip(a + r + b) == r
  {
    var s := a + r + b;
    var t := Strip(s);
    var n := Lead(s);
    var front, back := s[..n], s[n + |t|..];
    SplitAround(s, n, n + |t|);
    assert AllSpace(front) by {
      assert forall i :: 0 <= i < n ==> front[i] == s[i];
    }
    assert AllSpace(back) by {
      assert forall i :: 0 <= i < |back| ==> back[i] == s[n + |t| + i];
    }
    TrimmedCoreUnique(front, t, back, a, r, b);
  }

  lemma {:induction false} SplitAround(s: string, i: nat, j: nat)
    requires i <= j <= |s|
    ensures s == s[..i] + s[i..j] + s[j..]
  {
  }

  /** NFKC in this model works character by character, so it distributes over concatenation. */
  lemma {:induction false} NormalizeConcat(x: string, y: string)
    ensures Normalize(x + y) == Normalize(x) + Normalize(y)
  {
    var l, r := Normalize(x + y), Normalize(x) + Normalize(y);
    assert forall i :: 0 <= i < |x| ==> (x + y)[i] == x[i];
    assert forall i :: |x| <= i < |x| + |y| ==> (x + y)[i] == y[i - |x|];
    assert forall i :: 0 <= i < |l| ==> l[i] == r[i];
  }

  lemma {:induction false} Regroup(a: string, f: string, r: string, b: string, c: string)
    ensures a + (f + r + b) + c == (a + f) + r + (b + c)
  {
  }

  lemma {:induction false} AllSpaceConcat(x: string, y: string)
    requires AllSpace(x) && AllSpace(y)
    ensures AllSpace(x + y)
  {
    assert forall i :: |x| <= i < |x| + |y| ==> (x + y)[i] == y[i - |x|];
  }

  /** NFKC maps whitespace to whitespace. */
  lemma {:induction false} NormalizeAllSpace(s: string)
    requires AllSpace(s)
    ensures AllSpace(Normalize(s))
  {
  }

  /** A normalised string splits into its leading whitespace, its stripped core and its trailing whitespace. */
  lemma {:induction false} StripParts(n: string)
    ensures n == n[..Lead(n)] + Strip(n) + n[Lead(n) + |Strip(n)|..]
    ensures AllSpace(n[..Lead(n)]) && AllSpace(n[Lead(n) + |Strip(n)|..]) && Trimmed(Strip(n))
  {
    var lead, r := Lead(n), Strip(n);
    SplitAround(n, lead, lead + |r|);
    PrefixAllSpace(n, lead);
    SuffixAllSpace(n, lead + |r|);
  }

  lemma {:induction false} PrefixAllSpace(s: string, hi: nat)
    requires hi <= |s| && forall i :: 0 <= i < hi ==> IsSpace(s[i])
    ensures AllSpace(s[..hi])
  {
    assert forall i :: 0 <= i < hi ==> s[..hi][i] == s[i];
  }

  lemma {:induction false} SuffixAllSpace(s: string, lo: nat)
    requires lo <= |s| && forall i :: lo <= i < |s| ==> IsSpace(s[i])
    ensures AllSpace(s[lo..])
  {
    assert forall i :: 0 <= i < |s| - lo ==> s[lo..][i] == s[lo + i];
  }

  /** Stripping a core framed by two layers of whitespace on each side gives back the core. */
  lemma {:induction false} StripDoublyFramed(np: string, front: string, r: string, back: string, nq: string)
    requires AllSpace(np) && AllSpace(front) && AllSpace(back) && AllSpace(nq) && Trimmed(r)
    ensures Strip(np + (front + r + back) + nq) == r
  {
    AllSpaceConcat(np, front);
    AllSpaceConcat(back, nq);
    Regroup(np, front, r, back, nq);
    StripFramed(np + front, r, back + nq);
  }

  /**
   * Surrounding a label with whitespace does not change its cleaned form,
   * so padded and unpadded spellings of a key group together.
   */
  lemma {:induction false} CleanTextIgnoresPadding(p: string, s: string, q: string)
    requires AllSpace(p) && AllSpace(q)
    ensures CleanText(p + s + q) == CleanText(s)
  {
    var n := Normalize(s);
    NormalizeConcat(p, s);
    NormalizeConcat(p + s, q);
    NormalizeAllSpace(p);
    NormalizeAllSpace(q);
    StripParts(n);
    StripDoublyFramed(Normalize(p), n[..Lead(n)], Strip(n), n[Lead(n) + |Strip(n)|..], Normalize(q));
  }
}
