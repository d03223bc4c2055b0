/**
 * The string operations the join relies on: Python's `str.strip()` and the
 * case folding done by `str.lower()` / `str.upper()`, restricted to ASCII.
 */
module Text {

  /** Python's `str.isspace()`: ASCII whitespace, the separator controls and the Unicode spaces. */
  predicate IsSpace(c: char) {
    || c == ' '
    || ('\t' <= c <= '\r')
    || ('\U{1c}' <= c <= '\U{1f}')
    || c == '\U{85}' || c == '\U{a0}' || c == '\U{1680}'
    || ('\U{2000}' <= c <= '\U{200a}')
    || c == '\U{2028}' || c == '\U{2029}' || c == '\U{202f}' || c == '\U{205f}' || c == '\U{3000}'
  }

  /** `s.lstrip()`: drops leading whitespace and nothing else. */
  function StripStart(s: string): (r: string)
    ensures |r| <= |s|
  {
    if s != [] && IsSpace(s[0]) then StripStart(s[1..]) else s
  }

  /** `s.rstrip()`: drops trailing whitespace and nothing else. */
  function StripEnd(s: string): (r: string)
    ensures |r| <= |s|
  {
    if s != [] && IsSpace(s[|s| - 1]) then StripEnd(s[..|s| - 1]) else s
  }

  /** `lstrip()` keeps a suffix, removes only whitespace, and leaves no leading whitespace. */
  lemma {:induction false} StripStartShape(s: string)
    ensures StripStart(s) == s[|s| - |StripStart(s)|..]
    ensures StripStart(s) == [] || !IsSpace(StripStart(s)[0])
    ensures forall k :: 0 <= k < |s| - |StripStart(s)| ==> IsSpace(s[k])
  {
    if s != [] && IsSpace(s[0]) {
      StripStartShape(s[1..]);
    }
  }

  /** `rstrip()` keeps a prefix, removes only whitespace, and leaves no trailing whitespace. */
  lemma {:induction false} StripEndShape(s: string)
    ensures StripEnd(s) == s[..|StripEnd(s)|]
    ensures StripEnd(s) == [] || !IsSpace(StripEnd(s)[|StripEnd(s)| - 1])
    ensures forall k :: |StripEnd(s)| <= k < |s| ==> IsSpace(s[k])
  {
    if s != [] && IsSpace(s[|s| - 1]) {
      StripEndShape(s[..|s| - 1]);
    }
  }

  /** How many whitespace characters `strip()` removes from the front of `s`. */
  function LeadingSpaces(s: string): nat {
    |s| - |StripStart(s)|
  }

  /** `s.strip()`: whitespace removed at both ends. */
  function Strip(s: string): (r: string)
    ensures |r| <= |s|
  {
    StripEnd(StripStart(s))
  }

  /**
   * `strip()` returns the slice of `s` left once the whitespace at both
   * ends is removed; the slice itself neither starts nor ends with
   * whitespace.
   */
  lemma StripShape(s: string)
    ensures Strip(s) == [] || (!IsSpace(Strip(s)[0]) && !IsSpace(Strip(s)[|Strip(s)| - 1]))
    ensures LeadingSpaces(s) + |Strip(s)| <= |s|
    ensures Strip(s) == s[LeadingSpaces(s)..LeadingSpaces(s) + |Strip(s)|]
    ensures forall k :: 0 <= k < LeadingSpaces(s) ==> IsSpace(s[k])
    ensures forall k :: LeadingSpaces(s) + |Strip(s)| <= k < |s| ==> IsSpace(s[k])
  {
    StripStartShape(s);
    StripEndShape(StripStart(s));
    TrimmedSlice(s, StripStart(s), Strip(s), LeadingSpaces(s));
  }

  /**
   * Cutting `n` leading characters off `s` to get `t`, then keeping a prefix
   * `r` of `t`, leaves the slice `s[n..n + |r|]`; what `r` drops from `t`
   * sits at the end of `s`.
   */
  lemma TrimmedSlice(s: string, t: string, r: string, n: nat)
    requires n <= |s| && t == s[n..] && |r| <= |t| && r == t[..|r|]
    requires t == [] || !IsSpace(t[0])
    requires r == [] || !IsSpace(r[|r| - 1])
    requires forall k :: |r| <= k < |t| ==> IsSpace(t[k])
    ensures r == [] || (!IsSpace(r[0]) && !IsSpace(r[|r| - 1]))
    ensures n + |r| <= |s| && r == s[n..n + |r|]
    ensures forall k :: n + |r| <= k < |s| ==> IsSpace(s[k])
  {
    assert s[n..][..|r|] == s[n..n + |r|];
    if r != [] {
      assert r[0] == t[0];
    }
    forall k | n + |r| <= k < |s|
      ensures IsSpace(s[k])
    {
      assert s[k] == t[k - n];
    }
  }

  /** A string that neither starts nor ends with whitespace is left alone by `strip()`. */
  lemma StripTrimmed(s: string)
    requires s == [] || (!IsSpace(s[0]) && !IsSpace(s[|s| - 1]))
    ensures Strip(s) == s
  {
  }

  /** `strip()` is idempotent. */
  lemma StripIdempotent(s: string)
    ensures Strip(Strip(s)) == Strip(s)
  {
    StripShape(s);
    StripTrimmed(Strip(s));
  }

  predicate IsAsciiUpper(c: char) {
    'A' <= c <= 'Z'
  }

  predicate IsAsciiLower(c: char) {
    'a' <= c <= 'z'
  }

  /** One character of `lower()`: a capital letter becomes its small letter; anything else is kept. */
  function LowerChar(c: char): (l: char)
    ensures !IsAsciiUpper(l)
    ensures IsAsciiLower(l) <==> IsAsciiUpper(c) || IsAsciiLower(c)
    ensures !IsAsciiUpper(c) ==> l == c
    ensures IsAsciiUpper(c) ==> l as int - 'a' as int == c as int - 'A' as int
  {
    if IsAsciiUpper(c) then (c as int + 32) as char else c
  }

  /** One character of `upper()`: a small letter becomes its capital letter; anything else is kept. */
  function UpperChar(c: char): (u: char)
    ensures !IsAsciiLower(u)
    ensures IsAsciiUpper(u) <==> IsAsciiUpper(c) || IsAsciiLower(c)
    ensures !IsAsciiLower(c) ==> u == c
    ensures IsAsciiLower(c) ==> u as int - 'A' as int == c as int - 'a' as int
  {
    if IsAsciiLower(c) then (c as int - 32) as char else c
  }

  /**
   * `s.lower()` with ASCII case mapping: each capital letter becomes the
   * same letter in small form and every other character is kept.
   */
  function Lower(s: string): (l: string)
    ensures |l| == |s| && forall i :: 0 <= i < |l| ==> !IsAsciiUpper(l[i])
    ensures forall i :: 0 <= i < |s| ==>
      if IsAsciiUpper(s[i]) then l[i] as int - 'a' as int == s[i] as int - 'A' as int else l[i] == s[i]
  {
    seq(|s|, i requires 0 <= i < |s| => LowerChar(s[i]))
  }

  /**
   * `s.upper()` with ASCII case mapping: each small letter becomes the
   * same letter in capital form and every other character is kept.
   */
  function Upper(s: string): (u: string)
    ensures |u| == |s| && forall i :: 0 <= i < |u| ==> !IsAsciiLower(u[i])
    ensures forall i :: 0 <= i < |s| ==>
      if IsAsciiLower(s[i]) then u[i] as int - 'A' as int == s[i] as int - 'a' as int else u[i] == s[i]
  {
    seq(|s|, i requires 0 <= i < |s| => UpperChar(s[i]))
  }

  lemma SameLowerCharIffSameUpperChar(a: char, b: char)
    ensures LowerChar(a) == LowerChar(b) <==> UpperChar(a) == UpperChar(b)
  {
  }

  /**
   * Comparing lower-cased forms and comparing upper-cased forms are the same
   * test: case-insensitive equality.
   */
  lemma SameLowerIffSameUpper(a: string, b: string)
    ensures Lower(a) == Lower(b) <==> Upper(a) == Upper(b)
  {
    if |a| == |b| {
      forall i | 0 <= i < |a|
        ensures Lower(a)[i] == Lower(b)[i] <==> Upper(a)[i] == Upper(b)[i]
      {
        SameLowerCharIffSameUpperChar(a[i], b[i]);
      }
      if Lower(a) == Lower(b) {
        assert forall i :: 0 <= i < |a| ==> Upper(a)[i] == Upper(b)[i];
      }
      if Upper(a) == Upper(b) {
        assert forall i :: 0 <= i < |a| ==> Lower(a)[i] == Lower(b)[i];
      }
    } else {
      assert |Lower(a)| != |Lower(b)| && |Upper(a)| != |Upper(b)|;
    }
  }

  /** `upper()` is idempotent. */
  lemma UpperIdempotent(s: string)
    ensures Upper(Upper(s)) == Upper(s)
  {
  }

  /**
   * A key normalised as `s.strip().upper()` is a fixed point of that
   * normalisation: upper-casing never turns a character into whitespace or
   * whitespace into something else.
   */
  lemma NormalisedKeyIsFixed(s: string)
    ensures Upper(Strip(Upper(Strip(s)))) == Upper(Strip(s))
  {
    var k := Upper(Strip(s));
    StripShape(s);
    assert k == [] || (!IsSpace(k[0]) && !IsSpace(k[|k| - 1]));
    StripTrimmed(k);
    UpperIdempotent(Strip(s));
  }
}
