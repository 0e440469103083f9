/** Character and string helpers the back end relies on: Python's `str.strip()`,
    ASCII decimal digits, and the code-point lexicographic order Python uses
    when it compares two strings. */
module Text {

  /** Python's `str.isspace()`: the characters `str.strip()` removes. */
  predicate IsSpace(c: char) {
    || ('\t' <= c <= '\r')
    || ('\U{1C}' <= c <= '\U{1F}')
    || c == ' '
    || c == '\U{85}'
    || c == '\U{A0}'
    || c == '\U{1680}'
    || ('\U{2000}' <= c <= '\U{200A}')
    || c == '\U{2028}'
    || c == '\U{2029}'
    || c == '\U{202F}'
    || c == '\U{205F}'
    || c == '\U{3000}'
  }

  /** Drops leading whitespace: the result is a suffix of `s`, everything
      dropped is whitespace, and the result does not start with whitespace. */
  function TrimStart(s: string): (r: string)
    ensures |r| <= |s| && r == s[|s| - |r|..]
    ensures forall i :: 0 <= i < |s| - |r| ==> IsSpace(s[i])
    ensures r == [] || !IsSpace(r[0])
  {
    if s != [] && IsSpace(s[0]) then TrimStart(s[1..]) else s
  }

  /** Drops trailing whitespace: the result is a prefix of `s`, everything
      dropped is whitespace, and the result does not end with whitespace. */
  function TrimEnd(s: string): (r: string)
    ensures |r| <= |s| && r == s[..|r|]
    ensures forall i :: |r| <= i < |s| ==> IsSpace(s[i])
    ensures r == [] || !IsSpace(r[|r| - 1])
  {
    if s != [] && IsSpace(s[|s| - 1]) then TrimEnd(s[..|s| - 1]) else s
  }

  /** Text that neither starts nor ends with whitespace. */
  predicate Trimmed(s: string) {
    s == [] || (!IsSpace(s[0]) && !IsSpace(s[|s| - 1]))
  }

  /** `r` is a middle part of `s` with nothing but whitespace around it. */
  predicate IsStripOf(r: string, s: string) {
    exists a, b :: && 0 <= a <= b <= |s| && r == s[a..b]
                   && (forall i :: 0 <= i < a ==> IsSpace(s[i]))
                   && (forall i :: b <= i < |s| ==> IsSpace(s[i]))
  }

  /** Python's `s.strip()` with no argument: only the surrounding whitespace
      is removed, and all of it. */
  function Strip(s: string): (r: string)
    ensures IsStripOf(r, s)
    ensures Trimmed(r)
  {
    TrimBothIsStrip(s);
    TrimEnd(TrimStart(s))
  }

  lemma TrimBothIsStrip(s: string)
    ensures IsStripOf(TrimEnd(TrimStart(s)), s)
  {
    var a, b := StripBounds(s);
  }

  /** Where the strip of `s` sits: after the leading whitespace, and
      followed only by whitespace. */
  lemma StripBounds(s: string) returns (a: int, b: int)
    ensures 0 <= a <= b <= |s| && TrimEnd(TrimStart(s)) == s[a..b]
    ensures forall i :: 0 <= i < a ==> IsSpace(s[i])
    ensures forall i :: b <= i < |s| ==> IsSpace(s[i])
  {
    a, b := MiddleBounds(s, TrimStart(s), TrimEnd(TrimStart(s)));
  }

  /** A prefix `r` of a suffix `t` of `s` is a slice of `s`, and what lies
      around it in `s` is what was dropped on either side. */
  lemma MiddleBounds(s: string, t: string, r: string) returns (a: int, b: int)
    requires |t| <= |s| && t == s[|s| - |t|..] && |r| <= |t| && r == t[..|r|]
    requires forall i :: 0 <= i < |s| - |t| ==> IsSpace(s[i])
    requires forall i :: |r| <= i < |t| ==> IsSpace(t[i])
    ensures 0 <= a <= b <= |s| && r == s[a..b]
    ensures forall i :: 0 <= i < a ==> IsSpace(s[i])
    ensures forall i :: b <= i < |s| ==> IsSpace(s[i])
  {
    a, b := |s| - |t|, |s| - |t| + |r|;
    PrefixOfSuffix(s, a, |r|);
    forall i | b <= i < |s| ensures IsSpace(s[i]) {
      assert s[i] == t[i - a];
    }
  }

  /** The first `k` characters of the suffix from `a` are the slice from
      `a` to `a + k`. */
  lemma PrefixOfSuffix(s: string, a: int, k: int)
    requires 0 <= a && 0 <= k && a + k <= |s|
    ensures s[a..][..k] == s[a..a + k]
  {
    forall i | 0 <= i < k ensures s[a..][..k][i] == s[a..a + k][i] {
      assert s[a..][i] == s[a + i];
    }
  }

  /** The strip is the only trimmed middle part with whitespace around it:
      `Strip` is pinned down by its two postconditions. */
  lemma StripUnique(r: string, s: string)
    requires IsStripOf(r, s) && Trimmed(r)
    ensures r == Strip(s)
  {
    var a, b :| && 0 <= a <= b <= |s| && r == s[a..b]
                && (forall i :: 0 <= i < a ==> IsSpace(s[i]))
                && (forall i :: b <= i < |s| ==> IsSpace(s[i]));
    var c, d := StripBounds(s);
    SameMiddle(s, a, b, c, d);
  }

  /** Two trimmed middle parts of `s`, each with only whitespace around it,
      are the same part. */
  lemma SameMiddle(s: string, a: int, b: int, c: int, d: int)
    requires 0 <= a <= b <= |s| && 0 <= c <= d <= |s|
    requires forall i :: 0 <= i < a ==> IsSpace(s[i])
    requires forall i :: b <= i < |s| ==> IsSpace(s[i])
    requires forall i :: 0 <= i < c ==> IsSpace(s[i])
    requires forall i :: d <= i < |s| ==> IsSpace(s[i])
    requires Trimmed(s[a..b]) && Trimmed(s[c..d])
    ensures s[a..b] == s[c..d]
  {
    if a < b {
      assert !IsSpace(s[a]) && !IsSpace(s[b - 1]) by {
        assert s[a..b][0] == s[a] && s[a..b][b - a - 1] == s[b - 1];
      }
    }
    if c < d {
      assert !IsSpace(s[c]) && !IsSpace(s[d - 1]) by {
        assert s[c..d][0] == s[c] && s[c..d][d - c - 1] == s[d - 1];
      }
    }
  }

  /** A string that neither starts nor ends with whitespace is its own strip. */
  lemma StripOfTrimmed(s: string)
    requires Trimmed(s)
    ensures Strip(s) == s
  {
  }

  /** Stripping twice is stripping once. */
  lemma StripIdempotent(s: string)
    ensures Strip(Strip(s)) == Strip(s)
  {
    StripOfTrimmed(Strip(s));
  }

  /** A stripped string is empty exactly when the input was all whitespace. */
  lemma StripEmptyIffBlank(s: string)
    ensures Strip(s) == [] <==> forall i :: 0 <= i < |s| ==> IsSpace(s[i])
  {
    var t := TrimStart(s);
    if Strip(s) == [] {
      assert t == [];
    }
  }

  predicate IsDigit(c: char) {
    '0' <= c <= '9'
  }

  predicate AllDigits(s: string) {
    forall i :: 0 <= i < |s| ==> IsDigit(s[i])
  }

  /** The number a run of decimal digits denotes (Python's `int()` on it). */
  function DigitsValue(s: string): (n: nat)
    requires AllDigits(s)
    ensures n < Power10(|s|)
  {
    if s == [] then 0
    else DigitsValue(s[..|s| - 1]) * 10 + (s[|s| - 1] - '0') as int
  }

  /** Appending one digit multiplies the value by ten and adds the digit. */
  lemma DigitsValueSnoc(t: string, k: nat)
    requires AllDigits(t) && k < |t|
    ensures DigitsValue(t[..k + 1]) == DigitsValue(t[..k]) * 10 + (t[k] - '0') as int
  {
    assert t[..k + 1][..k] == t[..k];
  }

  function Power10(k: nat): (p: nat)
    ensures p >= 1
  {
    if k == 0 then 1 else 10 * Power10(k - 1)
  }

  /** Python's `a < b` on `str`: code-point lexicographic order, a proper
      prefix sorting first. */
  predicate StrLess(a: string, b: string) {
    if a == [] then b != []
    else if b == [] then false
    else if a[0] != b[0] then a[0] < b[0]
    else StrLess(a[1..], b[1..])
  }

  lemma {:induction false} StrLessIrreflexive(a: string)
    ensures !StrLess(a, a)
  {
    if a != [] {
      StrLessIrreflexive(a[1..]);
    }
  }

  lemma {:induction false} StrLessTransitive(a: string, b: string, c: string)
    requires StrLess(a, b) && StrLess(b, c)
    ensures StrLess(a, c)
  {
    if a != [] && b != [] && c != [] && a[0] == b[0] && b[0] == c[0] {
      StrLessTransitive(a[1..], b[1..], c[1..]);
    }
  }

  /** Any two strings are equal or ordered one way or the other. */
  lemma {:induction false} StrLessTotal(a: string, b: string)
    ensures a == b || StrLess(a, b) || StrLess(b, a)
  {
    if a != [] && b != [] && a[0] == b[0] {
      StrLessTotal(a[1..], b[1..]);
      if a[1..] == b[1..] {
        assert a == [a[0]] + a[1..] && b == [b[0]] + b[1..];
      }
    }
  }

  lemma {:induction false} StrLessAsymmetric(a: string, b: string)
    requires StrLess(a, b)
    ensures !StrLess(b, a)
  {
    if StrLess(b, a) {
      StrLessTransitive(a, b, a);
      StrLessIrreflexive(a);
    }
  }
}
