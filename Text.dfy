/**
 * The few Python string operations the parser relies on: `str.strip()`, `str.replace` of one
 * character, the substring test `sub in s`, reversal, and ASCII decimal digits.
 */
module Text {

  /** Whitespace as `str.strip()` and the regular-expression class `\s` see it (`str.isspace`). */
  predicate IsSpace(c: char) {
    ('\t' <= c <= '\r') || ('\U{1C}' <= c <= ' ') || c == '\U{85}' || c == '\U{A0}' ||
    c == '\U{1680}' || ('\U{2000}' <= c <= '\U{200A}') || c == '\U{2028}' || c == '\U{2029}' ||
    c == '\U{202F}' || c == '\U{205F}' || c == '\U{3000}'
  }

  predicate AllSpace(s: string) {
    forall i :: 0 <= i < |s| ==> IsSpace(s[i])
  }

  predicate IsDigit(c: char) {
    '0' <= c <= '9'
  }

  predicate AllDigits(s: string) {
    forall i :: 0 <= i < |s| ==> IsDigit(s[i])
  }

  function DigitValue(c: char): (d: nat)
    requires IsDigit(c)
    ensures d < 10
  {
    (c - '0') as nat
  }

  function DigitChar(d: nat): (c: char)
    requires d < 10
    ensures IsDigit(c) && DigitValue(c) == d
  {
    ('0' as int + d) as char
  }

  /** The number a string of decimal digits spells, most significant digit first (Python's `int`). */
  function DigitsValue(s: string): nat
    requires AllDigits(s)
  {
    if s == [] then 0 else DigitsValue(s[..|s| - 1]) * 10 + DigitValue(s[|s| - 1])
  }

  function Pow10(k: nat): (p: nat)
    ensures p >= 1
  {
    if k == 0 then 1 else 10 * Pow10(k - 1)
  }

  lemma {:induction false} Pow10Add(a: nat, b: nat)
    ensures Pow10(a + b) == Pow10(a) * Pow10(b)
    decreases a
  {
    if a > 0 {
      Pow10Add(a - 1, b);
    }
  }

  /** The shortest decimal spelling of `n`. */
  function NatToDigits(n: nat): (s: string)
    ensures |s| >= 1 && AllDigits(s)
  {
    if n < 10 then [DigitChar(n)] else NatToDigits(n / 10) + [DigitChar(n % 10)]
  }

  function Zeros(k: nat): (s: string)
    ensures |s| == k && AllDigits(s) && forall i :: 0 <= i < k ==> s[i] == '0'
  {
    if k == 0 then [] else Zeros(k - 1) + ['0']
  }

  /** The spelling of `n` left-padded with zeros to at least `width` digits. */
  function PaddedDigits(n: nat, width: nat): (s: string)
    ensures AllDigits(s) && |s| >= width && |s| >= 1
  {
    var ds := NatToDigits(n);
    if |ds| < width then Zeros(width - |ds|) + ds else ds
  }

  lemma {:induction false} NatToDigitsValue(n: nat)
    ensures DigitsValue(NatToDigits(n)) == n
  {
    if n >= 10 {
      var ds := NatToDigits(n / 10) + [DigitChar(n % 10)];
      assert ds[..|ds| - 1] == NatToDigits(n / 10);
      NatToDigitsValue(n / 10);
    }
  }

  lemma {:induction false} LeadingZerosValue(k: nat, s: string)
    requires AllDigits(s)
    ensures DigitsValue(Zeros(k) + s) == DigitsValue(s)
    decreases |s|, k
  {
    if s == [] {
      if k > 0 {
        assert (Zeros(k) + s)[..k - 1] == Zeros(k - 1) + [];
        LeadingZerosValue(k - 1, []);
      }
    } else {
      var t := Zeros(k) + s;
      assert t[..|t| - 1] == Zeros(k) + s[..|s| - 1];
      LeadingZerosValue(k, s[..|s| - 1]);
    }
  }

  /** Numbers below `10^w` take at most `w` digits, so padding them to `w` digits gives exactly `w`. */
  lemma {:induction false} NatToDigitsLength(n: nat, w: nat)
    requires w >= 1 && n < Pow10(w)
    ensures |NatToDigits(n)| <= w && |PaddedDigits(n, w)| == w
  {
    if n >= 10 {
      NatToDigitsLength(n / 10, w - 1);
    }
  }

  lemma PaddedDigitsValue(n: nat, width: nat)
    ensures DigitsValue(PaddedDigits(n, width)) == n
  {
    var ds := NatToDigits(n);
    NatToDigitsValue(n);
    if |ds| < width {
      assert PaddedDigits(n, width) == Zeros(width - |ds|) + ds;
      LeadingZerosValue(width - |ds|, ds);
    } else {
      assert PaddedDigits(n, width) == ds;
    }
  }

  /** `s.replace(from, to)` for one-character `from` and `to`. */
  function Replace(s: string, from: char, to: char): (r: string)
    ensures |r| == |s|
  {
    seq(|s|, i requires 0 <= i < |s| => if s[i] == from then to else s[i])
  }

  function Reverse(s: string): (r: string)
    ensures |r| == |s|
  {
    seq(|s|, i requires 0 <= i < |s| => s[|s| - 1 - i])
  }

  /** The first index at or after `from` where `c` occurs (or `|s|`), as `str.find` scans. */
  function FirstIndex(s: string, c: char, from: nat): (k: nat)
    requires from <= |s|
    ensures from <= k <= |s|
    ensures k < |s| ==> s[k] == c
    ensures forall j :: from <= j < k ==> s[j] != c
    decreases |s| - from
  {
    if from == |s| || s[from] == c then from else FirstIndex(s, c, from + 1)
  }

  /** `sub` occurs in `s` starting at index `i`. */
  predicate OccursAt(s: string, sub: string, i: int) {
    0 <= i && i + |sub| <= |s| && s[i..i + |sub|] == sub
  }

  /** Python's `sub in s`. */
  predicate Contains(s: string, sub: string) {
    exists i | 0 <= i <= |s| :: OccursAt(s, sub, i)
  }

  /** The first index at or after `i` that does not hold whitespace (or `|s|`). */
  function SkipSpaces(s: string, i: nat): (k: nat)
    requires i <= |s|
    ensures i <= k <= |s|
    ensures forall x :: i <= x < k ==> IsSpace(s[x])
    ensures k == |s| || !IsSpace(s[k])
    decreases |s| - i
  {
    if i < |s| && IsSpace(s[i]) then SkipSpaces(s, i + 1) else i
  }

  /** The end of `s[lo..j]` once its trailing whitespace is cut away. */
  function SkipSpacesBack(s: string, lo: nat, j: nat): (e: nat)
    requires lo <= j <= |s|
    ensures lo <= e <= j
    ensures forall x :: e <= x < j ==> IsSpace(s[x])
    ensures e == lo || !IsSpace(s[e - 1])
    decreases j
  {
    if j > lo && IsSpace(s[j - 1]) then SkipSpacesBack(s, lo, j - 1) else j
  }

  /** Python's `s.strip()`: leading and trailing whitespace removed. */
  function Strip(s: string): string {
    var k := SkipSpaces(s, 0);
    s[k..SkipSpacesBack(s, k, |s|)]
  }

  /**
   * `s[i..e]` is what `Strip` leaves when everything before `i` and from `e` on is whitespace and
   * `s[i..e]` neither starts nor ends with whitespace.
   */
  predicate StripBounds(s: string, i: nat, e: nat) {
    i <= e <= |s| &&
    (forall x :: 0 <= x < i ==> IsSpace(s[x])) &&
    (forall x :: e <= x < |s| ==> IsSpace(s[x])) &&
    (i == e || (!IsSpace(s[i]) && !IsSpace(s[e - 1])))
  }

  lemma StripAt(s: string, i: nat, e: nat)
    requires StripBounds(s, i, e)
    ensures Strip(s) == s[i..e]
  {
    var k := SkipSpaces(s, 0);
    if i == e {
      assert k == |s|;
    } else {
      assert k == i;
    }
  }

  lemma StripBoundsReverse(s: string, i: nat, e: nat)
    requires StripBounds(s, i, e)
    ensures StripBounds(Reverse(s), |s| - e, |s| - i)
  {
    var r := Reverse(s);
    forall x | 0 <= x < |s| - e
      ensures IsSpace(r[x])
    {
      assert r[x] == s[|s| - 1 - x];
    }
    forall x | |s| - i <= x < |s|
      ensures IsSpace(r[x])
    {
      assert r[x] == s[|s| - 1 - x];
    }
    if i < e {
      assert r[|s| - e] == s[e - 1];
      assert r[|s| - i - 1] == s[i];
    }
  }

  /** The bounds `Strip` cuts at. */
  lemma StripBoundsOf(s: string) returns (i: nat, e: nat)
    ensures StripBounds(s, i, e) && Strip(s) == s[i..e]
  {
    i := SkipSpaces(s, 0);
    e := SkipSpacesBack(s, i, |s|);
    if i < e {
      assert !IsSpace(s[i]);
    }
  }

  /** Stripping and reversal commute: both cut whitespace from the two ends. */
  lemma StripReverse(s: string)
    ensures Strip(Reverse(s)) == Reverse(Strip(s))
  {
    var i, e := StripBoundsOf(s);
    StripBoundsReverse(s, i, e);
    StripAt(Reverse(s), |s| - e, |s| - i);
    ReverseSlice(s, i, e);
  }

  lemma ReverseSlice(s: string, i: nat, e: nat)
    requires i <= e <= |s|
    ensures Reverse(s)[|s| - e..|s| - i] == Reverse(s[i..e])
  {
    var r, t := Reverse(s)[|s| - e..|s| - i], Reverse(s[i..e]);
    forall k | 0 <= k < e - i
      ensures r[k] == t[k]
    {
      assert r[k] == s[e - 1 - k];
    }
  }

  lemma ReplaceSlice(s: string, from: char, to: char, i: nat, e: nat)
    requires i <= e <= |s|
    ensures Replace(s, from, to)[i..e] == Replace(s[i..e], from, to)
  {
    var r, t := Replace(s, from, to)[i..e], Replace(s[i..e], from, to);
    forall k | 0 <= k < e - i
      ensures r[k] == t[k]
    {
      assert r[k] == Replace(s, from, to)[i + k];
    }
  }

  /** Replacing a non-space character by a non-space character commutes with stripping. */
  lemma StripReplace(s: string, from: char, to: char)
    requires !IsSpace(from) && !IsSpace(to)
    ensures Strip(Replace(s, from, to)) == Replace(Strip(s), from, to)
  {
    var i := SkipSpaces(s, 0);
    var e := SkipSpacesBack(s, i, |s|);
    StripAt(s, i, e);
    var r := Replace(s, from, to);
    assert StripBounds(r, i, e) by {
      forall x | 0 <= x < |s| ensures IsSpace(r[x]) == IsSpace(s[x]) {
      }
    }
    StripAt(r, i, e);
    ReplaceSlice(s, from, to, i, e);
  }

  /** A character of `s` that is not whitespace survives stripping. */
  lemma StripKeeps(s: string, p: nat) returns (q: nat)
    requires p < |s| && !IsSpace(s[p])
    ensures q < |Strip(s)| && Strip(s)[q] == s[p]
  {
    var i := SkipSpaces(s, 0);
    var e := SkipSpacesBack(s, i, |s|);
    q := p - i;
  }

  lemma ReplaceConcat(a: string, b: string, from: char, to: char)
    ensures Replace(a + b, from, to) == Replace(a, from, to) + Replace(b, from, to)
  {
  }

  lemma ReplaceAbsent(s: string, from: char, to: char)
    requires forall i :: 0 <= i < |s| ==> s[i] != from
    ensures Replace(s, from, to) == s
  {
  }

  lemma ReplaceReverse(s: string, from: char, to: char)
    ensures Replace(Reverse(s), from, to) == Reverse(Replace(s, from, to))
  {
  }

  /** A string that holds `sub` holds, once reversed, the reversal of `sub`. */
  lemma ContainsReverse(s: string, sub: string)
    requires Contains(s, sub)
    ensures Contains(Reverse(s), Reverse(sub))
  {
    var i :| 0 <= i <= |s| && OccursAt(s, sub, i);
    assert 0 <= i && i + |sub| <= |s| && s[i..i + |sub|] == sub;
    var j := |s| - i - |sub|;
    assert Reverse(s)[j..j + |sub|] == Reverse(sub);
    assert OccursAt(Reverse(s), Reverse(sub), j);
  }

  lemma ContainsTransitive(s: string, t: string, u: string)
    requires Contains(s, t) && Contains(t, u)
    ensures Contains(s, u)
  {
    var i :| 0 <= i <= |s| && OccursAt(s, t, i);
    var j :| 0 <= j <= |t| && OccursAt(t, u, j);
    assert 0 <= i && i + |t| <= |s| && s[i..i + |t|] == t;
    assert 0 <= j && j + |u| <= |t| && t[j..j + |u|] == u;
    forall k | 0 <= k < |u|
      ensures s[i + j + k] == u[k]
    {
      assert u[k] == t[j..j + |u|][k] == t[j + k];
      assert t[j + k] == s[i..i + |t|][j + k] == s[i + j + k];
    }
    assert s[i + j..i + j + |u|] == u;
    assert OccursAt(s, u, i + j);
  }

  lemma ContainsAt(s: string, sub: string, i: nat)
    requires i + |sub| <= |s| && s[i..i + |sub|] == sub
    ensures Contains(s, sub)
  {
    assert OccursAt(s, sub, i);
  }
}
