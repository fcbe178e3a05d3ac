/** Character classes and string helpers the bot relies on: Python's `str.strip()`,
    the substring test `w in s`, and ASCII decimal digits as `\d` and `int()` read them. */
module Text {

  /** `str.isspace()`: the characters Python's `str.strip()` removes. */
  predicate IsSpace(c: char) {
    || c == ' '
    || ('\U{0009}' <= c <= '\U{000D}')
    || ('\U{001C}' <= c <= '\U{001F}')
    || c == '\U{0085}' || c == '\U{00A0}' || c == '\U{1680}'
    || ('\U{2000}' <= c <= '\U{200A}')
    || c == '\U{2028}' || c == '\U{2029}' || c == '\U{202F}' || c == '\U{205F}' || c == '\U{3000}'
  }

  predicate AllSpace(s: string) {
    forall i :: 0 <= i < |s| ==> IsSpace(s[i])
  }

  /** Neither end of `s` is whitespace: what `strip()` leaves behind. */
  predicate NoOuterSpace(s: string) {
    s == [] || (!IsSpace(s[0]) && !IsSpace(s[|s| - 1]))
  }

  /** Number of whitespace characters at the start of `s`. */
  function LeadingSpace(s: string): (n: nat)
    ensures n <= |s| && AllSpace(s[..n])
    ensures n < |s| ==> !IsSpace(s[n])
  {
    if s != [] && IsSpace(s[0]) then
      var n := 1 + LeadingSpace(s[1..]);
      assert s[..n] == [s[0]] + s[1..][..n - 1];
      n
    else 0
  }

  /** Number of whitespace characters at the end of `s`. */
  function TrailingSpace(s: string): (n: nat)
    ensures n <= |s| && AllSpace(s[|s| - n..])
    ensures n < |s| ==> !IsSpace(s[|s| - 1 - n])
  {
    if s != [] && IsSpace(s[|s| - 1]) then
      var n := 1 + TrailingSpace(s[..|s| - 1]);
      assert s[|s| - n..] == s[..|s| - 1][|s| - n..] + [s[|s| - 1]];
      n
    else 0
  }

  /** Python's `s.strip()`: the longest infix of `s` that neither starts nor ends with
      whitespace, once whitespace-only margins are cut off on both sides. */
  function Strip(s: string): (r: string)
    ensures NoOuterSpace(r)
    ensures var k := LeadingSpace(s); k + |r| <= |s| && r == s[k..k + |r|] && AllSpace(s[k + |r|..])
  {
    var k := LeadingSpace(s);
    var rest := s[k..];
    var t := TrailingSpace(rest);
    assert rest[|rest| - t..] == s[k + (|rest| - t)..];
    rest[..|rest| - t]
  }

  lemma {:induction false} LeadingSpaceOf(a: string, t: string)
    requires AllSpace(a) && (t == [] || !IsSpace(t[0]))
    ensures LeadingSpace(a + t) == |a|
  {
    if a != [] {
      assert (a + t)[0] == a[0];
      assert (a + t)[1..] == a[1..] + t;
      LeadingSpaceOf(a[1..], t);
    } else {
      assert a + t == t;
    }
  }

  lemma {:induction false} TrailingSpaceOf(t: string, b: string)
    requires AllSpace(b) && (t == [] || !IsSpace(t[|t| - 1]))
    ensures TrailingSpace(t + b) == |b|
  {
    if b != [] {
      assert (t + b)[|t + b| - 1] == b[|b| - 1];
      assert (t + b)[..|t + b| - 1] == t + b[..|b| - 1];
      TrailingSpaceOf(t, b[..|b| - 1]);
    } else {
      assert t + b == t;
    }
  }

  /** `strip()` is determined by the margins: whatever whitespace surrounds a core that
      has no outer whitespace, stripping gives that core back. */
  lemma {:induction false} StripUnique(a: string, m: string, b: string)
    requires AllSpace(a) && AllSpace(b) && NoOuterSpace(m)
    ensures Strip(a + m + b) == m
  {
    var s := a + m + b;
    if m == [] {
      assert s == (a + b) + [];
      LeadingSpaceOf(a + b, []);
      assert s[|s|..] == [];
    } else {
      assert s == a + (m + b);
      LeadingSpaceOf(a, m + b);
      assert s[|a|..] == m + b;
      TrailingSpaceOf(m, b);
      assert (m + b)[..|m|] == m;
    }
  }

  lemma StripIdempotent(s: string)
    ensures Strip(Strip(s)) == Strip(s)
  {
    StripUnique([], Strip(s), []);
    assert [] + Strip(s) + [] == Strip(s);
  }

  /** The characters of `w` appear in `s` from position `k` on. */
  predicate HasAt(s: string, k: nat, w: string) {
    k + |w| <= |s| && forall i :: 0 <= i < |w| ==> s[k + i] == w[i]
  }

  /** `w` occurs in `s` at position `k` or later. */
  predicate OccursFrom(s: string, w: string, k: nat)
    decreases |s| - k
  {
    HasAt(s, k, w) || (k < |s| && OccursFrom(s, w, k + 1))
  }

  /** `w` occurs in `s`: Python's `w in s`, case-sensitive. */
  predicate Contains(s: string, w: string) {
    OccursFrom(s, w, 0)
  }

  lemma {:induction false} OccursFromIff(s: string, w: string, j: nat)
    ensures OccursFrom(s, w, j) <==> exists k :: j <= k && HasAt(s, k, w)
    decreases |s| - j
  {
    if j < |s| {
      OccursFromIff(s, w, j + 1);
    }
  }

  /** `w in s` holds exactly when `w` appears at some position of `s`. */
  lemma ContainsIff(s: string, w: string)
    ensures Contains(s, w) <==> exists k :: HasAt(s, k, w)
  {
    OccursFromIff(s, w, 0);
  }

  /** The ASCII digits `0`-`9`, which is all this model lets `\d` match. */
  predicate IsDigit(c: char) {
    '0' <= c <= '9'
  }

  predicate AllDigits(s: string) {
    forall i :: 0 <= i < |s| ==> IsDigit(s[i])
  }

  /** Python's `int()` of a string of decimal digits (leading zeros allowed). */
  function DigitsValue(s: string): nat
    requires AllDigits(s)
  {
    if s == [] then 0 else 10 * DigitsValue(s[..|s| - 1]) + (s[|s| - 1] as int - '0' as int)
  }

  /** Python's `str()` of a non-negative integer: decimal digits, no leading zero. */
  function Decimal(n: nat): (r: string)
    ensures |r| >= 1 && AllDigits(r) && (|r| > 1 ==> r[0] != '0')
    ensures DigitsValue(r) == n
  {
    var d := [(n % 10 + '0' as int) as char];
    if n < 10 then d
    else
      var r := Decimal(n / 10) + d;
      assert r[..|r| - 1] == Decimal(n / 10);
      r
  }
}
