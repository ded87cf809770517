/**
 * The few pieces of Python's string library the DAG relies on:
 * str.strip(), str.endswith(), str.lower() (ASCII letters only), str.replace,
 * the XPath functions contains() and starts-with(), and int() applied to a
 * run of decimal digits.
 */
module Text {

  // ---------------------------------------------------------------- digits

  predicate IsDigit(c: char) { '0' <= c <= '9' }

  predicate AllDigits(s: string) {
    forall i :: 0 <= i < |s| ==> IsDigit(s[i])
  }

  function DigitValue(c: char): (d: nat)
    requires IsDigit(c)
    ensures d < 10
  {
    (c as int) - ('0' as int)
  }

  function DigitChar(d: nat): (c: char)
    requires d < 10
    ensures IsDigit(c) && DigitValue(c) == d
  {
    (('0' as int) + d) as char
  }

  function Pow10(n: nat): (p: nat)
    ensures p >= 1
  {
    if n == 0 then 1 else 10 * Pow10(n - 1)
  }

  /** int(s) for a string of decimal digits: the digits read most significant first. */
  function DecimalValue(s: string): (n: nat)
    requires AllDigits(s)
    ensures n < Pow10(|s|)
  {
    if s == [] then 0
    else DecimalValue(s[..|s| - 1]) * 10 + DigitValue(s[|s| - 1])
  }

  /** The zero-padded decimal rendering of n on exactly `width` digits (n modulo 10^width). */
  function Render(n: nat, width: nat): (s: string)
    ensures |s| == width && AllDigits(s)
  {
    if width == 0 then [] else Render(n / 10, width - 1) + [DigitChar(n % 10)]
  }

  lemma {:induction false} DecimalValueOfRender(n: nat, width: nat)
    requires n < Pow10(width)
    ensures DecimalValue(Render(n, width)) == n
  {
    if width > 0 {
      var s := Render(n, width);
      assert s[..|s| - 1] == Render(n / 10, width - 1);
      DecimalValueOfRender(n / 10, width - 1);
    }
  }

  lemma DivModTen(q: nat, d: nat)
    requires d < 10
    ensures (10 * q + d) / 10 == q && (10 * q + d) % 10 == d
  {
  }

  lemma {:induction false} RenderOfDecimalValue(s: string)
    requires AllDigits(s)
    ensures Render(DecimalValue(s), |s|) == s
  {
    if s != [] {
      var init := s[..|s| - 1];
      var n := DecimalValue(s);
      DivModTen(DecimalValue(init), DigitValue(s[|s| - 1]));
      assert n / 10 == DecimalValue(init) && n % 10 == DigitValue(s[|s| - 1]);
      RenderOfDecimalValue(init);
      assert s == init + [s[|s| - 1]];
    }
  }

  // ------------------------------------------------------------ whitespace

  /** Python's str.isspace() for a single character. */
  predicate IsSpace(c: char) {
    || '\t' <= c <= '\r'
    || '\U{1C}' <= c <= ' '
    || c == '\U{85}' || c == '\U{A0}' || c == '\U{1680}'
    || '\U{2000}' <= c <= '\U{200A}'
    || c == '\U{2028}' || c == '\U{2029}' || c == '\U{202F}' || c == '\U{205F}' || c == '\U{3000}'
  }

  /** The number of whitespace characters str.lstrip() removes. */
  function LeadingSpaces(s: string): (a: nat)
    ensures a <= |s|
    ensures forall i :: 0 <= i < a ==> IsSpace(s[i])
    ensures a < |s| ==> !IsSpace(s[a])
  {
    if s != [] && IsSpace(s[0]) then 1 + LeadingSpaces(s[1..]) else 0
  }

  /** The length of s once str.rstrip() has removed its trailing whitespace. */
  function UntilTrailingSpaces(s: string): (b: nat)
    ensures b <= |s|
    ensures forall i :: b <= i < |s| ==> IsSpace(s[i])
    ensures b > 0 ==> !IsSpace(s[b - 1])
  {
    if s != [] && IsSpace(s[|s| - 1]) then UntilTrailingSpaces(s[..|s| - 1]) else |s|
  }

  /** str.strip() with no argument: s with whitespace cut on either side. */
  function Strip(s: string): (r: string)
    ensures var a := LeadingSpaces(s);
      && a + |r| <= |s| && r == s[a..a + |r|]
      && (forall i :: a + |r| <= i < |s| ==> IsSpace(s[i]))
    ensures r != [] ==> !IsSpace(r[0]) && !IsSpace(r[|r| - 1])
  {
    var a := LeadingSpaces(s);
    StrippedSlice(s, a);
    s[a..a + UntilTrailingSpaces(s[a..])]
  }

  /** The slice between the leading and the trailing whitespace, described on the indices of s. */
  lemma StrippedSlice(s: string, a: nat)
    requires a <= |s| && (a < |s| ==> !IsSpace(s[a]))
    ensures var b := UntilTrailingSpaces(s[a..]);
      && a + b <= |s|
      && (forall i :: a + b <= i < |s| ==> IsSpace(s[i]))
      && (b > 0 ==> !IsSpace(s[a..a + b][0]) && !IsSpace(s[a..a + b][b - 1]))
  {
    var t := s[a..];
    var b := UntilTrailingSpaces(t);
    forall i | a + b <= i < |s| ensures IsSpace(s[i]) {
      assert s[i] == t[i - a];
    }
    if b > 0 {
      assert s[a..a + b][0] == s[a];
      assert s[a..a + b][b - 1] == t[b - 1];
    }
  }

  // ------------------------------------------------------- prefix / suffix

  predicate StartsWith(s: string, p: string) {
    |p| <= |s| && s[..|p|] == p
  }

  predicate EndsWith(s: string, p: string) {
    |p| <= |s| && s[|s| - |p|..] == p
  }

  predicate OccursAt(s: string, p: string, i: nat) {
    i + |p| <= |s| && s[i..i + |p|] == p
  }

  /** XPath contains(s, p). */
  predicate Contains(s: string, p: string) {
    exists i: nat :: i <= |s| && OccursAt(s, p, i)
  }

  // ---------------------------------------------------------- replacement

  /**
   * s.replace(p, ""): every non-overlapping occurrence of p, scanning left
   * to right, is deleted.
   */
  function RemoveAll(s: string, p: string): (r: string)
    requires p != []
    ensures |r| <= |s|
    decreases |s|
  {
    if |s| < |p| then s
    else if s[..|p|] == p then RemoveAll(s[|p|..], p)
    else [s[0]] + RemoveAll(s[1..], p)
  }

  lemma {:induction false} RemoveAllAbsent(s: string, p: string)
    requires p != []
    requires !Contains(s, p)
    ensures RemoveAll(s, p) == s
    decreases |s|
  {
    if |s| >= |p| {
      assert !OccursAt(s, p, 0);
      assert s[..|p|] != p;
      forall i: nat | i <= |s[1..]| ensures !OccursAt(s[1..], p, i) {
        assert s[1..][i..] == s[i + 1..];
        assert !OccursAt(s, p, i + 1);
      }
      RemoveAllAbsent(s[1..], p);
      assert s == [s[0]] + s[1..];
    }
  }

  /**
   * A pattern whose first character occurs nowhere else in it cannot
   * straddle a boundary of one of its own copies, so removing it from
   * a + p + c removes that copy and works on a and c separately.
   */
  lemma {:induction false} RemoveAllSplit(a: string, p: string, c: string)
    requires p != []
    requires forall k :: 0 < k < |p| ==> p[k] != p[0]
    ensures RemoveAll(a + p + c, p) == RemoveAll(a, p) + RemoveAll(c, p)
    decreases |a|
  {
    var s := a + p + c;
    if a == [] {
      assert s[..|p|] == p;
      assert s[|p|..] == c;
    } else if |a| >= |p| && a[..|p|] == p {
      assert s[..|p|] == p;
      assert s[|p|..] == a[|p|..] + p + c;
      RemoveAllSplit(a[|p|..], p, c);
    } else {
      if |a| < |p| {
        assert s[|a|] == p[0] && p[|a|] != p[0];
        assert s[..|p|][|a|] != p[|a|];
        assert RemoveAll(a, p) == a;
        assert RemoveAll(a[1..], p) == a[1..];
        assert a == [a[0]] + a[1..];
      } else {
        assert s[..|p|] == a[..|p|];
      }
      assert s[1..] == a[1..] + p + c;
      RemoveAllSplit(a[1..], p, c);
    }
  }

  // ----------------------------------------------------------------- case

  function LowerChar(c: char): (d: char)
    ensures 'A' <= c <= 'Z' ==> 'a' <= d <= 'z'
    ensures !('A' <= c <= 'Z') ==> d == c
  {
    if 'A' <= c <= 'Z' then ((c as int) + 32) as char else c
  }

  /** str.lower(), restricted to ASCII letters. */
  function Lower(s: string): (r: string)
    ensures |r| == |s|
    ensures forall i :: 0 <= i < |s| ==> r[i] == LowerChar(s[i])
  {
    if s == [] then [] else [LowerChar(s[0])] + Lower(s[1..])
  }
}
