/** The few Python built-ins the timer relies on, stated over exact values:
    round() on a number, floor division and modulo by a positive divisor,
    str() and int() on non-negative decimal integers, and str.strip(). */
module Builtins {

  // ---------------------------------------------------------------------
  // round(x): nearest integer, ties to the even neighbour
  // ---------------------------------------------------------------------

  function Round(x: real): (n: int)
    ensures n as real - 0.5 <= x <= n as real + 0.5
    ensures x == n as real - 0.5 || x == n as real + 0.5 ==> n % 2 == 0
  {
    var f := x.Floor;
    var frac := x - f as real;
    if frac < 0.5 then f
    else if frac > 0.5 then f + 1
    else if f % 2 == 0 then f else f + 1
  }

  /** The two clauses of Round's contract pin its result down. */
  lemma RoundUnique(x: real, n: int)
    requires n as real - 0.5 <= x <= n as real + 0.5
    requires x == n as real - 0.5 || x == n as real + 0.5 ==> n % 2 == 0
    ensures Round(x) == n
  {
  }

  lemma RoundMonotone(x: real, y: real)
    requires x <= y
    ensures Round(x) <= Round(y)
  {
  }

  /** A strictly smaller rounding comes from a strictly smaller number. */
  lemma RoundStrict(x: real, y: real)
    requires Round(x) < Round(y)
    ensures x < y
  {
  }

  /** Away from a tie, one more rounds to one more (at a tie x = n + 0.5
      both x and x + 1 may round to the same even neighbour). */
  lemma RoundOneMore(x: real)
    requires x - x.Floor as real != 0.5
    ensures Round(x + 1.0) == Round(x) + 1
  {
    RoundUnique(x + 1.0, Round(x) + 1);
  }

  lemma RoundOfWhole(k: int)
    ensures Round(k as real) == k
  {
    RoundUnique(k as real, k);
  }

  // ---------------------------------------------------------------------
  // x // d and x % d for a positive divisor (the result of % has the
  // divisor's sign)
  // ---------------------------------------------------------------------

  predicate IsWhole(x: real) { x == x.Floor as real }

  /** x // d: the floor of the exact quotient, as a whole-valued real. */
  function FloorDiv(x: real, d: real): (q: real)
    requires d > 0.0
    ensures IsWhole(q)
    ensures q <= x / d < q + 1.0
  {
    (x / d).Floor as real
  }

  lemma FloorDivUnique(x: real, d: real, q: real)
    requires d > 0.0 && IsWhole(q)
    requires q <= x / d < q + 1.0
    ensures FloorDiv(x, d) == q
  {
    var p := FloorDiv(x, d);
    assert p.Floor < q.Floor + 1 && q.Floor < p.Floor + 1;
  }

  /** x % d: what is left of x after taking away d times x // d; it lies in
      [0, d) (stated as a fraction of d). */
  function Mod(x: real, d: real): (m: real)
    requires d > 0.0
    ensures 0.0 <= m / d < 1.0
    ensures (x - m) / d == FloorDiv(x, d)
  {
    var q := FloorDiv(x, d);
    assert x / d - q == (x - d * q) / d;
    x - d * q
  }

  // ---------------------------------------------------------------------
  // Decimal digits: int(s) and str(n)
  // ---------------------------------------------------------------------

  predicate IsDigit(c: char) { '0' <= c <= '9' }

  predicate AllDigits(s: string) { forall i :: 0 <= i < |s| ==> IsDigit(s[i]) }

  function DigitValue(c: char): (d: nat)
    requires IsDigit(c)
    ensures d < 10
  {
    c as int - '0' as int
  }

  function DigitChar(d: nat): (c: char)
    requires d < 10
    ensures IsDigit(c) && DigitValue(c) == d
  {
    ('0' as int + d) as char
  }

  /** int(s) for a non-empty string of ASCII digits (0 for the empty string). */
  function DigitsValue(s: string): nat
    requires AllDigits(s)
  {
    if s == [] then 0 else 10 * DigitsValue(s[..|s| - 1]) + DigitValue(s[|s| - 1])
  }

  /** A decimal numeral in canonical form: no leading zero unless it is "0". */
  predicate IsCanonical(s: string)
  {
    1 <= |s| && AllDigits(s) && (s[0] == '0' ==> |s| == 1)
  }

  /** str(n) for a non-negative integer n. */
  function Decimal(n: nat): (s: string)
    ensures IsCanonical(s)
    ensures DigitsValue(s) == n
    ensures |s| == 1 <==> n < 10
    ensures |s| == 2 <==> 10 <= n < 100
    decreases n
  {
    if n < 10 then [DigitChar(n)]
    else
      var s := Decimal(n / 10) + [DigitChar(n % 10)];
      assert s[..|s| - 1] == Decimal(n / 10);
      s
  }

  /** Reading back what Decimal writes gives the canonical numeral again. */
  lemma {:induction false} DecimalOfDigits(s: string)
    requires IsCanonical(s)
    ensures Decimal(DigitsValue(s)) == s
  {
    if |s| > 1 {
      var init := s[..|s| - 1];
      assert IsCanonical(init);
      DigitsValueOfCanonicalPositive(s);
      DecimalOfDigits(init);
      var v := DigitsValue(s);
      assert v / 10 == DigitsValue(init) && v % 10 == DigitValue(s[|s| - 1]);
      assert s == init + [s[|s| - 1]];
    }
  }

  /** One or two digits read as a number below 100. */
  lemma ShortDigitsBound(s: string)
    requires AllDigits(s) && |s| <= 2
    ensures DigitsValue(s) <= 99
  {
    if |s| == 2 {
      assert DigitsValue(s[..1]) == DigitValue(s[0]) by { assert s[..1][..0] == []; }
    }
  }

  lemma DigitsValueOfCanonicalPositive(s: string)
    requires IsCanonical(s) && 1 < |s|
    ensures DigitsValue(s) >= 10
  {
    LeadingDigitBound(s);
  }

  lemma {:induction false} LeadingDigitBound(s: string)
    requires AllDigits(s) && 1 <= |s|
    ensures DigitsValue(s) >= DigitValue(s[0])
    ensures 1 < |s| && s[0] != '0' ==> DigitsValue(s) >= 10
  {
    if |s| > 1 {
      LeadingDigitBound(s[..|s| - 1]);
    }
  }

  // ---------------------------------------------------------------------
  // str.isspace() and str.strip() with no argument
  // ---------------------------------------------------------------------

  /** The characters for which Python's str.isspace() holds. */
  predicate IsSpace(c: char)
  {
    '\t' <= c <= '\r' || '\U{001C}' <= c <= ' ' || c == '\U{0085}' || c == '\U{00A0}' ||
    c == '\U{1680}' || '\U{2000}' <= c <= '\U{200A}' || c == '\U{2028}' || c == '\U{2029}' ||
    c == '\U{202F}' || c == '\U{205F}' || c == '\U{3000}'
  }

  predicate IsBlank(s: string) { forall i :: 0 <= i < |s| ==> IsSpace(s[i]) }

  function StripLeading(s: string): (r: string)
    ensures |r| <= |s| && r == s[|s| - |r|..]
    ensures IsBlank(s[..|s| - |r|])
    ensures r == [] || !IsSpace(r[0])
  {
    if s != [] && IsSpace(s[0]) then
      var r := StripLeading(s[1..]);
      assert s[..|s| - |r|] == [s[0]] + s[1..][..|s| - 1 - |r|];
      r
    else s
  }

  function StripTrailing(s: string): (r: string)
    ensures |r| <= |s| && r == s[..|r|]
    ensures IsBlank(s[|r|..])
    ensures r == [] || !IsSpace(r[|r| - 1])
  {
    if s != [] && IsSpace(s[|s| - 1]) then
      var r := StripTrailing(s[..|s| - 1]);
      assert s[|r|..] == s[..|s| - 1][|r|..] + [s[|s| - 1]];
      r
    else s
  }

  /** str.strip(): the input without its leading and trailing whitespace. */
  function Strip(s: string): (r: string)
    ensures exists i :: StrippedAt(s, i, r)
    ensures r == [] || (!IsSpace(r[0]) && !IsSpace(r[|r| - 1]))
  {
    var l := StripLeading(s);
    var r := StripTrailing(l);
    assert r == s[|s| - |l|..|s| - |l| + |r|];
    assert s[|s| - |l| + |r|..] == l[|r|..];
    assert StrippedAt(s, |s| - |l|, r);
    r
  }

  /** r is what remains of s once the blank s[..i] and the blank tail after
      r are cut off. */
  predicate StrippedAt(s: string, i: int, r: string)
  {
    0 <= i && i + |r| <= |s| && s[i..i + |r|] == r && IsBlank(s[..i]) && IsBlank(s[i + |r|..])
  }

  /** Stripping leaves nothing exactly when the string is all whitespace. */
  lemma StripEmptyIffBlank(s: string)
    ensures Strip(s) == [] <==> IsBlank(s)
  {
    var r := Strip(s);
    var i :| StrippedAt(s, i, r);
    if r == [] {
      assert s == s[..i] + s[i..];
    }
  }

  /** Stripping a string that starts with a non-blank character and ends in
      text whose first character is not blank either only trims the tail. */
  lemma StripKeepsHead(head: string, tail: string)
    requires head != [] && !IsSpace(head[0]) && !IsSpace(head[|head| - 1])
    ensures Strip(head + tail) == head + StripTrailing(tail)
  {
    StripLeadingNonBlank(head + tail);
    StripTrailingAfter(head, tail);
  }

  lemma StripLeadingNonBlank(s: string)
    requires s != [] && !IsSpace(s[0])
    ensures StripLeading(s) == s
  {
  }

  lemma {:induction false} StripTrailingAfter(head: string, tail: string)
    requires head != [] && !IsSpace(head[|head| - 1])
    ensures StripTrailing(head + tail) == head + StripTrailing(tail)
    decreases |tail|
  {
    var s := head + tail;
    if tail == [] {
      assert s == head;
    } else if IsSpace(tail[|tail| - 1]) {
      assert s[..|s| - 1] == head + tail[..|tail| - 1];
      StripTrailingAfter(head, tail[..|tail| - 1]);
    } else {
      assert s[|s| - 1] == tail[|tail| - 1];
    }
  }
}
