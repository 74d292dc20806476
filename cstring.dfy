/**
 * The parts of the C library the watchface uses on its text buffers:
 * `strcpy`, `strlen`, `snprintf` and the `%d` / `%04d` conversions.
 *
 * A buffer is an `array<char>`; a C string in it is a run of non-NUL
 * characters ended by a NUL.
 */
module CString {

  const Nul: char := '\0'

  function Min(a: int, b: int): int { if a <= b then a else b }

  predicate NoNul(s: string) {
    forall k :: 0 <= k < |s| ==> s[k] != Nul
  }

  /** The buffer `a` starts with the C string `s`, terminator included. */
  ghost predicate Holds(a: array<char>, s: string)
    reads a
  {
    NoNul(s) && |s| < a.Length && a[..|s|] == s && a[|s|] == Nul
  }

  // ---------------------------------------------------------------- strlen

  /** `strlen(a)`: the index of the first NUL in `a`. */
  function StrLen(a: array<char>): (n: nat)
    reads a
    requires exists k :: 0 <= k < a.Length && a[k] == Nul
    ensures n < a.Length && a[n] == Nul
    ensures forall k :: 0 <= k < n ==> a[k] != Nul
  {
    NulFrom(a, 0)
  }

  function NulFrom(a: array<char>, i: nat): (n: nat)
    reads a
    requires i <= a.Length
    requires exists k :: i <= k < a.Length && a[k] == Nul
    ensures i <= n < a.Length && a[n] == Nul
    ensures forall k :: i <= k < n ==> a[k] != Nul
    decreases a.Length - i
  {
    if a[i] == Nul then i else NulFrom(a, i + 1)
  }

  /** The length `strlen` reports is that of the string the buffer holds. */
  lemma StrLenOfHolds(a: array<char>, s: string)
    requires Holds(a, s)
    ensures StrLen(a) == |s|
  {
    assert a[|s|] == Nul;
    var n := StrLen(a);
    if n < |s| {
      assert a[n] == a[..|s|][n] == s[n];
    }
  }

  /** A buffer that starts with `p + t` and a NUL holds the concatenation. */
  lemma HoldsConcat(a: array<char>, p: string, t: string)
    requires NoNul(p) && NoNul(t) && |p| + |t| < a.Length
    requires a[..|p| + |t|] == p + t && a[|p| + |t|] == Nul
    ensures Holds(a, p + t)
  {
  }

  // ---------------------------------------------------------------- strcpy

  /**
   * `strcpy(a, s)`. C leaves an overflowing copy undefined, so the
   * destination must have room for `s` and its terminator.
   */
  method StrCopy(a: array<char>, s: string)
    requires NoNul(s) && |s| < a.Length
    modifies a
    ensures Holds(a, s)
    ensures a[|s| + 1..] == old(a[|s| + 1..])
  {
    forall k | 0 <= k < |s| {
      a[k] := s[k];
    }
    a[|s|] := Nul;
  }

  // ---------------------------------------------------------------- snprintf

  /** What `snprintf` keeps of the formatted text `s` in `size` bytes: at most `size - 1` characters. */
  function Truncated(s: string, size: nat): (t: string)
    requires size > 0
    ensures |t| < size && t <= s
    ensures |s| < size ==> t == s
    ensures |s| >= size ==> |t| == size - 1
  {
    s[..Min(|s|, size - 1)]
  }

  /**
   * `snprintf(a + off, a.Length - off, fmt, ...)` where `s` is the text the
   * format produces: the first `a.Length - off - 1` characters of `s` at most
   * are stored from `off` on and a NUL after them.
   */
  method SnPrintf(a: array<char>, off: nat, s: string)
    requires off < a.Length && NoNul(s)
    modifies a
    ensures var t := Truncated(s, a.Length - off);
      && a[..off + |t|] == old(a[..off]) + t
      && a[off + |t|] == Nul
      && a[off + |t| + 1..] == old(a[off + |t| + 1..])
  {
    var t := Truncated(s, a.Length - off);
    forall k | 0 <= k < |t| {
      a[off + k] := t[k];
    }
    a[off + |t|] := Nul;
    assert forall k :: 0 <= k < off + |t| ==> a[..off + |t|][k] == (old(a[..off]) + t)[k];
  }

  // ---------------------------------------------------------------- %d

  predicate IsDigit(c: char) { '0' <= c <= '9' }

  predicate IsDigits(s: string) {
    forall k :: 0 <= k < |s| ==> IsDigit(s[k])
  }

  function DigitChar(d: int): (c: char)
    requires 0 <= d < 10
    ensures IsDigit(c) && DigitValue(c) == d
  {
    (('0' as int) + d) as char
  }

  function DigitValue(c: char): int
    requires IsDigit(c)
  {
    (c as int) - ('0' as int)
  }

  function Pow10(e: nat): (p: nat)
    ensures p >= 1
  {
    if e == 0 then 1 else 10 * Pow10(e - 1)
  }

  /**
   * The decimal digits of `n`, most significant first, as `%d` prints a
   * non-negative number: as many digits as `n` needs and no leading zero.
   */
  function Digits(n: nat): (s: string)
    ensures |s| >= 1 && IsDigits(s)
    ensures |s| > 1 ==> s[0] != '0'
    decreases n
  {
    if n < 10 then [DigitChar(n)] else Digits(n / 10) + [DigitChar(n % 10)]
  }

  /** `Digits(n)` has `k` digits exactly when `10^(k-1) <= n < 10^k` (`0` has one). */
  lemma {:induction false} DigitsBounds(n: nat)
    ensures n < Pow10(|Digits(n)|)
    ensures |Digits(n)| > 1 ==> Pow10(|Digits(n)| - 1) <= n
    decreases n
  {
    if n >= 10 {
      DigitsBounds(n / 10);
    }
  }

  /** The number a string of decimal digits denotes. */
  function DecimalValue(s: string): nat
    requires IsDigits(s)
  {
    if s == [] then 0 else 10 * DecimalValue(s[..|s| - 1]) + DigitValue(s[|s| - 1])
  }

  /** Reading back the digits of `n` gives `n`. */
  lemma {:induction false} DigitsRoundTrip(n: nat)
    ensures DecimalValue(Digits(n)) == n
  {
    var s := Digits(n);
    if n >= 10 {
      DigitsRoundTrip(n / 10);
      assert s[..|s| - 1] == Digits(n / 10);
    } else {
      assert s[..|s| - 1] == [];
    }
  }

  /** The only string of digits without a leading zero that denotes `n` is `Digits(n)`. */
  lemma {:induction false} DigitsUnique(s: string)
    requires |s| >= 1 && IsDigits(s) && (|s| > 1 ==> s[0] != '0')
    ensures Digits(DecimalValue(s)) == s
    decreases |s|
  {
    var v := DecimalValue(s);
    if |s| == 1 {
      assert s[..0] == [];
      assert DecimalValue(s[..0]) == 0;
      assert v == DigitValue(s[0]);
    } else {
      var p := s[..|s| - 1];
      assert p[0] == s[0];
      DigitsUnique(p);
      var w := DecimalValue(p);
      DigitsBounds(w);
      assert |p| > 1 ==> Pow10(|p| - 1) <= w;
      assert w >= 1;
      assert v / 10 == w && v % 10 == DigitValue(s[|s| - 1]);
      assert DigitChar(v % 10) == s[|s| - 1];
      assert s == p + [s[|s| - 1]];
    }
  }

  function Zeros(k: nat): (z: string)
    ensures |z| == k && IsDigits(z)
    ensures forall i :: 0 <= i < k ==> z[i] == '0'
  {
    if k == 0 then "" else Zeros(k - 1) + "0"
  }

  /** Leading zeros do not change the value of a string of digits. */
  lemma {:induction false} LeadingZeros(k: nat, s: string)
    requires IsDigits(s)
    ensures IsDigits(Zeros(k) + s) && DecimalValue(Zeros(k) + s) == DecimalValue(s)
    decreases |s|
  {
    var z := Zeros(k) + s;
    if s == [] {
      assert z == Zeros(k);
      ZerosValue(k);
    } else {
      var p := s[..|s| - 1];
      LeadingZeros(k, p);
      assert z[..|z| - 1] == Zeros(k) + p;
    }
  }

  lemma {:induction false} ZerosValue(k: nat)
    ensures DecimalValue(Zeros(k)) == 0
  {
    if k > 0 {
      ZerosValue(k - 1);
      assert Zeros(k)[..k - 1] == Zeros(k - 1);
    }
  }

  /** `s` preceded by as many `'0'` as it takes to make it `width` long. */
  function ZeroPad(s: string, width: nat): (r: string)
    ensures |r| == if |s| < width then width else |s|
  {
    if |s| < width then Zeros(width - |s|) + s else s
  }

  /**
   * `%0<width>d` of C's printf: the digits of `v`, a `-` before them when
   * `v` is negative, zero-padded after the sign to at least `width`
   * characters in all. `%d` is the case `width == 0`.
   */
  function FormatDecimal(v: int, width: nat): (s: string)
    ensures NoNul(s) && |s| >= width
    ensures v >= 0 ==> IsDigits(s)
    ensures v < 0 ==> |s| >= 2 && s[0] == '-' && IsDigits(s[1..])
  {
    if v < 0 then "-" + ZeroPad(Digits(-v), if width > 0 then width - 1 else 0)
    else ZeroPad(Digits(v), width)
  }

  /** A non-negative number formatted with `%0<width>d` reads back as itself. */
  lemma FormatDecimalValue(v: int, width: nat)
    requires v >= 0
    ensures IsDigits(FormatDecimal(v, width)) && DecimalValue(FormatDecimal(v, width)) == v
  {
    var d := Digits(v);
    var k := if |d| < width then width - |d| else 0;
    assert FormatDecimal(v, width) == Zeros(k) + d;
    LeadingZeros(k, d);
    DigitsRoundTrip(v);
  }

  /** A number with at most `width` digits fills exactly `width` characters. */
  lemma FormatDecimalWidth(v: int, width: nat)
    requires 0 <= v < Pow10(width) && width > 0
    ensures |FormatDecimal(v, width)| == width
  {
    var d := Digits(v);
    DigitsBounds(v);
    if |d| > width {
      Pow10Monotone(width, |d| - 1);
    }
  }

  /** `%d` of a non-negative number is its digits. */
  lemma FormatDecimalPlain(v: int)
    requires v >= 0
    ensures FormatDecimal(v, 0) == Digits(v)
  {
  }

  lemma {:induction false} Pow10Monotone(e: nat, f: nat)
    requires e <= f
    ensures Pow10(e) <= Pow10(f)
    decreases f - e
  {
    if e < f {
      Pow10Monotone(e, f - 1);
    }
  }
}
