/**
 * JavaScript number <-> string conversions used by the colour helpers:
 * `parseInt(s)` and `parseInt(s, 16)`, `n.toString(radix)` on integers,
 * `padStart` with '0', and the 32-bit wrap-around of the `<<` operator.
 * Only integer values are modelled (see README, "Left out").
 */
module JsNumbers {
  import opened Wrappers
  import JsStrings

  // ---------------------------------------------------------------------------
  // Digits

  /** The value of a digit character in radices up to 36: 0-9, then a/A = 10 ... z/Z = 35; 36 for a non-digit. */
  function DigitValue(c: char): (v: nat)
    ensures v <= 36
  {
    if '0' <= c <= '9' then c as int - '0' as int
    else if 'a' <= c <= 'z' then c as int - 'a' as int + 10
    else if 'A' <= c <= 'Z' then c as int - 'A' as int + 10
    else 36
  }

  /** The lower-case digit character `toString(radix)` writes for `d`. */
  function DigitChar(d: nat): (c: char)
    requires d < 36
    ensures DigitValue(c) == d
  {
    if d < 10 then (d + '0' as int) as char else (d - 10 + 'a' as int) as char
  }

  predicate IsDigitIn(c: char, radix: nat) {
    DigitValue(c) < radix
  }

  ghost predicate AllDigitsIn(s: string, radix: nat) {
    forall k :: 0 <= k < |s| ==> IsDigitIn(s[k], radix)
  }

  /** The number a digit string denotes in `radix`, most significant digit first. */
  function Value(ds: string, radix: nat): nat {
    if |ds| == 0 then 0
    else Value(ds[..|ds| - 1], radix) * radix + DigitValue(ds[|ds| - 1])
  }

  /** `n.toString(radix)` for `n >= 0`: digits without leading zeros ("0" for zero). */
  function Digits(n: nat, radix: nat): (s: string)
    requires radix == 10 || radix == 16
    ensures |s| >= 1 && AllDigitsIn(s, radix)
    ensures |s| > 1 ==> s[0] != '0'
    decreases n
  {
    if n < radix then [DigitChar(n)]
    else
      var q := n / radix;
      assert q >= 1 by {
        if radix == 10 { assert n / 10 >= 1; } else { assert n / 16 >= 1; }
      }
      var s := Digits(q, radix) + [DigitChar(n % radix)];
      assert forall k :: 0 <= k < |s| - 1 ==> s[k] == Digits(q, radix)[k];
      s
  }

  /** Reading back what `toString(radix)` wrote gives the number again. */
  lemma {:induction false} DigitsValue(n: nat, radix: nat)
    requires radix == 10 || radix == 16
    ensures Value(Digits(n, radix), radix) == n
    decreases n
  {
    if n >= radix {
      var s := Digits(n, radix);
      var q := n / radix;
      assert s[..|s| - 1] == Digits(q, radix);
      DigitsValue(q, radix);
      assert q * radix + n % radix == n by {
        if radix == 10 { assert (n / 10) * 10 + n % 10 == n; } else { assert (n / 16) * 16 + n % 16 == n; }
      }
    }
  }

  /** Leading zeros do not change the value of a digit string. */
  lemma {:induction false} ValueLeadingZeros(z: string, ds: string, radix: nat)
    requires forall k :: 0 <= k < |z| ==> z[k] == '0'
    ensures Value(z + ds, radix) == Value(ds, radix)
    decreases |ds|
  {
    if |ds| == 0 {
      ValueOfZeros(z, radix);
      assert z + ds == z;
    } else {
      assert (z + ds)[..|z + ds| - 1] == z + ds[..|ds| - 1];
      ValueLeadingZeros(z, ds[..|ds| - 1], radix);
    }
  }

  lemma {:induction false} ValueOfZeros(z: string, radix: nat)
    requires forall k :: 0 <= k < |z| ==> z[k] == '0'
    ensures Value(z, radix) == 0
    decreases |z|
  {
    if |z| > 0 {
      ValueOfZeros(z[..|z| - 1], radix);
    }
  }

  /** The longest prefix of `s` made of `radix` digits. */
  function LeadingDigits(s: string, radix: nat): (z: string)
    ensures |z| <= |s| && z == s[..|z|]
    ensures AllDigitsIn(z, radix)
    ensures |z| < |s| ==> !IsDigitIn(s[|z|], radix)
  {
    if |s| > 0 && IsDigitIn(s[0], radix) then
      var z := [s[0]] + LeadingDigits(s[1..], radix);
      assert forall k :: 1 <= k < |z| ==> z[k] == LeadingDigits(s[1..], radix)[k - 1];
      z
    else []
  }

  lemma {:induction false} LeadingDigitsOfDigits(s: string, radix: nat)
    requires AllDigitsIn(s, radix)
    ensures LeadingDigits(s, radix) == s
    decreases |s|
  {
    if |s| > 0 {
      LeadingDigitsOfDigits(s[1..], radix);
      assert s == [s[0]] + s[1..];
    }
  }

  // ---------------------------------------------------------------------------
  // parseInt

  /** The radix argument of `parseInt`: absent (decimal, with the "0x" prefix honoured) or 16. */
  datatype Radix = Auto | Hex

  /**
   * `parseInt(s)` / `parseInt(s, 16)` as section 19.2.5 of ECMAScript describes it, on integers:
   * skip leading white space, take an optional sign, drop a "0x"/"0X" prefix (which
   * switches to radix 16), then read the longest run of digits. No digits is NaN (None).
   */
  function ParseInt(s: string, radix: Radix): (r: Option<int>)
  {
    var t := JsStrings.TrimStart(s);
    if |t| > 0 && t[0] == '-' then
      match ParseMagnitude(t[1..], radix)
      case Some(m) => Some(-m)
      case None => None
    else if |t| > 0 && t[0] == '+' then ParseMagnitude(t[1..], radix)
    else ParseMagnitude(t, radix)
  }

  function BaseOf(radix: Radix): nat {
    if radix == Hex then 16 else 10
  }

  /** The unsigned part of `parseInt`: an optional "0x"/"0X" prefix, then the longest run of digits. */
  function ParseMagnitude(u: string, radix: Radix): (r: Option<int>)
    ensures r.Some? ==> r.value >= 0
  {
    var hexPrefix := |u| >= 2 && u[0] == '0' && (u[1] == 'x' || u[1] == 'X');
    var base: nat := if hexPrefix then 16 else BaseOf(radix);
    var z := LeadingDigits(if hexPrefix then u[2..] else u, base);
    if |z| == 0 then None else Some(Value(z, base))
  }

  /** `n.toString(radix)` on an integer: a minus sign followed by the digits of |n|. */
  function ToRadixString(n: int, radix: nat): (s: string)
    requires radix == 10 || radix == 16
  {
    if n < 0 then "-" + Digits(-n, radix) else Digits(n, radix)
  }

  /** `String(n)` / template-literal formatting of an integer. */
  function Decimal(n: int): string {
    ToRadixString(n, 10)
  }

  /** A digit string with no sign, no white space and no "0x" prefix parses to its value. */
  lemma {:induction false} ParsePlainMagnitude(ds: string, radix: Radix)
    requires |ds| >= 1 && AllDigitsIn(ds, BaseOf(radix))
    requires !(|ds| >= 2 && ds[0] == '0' && (ds[1] == 'x' || ds[1] == 'X'))
    ensures ParseMagnitude(ds, radix) == Some(Value(ds, BaseOf(radix)))
  {
    LeadingDigitsOfDigits(ds, BaseOf(radix));
  }

  lemma {:induction false} ParsePlainDigits(ds: string, radix: Radix)
    requires |ds| >= 1 && AllDigitsIn(ds, BaseOf(radix))
    requires !(|ds| >= 2 && ds[0] == '0' && (ds[1] == 'x' || ds[1] == 'X'))
    ensures ParseInt(ds, radix) == Some(Value(ds, BaseOf(radix)))
  {
    assert IsDigitIn(ds[0], BaseOf(radix));
    assert !JsStrings.IsJsSpace(ds[0]) && ds[0] != '-' && ds[0] != '+';
    JsStrings.TrimStartNoLeadingSpace(ds);
    ParsePlainMagnitude(ds, radix);
  }

  /** A minus sign in front of such a digit string negates the value. */
  lemma {:induction false} ParseNegatedDigits(s: string, radix: Radix)
    requires |s| >= 2 && s[0] == '-'
    requires AllDigitsIn(s[1..], BaseOf(radix))
    requires !(|s| >= 3 && s[1] == '0' && (s[2] == 'x' || s[2] == 'X'))
    ensures ParseInt(s, radix) == Some(-(Value(s[1..], BaseOf(radix)) as int))
  {
    JsStrings.TrimStartNoLeadingSpace(s);
    ParsePlainMagnitude(s[1..], radix);
  }

  /** Decimal formatting and `parseInt` are inverse on every integer. */
  lemma {:induction false} ParseDecimal(n: int)
    ensures ParseInt(Decimal(n), Auto) == Some(n)
  {
    var m := if n < 0 then -n else n;
    var ds := Digits(m, 10);
    DigitsValue(m, 10);
    if n < 0 {
      assert Decimal(n)[1..] == ds;
      ParseNegatedDigits(Decimal(n), Auto);
    } else {
      ParsePlainDigits(ds, Auto);
    }
  }

  /** Hexadecimal formatting and `parseInt(_, 16)` are inverse on non-negative integers. */
  lemma {:induction false} ParseHexDigits(n: nat)
    ensures ParseInt(Digits(n, 16), Hex) == Some(n)
  {
    DigitsValue(n, 16);
    ParsePlainDigits(Digits(n, 16), Hex);
  }

  // ---------------------------------------------------------------------------
  // Two-digit hexadecimal components, as in "#rrggbb"

  /** The two lower-case hex digits of a colour component in [0, 255]. */
  function Hex2(x: nat): (s: string)
    requires x < 256
    ensures |s| == 2 && AllDigitsIn(s, 16)
  {
    [DigitChar(x / 16), DigitChar(x % 16)]
  }

  /** `parseInt(Hex2(x), 16) == x`: reading a component back is exact. */
  lemma {:induction false} ParseHex2(x: nat)
    requires x < 256
    ensures ParseInt(Hex2(x), Hex) == Some(x)
  {
    var s := Hex2(x);
    assert s[..1][..0] == [];
    assert Value(s[..1], 16) == DigitValue(s[0]);
    assert Value(s, 16) == DigitValue(s[0]) * 16 + DigitValue(s[1]);
    assert (x / 16) * 16 + x % 16 == x;
    ParsePlainDigits(s, Hex);
  }

  /** Appending a byte to a number appends its two hex digits to `toString(16)`. */
  lemma {:induction false} DigitsAppendByte(n: nat, x: nat)
    requires n >= 1 && x < 256
    ensures Digits(n * 256 + x, 16) == Digits(n, 16) + Hex2(x)
  {
    var m := n * 256 + x;
    assert m / 16 == n * 16 + x / 16 && m % 16 == x % 16;
    assert (n * 16 + x / 16) / 16 == n && (n * 16 + x / 16) % 16 == x / 16;
  }

  // ---------------------------------------------------------------------------
  // padStart and 32-bit integers

  function Zeros(k: nat): (z: string)
    ensures |z| == k && forall i :: 0 <= i < k ==> z[i] == '0'
  {
    if k == 0 then [] else Zeros(k - 1) + ['0']
  }

  /** `s.padStart(width, '0')`: zeros in front up to `width` characters; longer strings unchanged. */
  function PadStart(s: string, width: nat): (r: string)
    ensures |s| >= width ==> r == s
    ensures |s| < width ==> |r| == width && r == Zeros(width - |s|) + s
  {
    if |s| >= width then s else Zeros(width - |s|) + s
  }

  const TwoTo32: int := 0x1_0000_0000
  const TwoTo31: int := 0x8000_0000

  /** ECMAScript ToInt32 on an integer: wrap into [-2^31, 2^31) modulo 2^32. */
  function ToInt32(x: int): (r: int)
    ensures -TwoTo31 <= r < TwoTo31
    ensures (x - r) % TwoTo32 == 0
    ensures -TwoTo31 <= x < TwoTo31 ==> r == x
  {
    var m := x % TwoTo32;
    if m >= TwoTo31 then m - TwoTo32 else m
  }

  function Pow2(k: nat): (p: nat)
    ensures p >= 1
  {
    if k == 0 then 1 else 2 * Pow2(k - 1)
  }

  /** `x << k`: ToInt32 of the operand, shifted, wrapped to 32 bits again. */
  function ShiftLeft(x: int, k: nat): (r: int)
    ensures -TwoTo31 <= r < TwoTo31
    ensures 0 <= x && x * Pow2(k) < TwoTo31 ==> r == x * Pow2(k)
  {
    var v := ToInt32(x) * Pow2(k);
    ToInt32(v)
  }

  /** `a % b` on JavaScript numbers: the remainder takes the sign of the dividend. */
  function JsRem(a: int, b: int): (r: int)
    requires b != 0
    ensures a >= 0 ==> 0 <= r < (if b > 0 then b else -b)
    ensures a < 0 ==> -(if b > 0 then b else -b) < r <= 0
  {
    if a >= 0 then a % b else -((-a) % b)
  }

  /** Multiples of a positive divisor, bounded by the multiplier's sign. */
  lemma {:induction false} MultipleBounds(q: int, n: int)
    requires n > 0
    ensures q >= 1 ==> q * n >= n
    ensures q >= 2 ==> q * n >= 2 * n
    ensures q >= 3 ==> q * n >= 3 * n
    ensures q <= -1 ==> q * n <= -n
  {
  }

  /** For `0 <= a <= 2n` the remainder takes off at most two divisors. */
  lemma {:induction false} RemBelowTwice(a: int, n: int)
    requires 0 < n && 0 <= a <= 2 * n
    ensures JsRem(a, n) == if a < n then a else if a < 2 * n then a - n else 0
  {
    var q := a / n;
    assert a == q * n + a % n;
    MultipleBounds(q, n);
  }
}
