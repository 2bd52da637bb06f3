/**
 * The number conversions the 4HEAT code leans on: `parseInt(s, 16)` over the hex records,
 * `Number.prototype.toString(16)` with `padStart` when a value is written back, and
 * `parseInt(s, 10)` with template-literal printing in the schedule frames.
 */
module Numbers {
  import opened Wrappers
  import opened JsText

  // ---------------------------------------------------------------- hexadecimal

  predicate IsHexDigit(c: char) {
    ('0' <= c <= '9') || ('a' <= c <= 'f') || ('A' <= c <= 'F')
  }

  predicate IsHexString(s: string) {
    forall k :: 0 <= k < |s| ==> IsHexDigit(s[k])
  }

  /** Hex text written with the digits `0-9a-f` only, as toString(16) writes it. */
  predicate IsLowerHex(s: string) {
    forall k :: 0 <= k < |s| ==> ('0' <= s[k] <= '9') || ('a' <= s[k] <= 'f')
  }

  function HexDigitValue(c: char): (d: nat)
    requires IsHexDigit(c)
    ensures d < 16
  {
    if '0' <= c <= '9' then c as int - '0' as int
    else if 'a' <= c <= 'f' then c as int - 'a' as int + 10
    else c as int - 'A' as int + 10
  }

  function Pow16(n: nat): (r: nat)
    ensures r >= 1
  {
    if n == 0 then 1 else 16 * Pow16(n - 1)
  }

  /** The value of a string of hex digits, most significant digit first. */
  function HexValue(s: string): (n: nat)
    requires IsHexString(s)
    ensures n < Pow16(|s|)
  {
    if |s| == 0 then 0 else HexValue(s[..|s| - 1]) * 16 + HexDigitValue(s[|s| - 1])
  }

  /**
   * `parseInt(s, 16)` on a field cut from a record. Only a field made entirely of hex digits
   * has a value here; an empty field or one holding another character has none.
   */
  function HexField(s: string): (r: Option<nat>)
    ensures r.Some? <==> |s| > 0 && IsHexString(s)
    ensures r.Some? ==> r.value < Pow16(|s|)
  {
    if |s| > 0 && IsHexString(s) then Some(HexValue(s)) else None
  }

  /** Two hex digits, as a byte. */
  function HexByte(hi: char, lo: char): (b: nat)
    requires IsHexDigit(hi) && IsHexDigit(lo)
    ensures b < 256
  {
    16 * HexDigitValue(hi) + HexDigitValue(lo)
  }

  function LowerHexDigit(d: nat): (c: char)
    requires d < 16
    ensures IsHexDigit(c) && HexDigitValue(c) == d
    ensures ('0' <= c <= '9') || ('a' <= c <= 'f')
  {
    if d < 10 then ('0' as int + d) as char else ('a' as int + d - 10) as char
  }

  /** `n.toString(16)` for a non-negative integer: lowercase, no leading zeros. */
  function ToHex(n: nat): (r: string)
    ensures |r| >= 1 && IsHexString(r) && IsLowerHex(r)
    ensures |r| > 1 ==> r[0] != '0'
  {
    if n < 16 then [LowerHexDigit(n)] else ToHex(n / 16) + [LowerHexDigit(n % 16)]
  }

  /** `x.toString(16)` for any integer: a negative value is written with a minus sign. */
  function ToHexSigned(x: int): (r: string)
    ensures x >= 0 ==> r == ToHex(x)
    ensures x < 0 ==> r == "-" + ToHex(-x)
  {
    if x < 0 then "-" + ToHex(-x) else ToHex(x)
  }

  lemma {:induction false} ToHexValue(n: nat)
    ensures HexValue(ToHex(n)) == n
    decreases n
  {
    if n >= 16 {
      var r := ToHex(n);
      assert r[..|r| - 1] == ToHex(n / 16);
      ToHexValue(n / 16);
    }
  }

  lemma {:induction false} ToHexLength(n: nat, k: nat)
    requires k >= 1 && n < Pow16(k)
    ensures |ToHex(n)| <= k
    decreases k
  {
    if n >= 16 {
      ToHexLength(n / 16, k - 1);
    }
  }

  function Repeat(c: char, n: nat): (r: string)
    ensures |r| == n && forall k :: 0 <= k < n ==> r[k] == c
  {
    if n == 0 then [] else [c] + Repeat(c, n - 1)
  }

  /** String.prototype.padStart with a one-character filler. */
  function PadStart(s: string, len: nat, c: char): (r: string)
    ensures |r| == if |s| >= len then |s| else len
    ensures r == Repeat(c, |r| - |s|) + s
  {
    if |s| >= len then (assert Repeat(c, 0) + s == s; s) else Repeat(c, len - |s|) + s
  }

  lemma HexConcat(a: string, b: string)
    requires IsHexString(a) && IsHexString(b)
    ensures IsHexString(a + b)
  {
    forall k | 0 <= k < |a + b| ensures IsHexDigit((a + b)[k]) {
      if k < |a| { assert (a + b)[k] == a[k]; } else { assert (a + b)[k] == b[k - |a|]; }
    }
  }

  lemma {:induction false} HexValueZeros(n: nat)
    ensures IsHexString(Repeat('0', n)) && HexValue(Repeat('0', n)) == 0
    decreases n
  {
    if n > 0 {
      assert Repeat('0', n)[..n - 1] == Repeat('0', n - 1);
      HexValueZeros(n - 1);
    }
  }

  /** Zeros in front of hex digits do not change their value. */
  lemma {:induction false} HexValueZerosPrefix(n: nat, s: string)
    requires IsHexString(s)
    ensures IsHexString(Repeat('0', n) + s)
    ensures HexValue(Repeat('0', n) + s) == HexValue(s)
    decreases |s|
  {
    var z := Repeat('0', n);
    HexValueZeros(n);
    HexConcat(z, s);
    if |s| == 0 {
      assert z + s == z;
    } else {
      var zs := z + s;
      assert zs[..|zs| - 1] == z + s[..|s| - 1];
      assert zs[|zs| - 1] == s[|s| - 1];
      HexValueZerosPrefix(n, s[..|s| - 1]);
    }
  }

  /** Leading zeros added by padStart do not change the value. */
  lemma PadStartValue(s: string, len: nat)
    requires IsHexString(s)
    ensures IsHexString(PadStart(s, len, '0'))
    ensures HexValue(PadStart(s, len, '0')) == HexValue(s)
  {
    HexValueZerosPrefix(|PadStart(s, len, '0')| - |s|, s);
  }

  lemma LowerHexConcat(a: string, b: string)
    requires IsLowerHex(a) && IsLowerHex(b)
    ensures IsLowerHex(a + b)
  {
    forall k | 0 <= k < |a + b| ensures ('0' <= (a + b)[k] <= '9') || ('a' <= (a + b)[k] <= 'f') {
      if k < |a| { assert (a + b)[k] == a[k]; } else { assert (a + b)[k] == b[k - |a|]; }
    }
  }

  /**
   * `n.toString(16).padStart(width, '0')`: lowercase hex digits worth `n`, at least `width` of
   * them, and exactly `width` when the value fits.
   */
  lemma {:induction false} PadStartHex(n: nat, width: nat)
    ensures var r := PadStart(ToHex(n), width, '0');
      |r| >= width && IsHexString(r) && IsLowerHex(r) && HexValue(r) == n
      && (width >= 1 && n < Pow16(width) ==> |r| == width)
  {
    var r := PadStart(ToHex(n), width, '0');
    ToHexValue(n);
    PadStartValue(ToHex(n), width);
    LowerHexConcat(Repeat('0', |r| - |ToHex(n)|), ToHex(n));
    if width >= 1 && n < Pow16(width) {
      ToHexLength(n, width);
    }
  }

  /** Hex digits joined: the value of the front part shifts left by the length of the back. */
  lemma {:induction false} HexValueConcat(a: string, b: string)
    requires IsHexString(a) && IsHexString(b)
    ensures IsHexString(a + b) && HexValue(a + b) == HexValue(a) * Pow16(|b|) + HexValue(b)
    decreases |b|
  {
    HexConcat(a, b);
    if |b| == 0 {
      assert a + b == a;
    } else {
      var ab, m := a + b, |b| - 1;
      var b' := b[..m];
      assert IsHexString(b');
      assert ab[..|ab| - 1] == a + b';
      assert ab[|ab| - 1] == b[m];
      HexValueConcat(a, b');
      ShiftDigit(HexValue(a), Pow16(m), HexValue(b'), HexDigitValue(b[m]));
    }
  }

  /** Appending a digit to both sides of a concatenation: the arithmetic of one step. */
  lemma ShiftDigit(va: int, p: int, vb: int, d: int)
    ensures (va * p + vb) * 16 + d == va * (16 * p) + (vb * 16 + d)
  {
  }

  /** Lowercase hex text of a given length is determined by its value. */
  lemma {:induction false} LowerHexUnique(a: string, b: string)
    requires |a| == |b| && IsHexString(a) && IsHexString(b) && IsLowerHex(a) && IsLowerHex(b)
    requires HexValue(a) == HexValue(b)
    ensures a == b
    decreases |a|
  {
    if |a| > 0 {
      var n := |a| - 1;
      LastDigitUnique(a, b);
      LowerHexUnique(a[..n], b[..n]);
      SameInitAndLast(a, b);
    }
  }

  lemma SameInitAndLast(a: string, b: string)
    requires |a| == |b| > 0 && a[..|a| - 1] == b[..|b| - 1] && a[|a| - 1] == b[|b| - 1]
    ensures a == b
  {
    assert a == a[..|a| - 1] + [a[|a| - 1]];
    assert b == b[..|b| - 1] + [b[|b| - 1]];
  }

  /** Equal values of equal length: the last digits agree, and so do the values before them. */
  lemma LastDigitUnique(a: string, b: string)
    requires |a| == |b| > 0 && IsHexString(a) && IsHexString(b) && IsLowerHex(a) && IsLowerHex(b)
    requires HexValue(a) == HexValue(b)
    ensures var n := |a| - 1;
      a[n] == b[n] && IsHexString(a[..n]) && IsHexString(b[..n]) && IsLowerHex(a[..n]) && IsLowerHex(b[..n])
      && HexValue(a[..n]) == HexValue(b[..n])
  {
    var n := |a| - 1;
    SplitDigit(HexValue(a[..n]), HexDigitValue(a[n]), HexValue(b[..n]), HexDigitValue(b[n]));
    LowerHexDigitUnique(a[n], b[n]);
  }

  /** The last digit and the rest of a value are determined by the value. */
  lemma SplitDigit(pa: int, da: int, pb: int, db: int)
    requires 0 <= da < 16 && 0 <= db < 16 && pa * 16 + da == pb * 16 + db
    ensures da == db && pa == pb
  {
  }

  /** A lowercase hex digit is determined by its value. */
  lemma LowerHexDigitUnique(c: char, e: char)
    requires IsHexDigit(c) && IsHexDigit(e) && HexDigitValue(c) == HexDigitValue(e)
    requires ('0' <= c <= '9' || 'a' <= c <= 'f') && ('0' <= e <= '9' || 'a' <= e <= 'f')
    ensures c == e
  {
  }

  /** A byte as two lowercase hex digits. */
  function Hex2(n: nat): (r: string)
    requires n < 256
    ensures |r| == 2 && IsHexString(r) && IsLowerHex(r) && HexValue(r) == n
  {
    var r := [LowerHexDigit(n / 16), LowerHexDigit(n % 16)];
    assert r[..1] == [r[0]] && [r[0]][..0] == [];
    r
  }

  /** A 16-bit word as four lowercase hex digits. */
  function Hex4(n: nat): (r: string)
    requires n < 65536
    ensures |r| == 4 && IsHexString(r) && IsLowerHex(r) && HexValue(r) == n
  {
    var hi, lo := Hex2(n / 256), Hex2(n % 256);
    HexValueConcat(hi, lo);
    LowerHexConcat(hi, lo);
    assert Pow16(2) == 256;
    hi + lo
  }

  /** A field of pure hex digits reads back as its value. */
  lemma HexFieldOf(s: string)
    requires |s| > 0 && IsHexString(s)
    ensures HexField(s) == Some(HexValue(s))
  {
  }

  // ---------------------------------------------------------------- decimal

  /** A JavaScript number as `parseInt(s, 10)` produces it: an integer or NaN. */
  datatype Number = Num(n: int) | NaN

  predicate IsDigit(c: char) {
    '0' <= c <= '9'
  }

  /** The longest run of decimal digits at the start of `s`. */
  function DigitPrefix(s: string): (r: string)
    ensures |r| <= |s| && r == s[..|r|]
    ensures forall k :: 0 <= k < |r| ==> IsDigit(r[k])
    ensures |r| < |s| ==> !IsDigit(s[|r|])
  {
    if |s| > 0 && IsDigit(s[0]) then [s[0]] + DigitPrefix(s[1..]) else []
  }

  function DigitValue(c: char): (d: nat)
    requires IsDigit(c)
    ensures d < 10
  {
    c as int - '0' as int
  }

  function DecimalValue(s: string): (n: nat)
    requires forall k :: 0 <= k < |s| ==> IsDigit(s[k])
  {
    if |s| == 0 then 0 else DecimalValue(s[..|s| - 1]) * 10 + DigitValue(s[|s| - 1])
  }

  /**
   * `parseInt(s, 10)`: leading whitespace is skipped, one `+` or `-` sign is read, then the
   * longest run of digits; without any digit the result is NaN.
   */
  function ParseDecimal(s: string): (r: Number)
    ensures r.NaN? <==> DigitPrefix(Unsigned(TrimStart(s))) == []
  {
    var t := TrimStart(s);
    var digits := DigitPrefix(Unsigned(t));
    if digits == [] then NaN
    else if |t| > 0 && t[0] == '-' then Num(-(DecimalValue(digits) as int))
    else Num(DecimalValue(digits))
  }

  /** The text after an optional leading sign. */
  function Unsigned(t: string): (r: string)
    ensures |t| > 0 && (t[0] == '-' || t[0] == '+') ==> r == t[1..]
    ensures !(|t| > 0 && (t[0] == '-' || t[0] == '+')) ==> r == t
  {
    if |t| > 0 && (t[0] == '-' || t[0] == '+') then t[1..] else t
  }

  /** The decimal digits of a non-negative integer, without leading zeros. */
  function DecimalDigits(n: nat): (r: string)
    ensures |r| >= 1 && forall k :: 0 <= k < |r| ==> IsDigit(r[k])
    ensures |r| > 1 ==> r[0] != '0'
  {
    if n < 10 then [('0' as int + n) as char]
    else DecimalDigits(n / 10) + [('0' as int + n % 10) as char]
  }

  /** A number as a template literal prints it: `${x}`. */
  function NumberText(x: Number): (r: string)
    ensures |r| >= 1 && !IsWhitespace(r[0])
    ensures forall k :: 0 <= k < |r| ==> r[k] != '"' && r[k] != ','
  {
    match x
    case NaN => "NaN"
    case Num(n) => if n < 0 then "-" + DecimalDigits(-n) else DecimalDigits(n)
  }

  lemma {:induction false} DecimalDigitsValue(n: nat)
    ensures DecimalValue(DecimalDigits(n)) == n
    decreases n
  {
    if n >= 10 {
      var r := DecimalDigits(n);
      assert r[..|r| - 1] == DecimalDigits(n / 10);
      DecimalDigitsValue(n / 10);
    }
  }

  lemma {:induction false} DigitPrefixOfDigits(s: string)
    requires forall k :: 0 <= k < |s| ==> IsDigit(s[k])
    ensures DigitPrefix(s) == s
    decreases |s|
  {
    if |s| > 0 {
      DigitPrefixOfDigits(s[1..]);
      assert [s[0]] + s[1..] == s;
    }
  }

  lemma TrimStartUnchanged(t: string)
    requires |t| >= 1 && !IsWhitespace(t[0])
    ensures TrimStart(t) == t
  {
  }

  /** Printing a number and reading it back with parseInt(s, 10) gives the number again. */
  lemma ParseNumberText(x: Number)
    ensures ParseDecimal(NumberText(x)) == x
  {
    var t := NumberText(x);
    TrimStartUnchanged(t);
    match x
    case NaN =>
      assert Unsigned(t) == t && !IsDigit(t[0]);
    case Num(n) =>
      var m: nat := if n < 0 then -n else n;
      var digits := DecimalDigits(m);
      assert Unsigned(t) == digits;
      DigitPrefixOfDigits(digits);
      DecimalDigitsValue(m);
  }

  /** Printed numbers never disturb the frame's field separators. */
  lemma NumberTextPlain(x: Number)
    ensures Plain(NumberText(x))
  {
    QuoteFreePlain(NumberText(x));
  }
}
