/** to_hex and from_hex (TpmHelpers.cpp). */
module HexText {
  import opened Wrappers

  const WORD64 := 0x1_0000_0000_0000_0000

  /** hexDigit. */
  function HexDigit(d: nat): char
    requires d < 16
  {
    "0123456789ABCDEF"[d]
  }

  /** hexDigitVal: an 8-bit result for any character. */
  function HexDigitVal(c: char): (v: nat)
    ensures v < 0x100
  {
    (if c <= '9' then c as int - '0' as int else 10 + c as int - 'A' as int) % 0x100
  }

  /** The hexadecimal digits without leading zeros. */
  function Digits(val: nat): string {
    if val == 0 then "" else Digits(val / 16) + [HexDigit(val % 16)]
  }

  function ZeroDigits(n: nat): string {
    seq(n, _ => '0')
  }

  /** to_hex: an even number of digits, and more zeros if they are fewer than `width`. */
  function ToHex(val: nat, width: nat): string {
    if val == 0 then "00" else
    var digits := Digits(val);
    var even := if |digits| % 2 == 1 then "0" + digits else digits;
    if |even| < width then ZeroDigits((width - |even|) * 2) + even else even
  }

  /** from_hex: shifts are modulo 2^64. */
  function FromHex(hex: string): (v: nat)
    ensures v < WORD64
  {
    if hex == "" then 0 else (FromHex(hex[..|hex| - 1]) * 16 % WORD64 + HexDigitVal(hex[|hex| - 1])) % WORD64
  }

  /** The loop that picks the digits with a mask from the low end. */
  method HexString(value: nat, width: nat) returns (res: string)
    requires value < WORD64
    ensures res == ToHex(value, width)
  {
    hide HexDigit;
    if value == 0 {
      return "00";
    }
    res := "";
    var val: nat, unit: nat := value, 1;
    ghost var high: nat := value;
    assert Digits(value) + "" == Digits(value);
    while val != 0
      invariant unit > 0 && val == high * unit
      invariant Digits(value) == Digits(high) + res
      decreases high
    {
      ClearDigit(high, unit);
      var digit := val / unit % 16;
      assert high != 0;
      assert Digits(high) == Digits(high / 16) + [HexDigit(digit)];
      assert Digits(high / 16) + [HexDigit(digit)] + res == Digits(high / 16) + ([HexDigit(digit)] + res);
      res := [HexDigit(digit)] + res;
      val := val - digit * unit;
      high, unit := high / 16, unit * 16;
    }
    NoneLeft(high, unit);
    assert "" + res == res;
    if |res| % 2 == 1 {
      res := "0" + res;
    }
    if |res| < width {
      res := ZeroDigits((width - |res|) * 2) + res;
    }
  }

  lemma MulMono(a: nat, b: nat, m: nat)
    requires a <= b
    ensures a * m <= b * m
  {
    assert b * m == a * m + (b - a) * m;
  }

  lemma DivisionUnique(m: nat, d: nat, r: nat, q: nat, s: nat)
    requires r < m && s < m && d * m + r == q * m + s
    ensures d == q && r == s
  {
    if d < q {
      assert (d + 1) * m == d * m + m;
      MulMono(d + 1, q, m);
    } else if q < d {
      assert (q + 1) * m == q * m + m;
      MulMono(q + 1, d, m);
    }
  }

  lemma Division(n: nat, m: nat)
    requires m > 0
    ensures n / m * m + n % m == n && n % m < m
  {}

  lemma QuotientIs(a: nat, m: nat, q: nat, r: nat)
    requires m > 0 && a == q * m + r && r < m
    ensures a / m == q
  {
    Division(a, m);
    DivisionUnique(m, a / m, a % m, q, r);
  }

  lemma NoneLeft(high: nat, unit: nat)
    requires unit > 0 && high * unit == 0
    ensures high == 0
  {}

  /** Clearing the lowest digit of the rest, in place. */
  lemma ClearDigit(high: nat, unit: nat)
    requires unit > 0
    ensures high * unit / unit == high
    ensures high * unit - high % 16 * unit == high / 16 * (unit * 16)
  {
    QuotientIs(high * unit, unit, high, 0);
    assert high == high / 16 * 16 + high % 16;
    assert high * unit == (high / 16 * 16) * unit + high % 16 * unit;
    assert (high / 16 * 16) * unit == high / 16 * (unit * 16);
  }

  /** from_hex, digit by digit. */
  method ParseHex(hex: string) returns (res: nat)
    ensures res == FromHex(hex)
  {
    res := 0;
    var i := 0;
    while i < |hex|
      invariant i <= |hex| && res == FromHex(hex[..i])
    {
      assert hex[..i + 1][..i] == hex[..i];
      res := (res * 16 % WORD64 + HexDigitVal(hex[i])) % WORD64;
      i := i + 1;
    }
    assert hex[..i] == hex;
  }

  // ---------- the round trip ----------

  lemma DigitRoundTrip(d: nat)
    requires d < 16
    ensures HexDigitVal(HexDigit(d)) == d
  {}

  lemma {:induction false} DigitsRoundTrip(val: nat)
    requires val < WORD64
    ensures FromHex(Digits(val)) == val
  {
    hide HexDigit, HexDigitVal;
    if val != 0 {
      DigitsRoundTrip(val / 16);
      DigitRoundTrip(val % 16);
      var s := Digits(val);
      assert s[..|s| - 1] == Digits(val / 16);
      NoWrap(val);
    }
  }

  lemma NoWrap(val: nat)
    requires val < WORD64
    ensures (val / 16 * 16 % WORD64 + val % 16) % WORD64 == val
  {}

  lemma {:induction false} LeadingZeros(n: nat, s: string)
    ensures FromHex(ZeroDigits(n) + s) == FromHex(s)
    decreases |s|, n
  {
    hide HexDigitVal;
    var t := ZeroDigits(n) + s;
    if s != "" {
      assert t[..|t| - 1] == ZeroDigits(n) + s[..|s| - 1];
      LeadingZeros(n, s[..|s| - 1]);
    } else if n > 0 {
      assert t[..|t| - 1] == ZeroDigits(n - 1) + "";
      LeadingZeros(n - 1, "");
      assert HexDigitVal('0') == 0 by {
        DigitRoundTrip(0);
      }
    } else {
      assert t == s;
    }
  }

  /** Reading back a hexadecimal number of any 64-bit value, printed with any width. */
  lemma HexRoundTrip(val: nat, width: nat)
    requires val < WORD64
    ensures FromHex(ToHex(val, width)) == val
  {
    hide FromHex, Digits;
    if val == 0 {
      assert ZeroDigits(2) + "" == "00";
      LeadingZeros(2, "");
      DigitsRoundTrip(0);
      assert Digits(0) == "" by {
        NoDigits();
      }
    } else {
      var digits := Digits(val);
      DigitsRoundTrip(val);
      var even := if |digits| % 2 == 1 then "0" + digits else digits;
      assert ZeroDigits(1) == "0";
      LeadingZeros(1, digits);
      LeadingZeros(if |even| < width then (width - |even|) * 2 else 0, even);
    }
  }

  lemma NoDigits()
    ensures Digits(0) == ""
  {}
}
