/** The pieces of `sprintf` the detector uses: `%0Nx`, `%0NX` and `%02d`. */
module Format {

  import opened Endian

  function Pow16(n: nat): (p: nat)
    ensures p >= 1
  {
    if n == 0 then 1 else 16 * Pow16(n - 1)
  }

  function Pow10(n: nat): (p: nat)
    ensures p >= 1
  {
    if n == 0 then 1 else 10 * Pow10(n - 1)
  }

  predicate IsLowerHexDigit(c: char) { '0' <= c <= '9' || 'a' <= c <= 'f' }
  predicate IsUpperHexDigit(c: char) { '0' <= c <= '9' || 'A' <= c <= 'F' }
  predicate IsDecimalDigit(c: char) { '0' <= c <= '9' }

  function HexChar(d: nat, upper: bool): (c: char)
    requires d < 16
    ensures if upper then IsUpperHexDigit(c) else IsLowerHexDigit(c)
  {
    if d < 10 then ('0' as int + d) as char
    else if upper then ('A' as int + d - 10) as char
    else ('a' as int + d - 10) as char
  }

  /** The value of one hex digit of either case. */
  function HexValueOf(c: char): (d: nat)
    ensures d < 16
  {
    if '0' <= c <= '9' then c as int - '0' as int
    else if 'a' <= c <= 'f' then c as int - 'a' as int + 10
    else if 'A' <= c <= 'F' then c as int - 'A' as int + 10
    else 0
  }

  /** Exactly `width` hex digits of v, most significant first. For v < 16^width this is
      `%0<width>x` (or `X`); for larger v only the low `width` digits are kept, where
      `printf` would print them all. Every caller passes a value below 16^width. */
  function Hex(v: nat, width: nat, upper: bool): (s: seq<char>)
    ensures |s| == width
    ensures forall i :: 0 <= i < |s| ==> if upper then IsUpperHexDigit(s[i]) else IsLowerHexDigit(s[i])
  {
    if width == 0 then [] else Hex(v / 16, width - 1, upper) + [HexChar(v % 16, upper)]
  }

  /** Reads a string of hex digits back as a number. */
  function HexValue(s: seq<char>): nat
  {
    if s == [] then 0 else HexValue(s[..|s| - 1]) * 16 + HexValueOf(s[|s| - 1])
  }

  lemma HexCharValue(d: nat, upper: bool)
    requires d < 16
    ensures HexValueOf(HexChar(d, upper)) == d
  {
  }

  /** The hex text reads back as the value whenever the value fits the width. */
  lemma {:induction false} HexRoundTrip(v: nat, width: nat, upper: bool)
    requires v < Pow16(width)
    ensures HexValue(Hex(v, width, upper)) == v
  {
    if width > 0 {
      var s := Hex(v, width, upper);
      assert s[..|s| - 1] == Hex(v / 16, width - 1, upper);
      HexRoundTrip(v / 16, width - 1, upper);
      HexCharValue(v % 16, upper);
    }
  }

  lemma HexInjective(a: nat, b: nat, width: nat, upper: bool)
    requires a < Pow16(width) && b < Pow16(width)
    requires Hex(a, width, upper) == Hex(b, width, upper)
    ensures a == b
  {
    HexRoundTrip(a, width, upper);
    HexRoundTrip(b, width, upper);
  }

  /** Appending a digit d to the value appends its character to the text. */
  lemma HexShiftDigit(x: nat, d: nat, width: nat, upper: bool)
    requires d < 16
    ensures Hex(x * 16 + d, width + 1, upper) == Hex(x, width, upper) + [HexChar(d, upper)]
  {
    assert (x * 16 + d) / 16 == x;
    assert (x * 16 + d) % 16 == d;
  }

  /** Two lower-case hex digits per byte, in the order given. */
  function HexBytes(bs: seq<uint8>): (s: seq<char>)
    ensures |s| == 2 * |bs|
  {
    if bs == [] then [] else HexBytes(bs[..|bs| - 1]) + Hex(bs[|bs| - 1], 2, false)
  }

  /** Appending a byte to the value appends its two hex digits to the text. */
  lemma HexShiftByte(x: nat, b: uint8, width: nat)
    ensures Hex(x * 256 + b, width + 2, false) == Hex(x, width, false) + Hex(b, 2, false)
  {
    var hi, lo := b / 16, b % 16;
    assert x * 256 + b == (x * 16 + hi) * 16 + lo;
    HexShiftDigit(x * 16 + hi, lo, width + 1, false);
    HexShiftDigit(x, hi, width, false);
    HexShiftDigit(0, hi, 0, false);
    HexShiftDigit(hi, lo, 1, false);
    assert b == hi * 16 + lo;
  }

  /** `%0<2n>x` of a big-endian field prints its bytes in stored order. */
  lemma {:induction false} HexOfBe(bs: seq<uint8>)
    ensures Hex(BE(bs), 2 * |bs|, false) == HexBytes(bs)
  {
    if bs != [] {
      var init, b := bs[..|bs| - 1], bs[|bs| - 1];
      HexOfBe(init);
      HexShiftByte(BE(init), b, 2 * |init|);
    }
  }

  /** `%0<2n>x` of a little-endian field prints its bytes in reverse order. */
  lemma HexOfLe(bs: seq<uint8>)
    ensures Hex(LE(bs), 2 * |bs|, false) == HexBytes(Reverse(bs))
  {
    LeIsBeOfReverse(bs);
    HexOfBe(Reverse(bs));
  }

  lemma {:induction false} Pow256IsPow16(n: nat)
    ensures Pow256(n) == Pow16(2 * n)
  {
    if n > 0 {
      Pow256IsPow16(n - 1);
    }
  }

  function DigitChar(d: nat): (c: char)
    requires d < 10
    ensures IsDecimalDigit(c)
  {
    ('0' as int + d) as char
  }

  /** The decimal digits of n with no leading zero: `%d` of a non-negative value. */
  function Decimal(n: nat): (s: seq<char>)
    ensures |s| >= 1
    ensures forall i :: 0 <= i < |s| ==> IsDecimalDigit(s[i])
  {
    if n < 10 then [DigitChar(n)] else Decimal(n / 10) + [DigitChar(n % 10)]
  }

  function DecimalValue(s: seq<char>): nat
  {
    if s == [] then 0 else DecimalValue(s[..|s| - 1]) * 10 + (s[|s| - 1] as int - '0' as int) % 10
  }

  /** The decimal text reads back as the number, and it starts with '0' only for zero. */
  lemma {:induction false} DecimalRoundTrip(n: nat)
    ensures DecimalValue(Decimal(n)) == n
    ensures Decimal(n)[0] == '0' <==> n == 0
  {
    if n >= 10 {
      var s := Decimal(n);
      assert s[..|s| - 1] == Decimal(n / 10);
      DecimalRoundTrip(n / 10);
    }
  }

  /** `%02d`: a minus sign before a negative value, else zero padding to two digits. */
  function Dec02(x: int): (s: seq<char>)
    ensures |s| >= 2
  {
    if x < 0 then ['-'] + Decimal(-x)
    else if x < 10 then ['0', DigitChar(x)]
    else Decimal(x)
  }

  /** What `%02d` promises: at least two characters; for a non-negative value only
      digits that read back as the value, with a leading zero exactly when it is below 10. */
  lemma Dec02Meaning(x: int)
    ensures x >= 0 ==> (forall i :: 0 <= i < |Dec02(x)| ==> IsDecimalDigit(Dec02(x)[i]))
    ensures x >= 0 ==> DecimalValue(Dec02(x)) == x
    ensures x >= 0 ==> (Dec02(x)[0] == '0' <==> x < 10)
    ensures x >= 0 ==> (|Dec02(x)| == 2 <==> x < 100)
    ensures x < 0 ==> Dec02(x)[0] == '-' && DecimalValue(Dec02(x)[1..]) == -x
  {
    if x >= 10 {
      DecimalRoundTrip(x);
      DecimalLength(x);
    } else if x >= 0 {
      assert Dec02(x)[..1] == ['0'];
      assert DecimalValue(['0']) == 0;
    } else {
      assert Dec02(x)[1..] == Decimal(-x);
      DecimalRoundTrip(-x);
    }
  }

  lemma {:induction false} DecimalLength(n: nat)
    ensures |Decimal(n)| == 1 <==> n < 10
    ensures |Decimal(n)| == 2 <==> 10 <= n < 100
  {
    if n >= 10 {
      DecimalLength(n / 10);
    }
  }

  /** The decimal text of `n` has at most `k` digits exactly when `n < 10^k`. */
  lemma {:induction false} DecimalLengthBound(n: nat, k: nat)
    requires k >= 1
    ensures |Decimal(n)| <= k <==> n < Pow10(k)
  {
    if n >= 10 {
      if k == 1 {
        assert Pow10(1) == 10;
      } else {
        DecimalLengthBound(n / 10, k - 1);
        assert n / 10 < Pow10(k - 1) <==> n < 10 * Pow10(k - 1);
      }
    } else {
      PowTenAtLeastTen(k);
    }
  }

  lemma {:induction false} PowTenAtLeastTen(k: nat)
    requires k >= 1
    ensures Pow10(k) >= 10
  {
    if k > 1 {
      PowTenAtLeastTen(k - 1);
    }
  }
}
