/**
 * Rust's decimal integer parsing (`from_str_radix(s, 10)`) and formatting
 * (`format!("{}", n)`), which the numeric headers are built on.
 */
module Decimal {
  import opened Wrappers
  import opened Octets

  predicate IsDigit(c: Byte) { '0' <= c <= '9' }

  predicate AllDigits(s: Bytes) {
    forall i :: 0 <= i < |s| ==> IsDigit(s[i])
  }

  function DigitValue(c: Byte): (d: nat)
    requires IsDigit(c)
    ensures d < 10
  {
    c as int - '0' as int
  }

  function Digit(d: nat): (c: Byte)
    requires d < 10
    ensures IsDigit(c) && DigitValue(c) == d
  {
    (d + '0' as int) as char
  }

  /** The number the first k digits of s denote, most significant first. */
  function PrefixValue(s: Bytes, k: nat): nat
    requires k <= |s| && AllDigits(s)
  {
    if k == 0 then 0 else 10 * PrefixValue(s, k - 1) + DigitValue(s[k - 1])
  }

  /** The number a run of decimal digits denotes; leading zeros are allowed. */
  function DigitsValue(s: Bytes): nat
    requires AllDigits(s)
  {
    PrefixValue(s, |s|)
  }

  /**
   * `from_str_radix(s, 10)` for an integer type whose range is [min, max]:
   * an optional `+` (or `-` when the type is signed, min < 0), then at least
   * one decimal digit, and a value that fits the type.
   */
  function FromStrRadix10(s: Bytes, min: int, max: int): (r: Option<int>)
    ensures r.Some? ==> min <= r.value <= max
  {
    if s == [] then None
    else if |s| == 1 && (s[0] == '+' || s[0] == '-') then None
    else
      var negative := s[0] == '-' && min < 0;
      var digits := if s[0] == '+' || negative then s[1..] else s;
      if !AllDigits(digits) then None
      else
        var v: int := if negative then 0 - DigitsValue(digits) as int else DigitsValue(digits);
        if min <= v <= max then Some(v) else None
  }

  /** An unsigned type never accepts a minus sign, not even in `-0`. */
  lemma UnsignedRejectsMinus(s: Bytes, max: int)
    requires |s| > 0 && s[0] == '-'
    ensures FromStrRadix10(s, 0, max) == None
  {
    assert !IsDigit(s[0]);
  }

  /** Appending a digit shifts the value one decimal place. */
  lemma {:induction false} PrefixValueAppend(s: Bytes, c: Byte, k: nat)
    requires AllDigits(s) && IsDigit(c) && k <= |s|
    ensures AllDigits(s + [c]) && PrefixValue(s + [c], k) == PrefixValue(s, k)
  {
    if k > 0 {
      PrefixValueAppend(s, c, k - 1);
    }
  }

  /** `format!("{}", n)`: the digits of n, most significant first, without leading zeros. */
  function Format(n: nat): (r: Bytes)
    ensures |r| > 0 && AllDigits(r) && DigitsValue(r) == n
    ensures |r| > 1 ==> r[0] != '0'
    ensures ValidHeaderValue(r)
  {
    if n < 10 then
      assert PrefixValue([Digit(n)], 1) == n;
      [Digit(n)]
    else
      var high := Format(n / 10);
      PrefixValueAppend(high, Digit(n % 10), |high|);
      high + [Digit(n % 10)]
  }

  /**
   * The `encode` of every numeric header: `format!("{}", n)` as the one
   * value pushed.
   */
  function EncodeNumber(n: nat): (r: seq<Bytes>)
    ensures |r| == 1 && ValidHeaderValue(r[0]) && AllDigits(r[0]) && DigitsValue(r[0]) == n
  {
    [Format(n)]
  }

  /** Parsing what Format produced gives the number back exactly when it fits the type. */
  lemma FormatThenParse(n: nat, min: int, max: int)
    requires min <= 0
    ensures FromStrRadix10(Format(n), min, max) == if n <= max then Some(n) else None
  {
    var s := Format(n);
    assert IsDigit(s[0]);
  }

  // Signed 32-bit parses of the numbers the BOOTID and CONFIGID tests use.

  const I32_MAX_TEXT: Bytes := "2147483647"
  const BOOT_TEXT: Bytes := "1216907400"
  const RESERVED_TEXT: Bytes := "20720000"
  const OVERFLOW_TEXT: Bytes := "2290649224"
  const GARBLED_TEXT: Bytes := "2290wow649224"

  lemma ParseI32Max()
    ensures FromStrRadix10(I32_MAX_TEXT, I32_MIN, I32_MAX) == Some(2147483647)
  {
    var m: Bytes := I32_MAX_TEXT;
    assert AllDigits(m);
    assert PrefixValue(m, 3) == 214 by {
      assert PrefixValue(m, 1) == 2;
      assert PrefixValue(m, 2) == 21;
    }
    assert PrefixValue(m, 6) == 214748 by {
      assert PrefixValue(m, 4) == 2147;
      assert PrefixValue(m, 5) == 21474;
    }
    assert PrefixValue(m, 9) == 214748364 by {
      assert PrefixValue(m, 7) == 2147483;
      assert PrefixValue(m, 8) == 21474836;
    }
    assert PrefixValue(m, 10) == 2147483647;
  }

  /** `-0` is a valid signed decimal, and it is zero. */
  lemma ParseZeros()
    ensures FromStrRadix10("0", I32_MIN, I32_MAX) == Some(0)
    ensures FromStrRadix10("-0", I32_MIN, I32_MAX) == Some(0)
  {
    assert PrefixValue("0", 1) == 0;
    var z: Bytes := "-0";
    assert z[1..] == "0";
  }

  lemma ParseBootValue()
    ensures FromStrRadix10(BOOT_TEXT, I32_MIN, I32_MAX) == Some(1216907400)
  {
    var b: Bytes := BOOT_TEXT;
    assert AllDigits(b);
    assert PrefixValue(b, 3) == 121 by {
      assert PrefixValue(b, 1) == 1;
      assert PrefixValue(b, 2) == 12;
    }
    assert PrefixValue(b, 6) == 121690 by {
      assert PrefixValue(b, 4) == 1216;
      assert PrefixValue(b, 5) == 12169;
    }
    assert PrefixValue(b, 9) == 121690740 by {
      assert PrefixValue(b, 7) == 1216907;
      assert PrefixValue(b, 8) == 12169074;
    }
    assert PrefixValue(b, 10) == 1216907400;
  }

  /** A leading zero does not change the value of a run of digits. */
  lemma {:induction false} PrefixValueLeadingZero(s: Bytes, k: nat)
    requires AllDigits(s) && k <= |s|
    ensures AllDigits(['0'] + s) && PrefixValue(['0'] + s, k + 1) == PrefixValue(s, k)
  {
    var z := ['0'] + s;
    assert AllDigits(z) by {
      forall i | 0 <= i < |z| ensures IsDigit(z[i]) {
        if i > 0 { assert z[i] == s[i - 1]; }
      }
    }
    if k > 0 {
      PrefixValueLeadingZero(s, k - 1);
      assert z[k] == s[k - 1];
    }
  }

  /** An unsigned run of digits parses the same with a zero in front. */
  lemma ParseLeadingZero(s: Bytes, min: int, max: int)
    requires s != [] && AllDigits(s)
    ensures AllDigits(['0'] + s)
    ensures FromStrRadix10(['0'] + s, min, max) == FromStrRadix10(s, min, max)
  {
    PrefixValueLeadingZero(s, |s|);
    assert IsDigit(s[0]);
  }

  /** Any number of leading zeros leaves an unsigned parse unchanged. */
  lemma {:induction false} ParseLeadingZeros(zeros: Bytes, s: Bytes, min: int, max: int)
    requires s != [] && AllDigits(s)
    requires forall i :: 0 <= i < |zeros| ==> zeros[i] == '0'
    ensures AllDigits(zeros + s)
    ensures FromStrRadix10(zeros + s, min, max) == FromStrRadix10(s, min, max)
  {
    if zeros != [] {
      ParseLeadingZeros(zeros[1..], s, min, max);
      assert zeros + s == ['0'] + (zeros[1..] + s);
      ParseLeadingZero(zeros[1..] + s, min, max);
    } else {
      assert zeros + s == s;
    }
  }

  /** The BOOTID test value with six leading zeros (written as the zeros, then the digits). */
  lemma ParseBootValueLeadingZeros()
    ensures FromStrRadix10("000000" + BOOT_TEXT, I32_MIN, I32_MAX) == Some(1216907400)
  {
    ParseBootValue();
    ParseLeadingZeros("000000", BOOT_TEXT, I32_MIN, I32_MAX);
  }

  lemma ParseReserved()
    ensures FromStrRadix10(RESERVED_TEXT, I32_MIN, I32_MAX) == Some(20720000)
  {
    var r: Bytes := RESERVED_TEXT;
    assert AllDigits(r);
    assert PrefixValue(r, 3) == 207 by {
      assert PrefixValue(r, 1) == 2;
      assert PrefixValue(r, 2) == 20;
    }
    assert PrefixValue(r, 6) == 207200 by {
      assert PrefixValue(r, 4) == 2072;
      assert PrefixValue(r, 5) == 20720;
    }
    assert PrefixValue(r, 8) == 20720000 by {
      assert PrefixValue(r, 7) == 2072000;
    }
  }

  /** Values beyond the signed 32-bit range fail in either direction, and so does non-digit text. */
  lemma ParseI32Rejects()
    ensures FromStrRadix10(OVERFLOW_TEXT, I32_MIN, I32_MAX) == None
    ensures FromStrRadix10("-" + OVERFLOW_TEXT, I32_MIN, I32_MAX) == None
    ensures FromStrRadix10(GARBLED_TEXT, I32_MIN, I32_MAX) == None
  {
    ParseOverflow();
    var w: Bytes := GARBLED_TEXT;
    assert !IsDigit(w[4]);
  }

  /** 2290649224 is past the signed 32-bit range, with or without a minus sign. */
  lemma ParseOverflow()
    ensures FromStrRadix10(OVERFLOW_TEXT, I32_MIN, I32_MAX) == None
    ensures FromStrRadix10("-" + OVERFLOW_TEXT, I32_MIN, I32_MAX) == None
  {
    var o: Bytes := OVERFLOW_TEXT;
    assert AllDigits(o);
    assert PrefixValue(o, 3) == 229 by {
      assert PrefixValue(o, 1) == 2;
      assert PrefixValue(o, 2) == 22;
    }
    assert PrefixValue(o, 6) == 229064 by {
      assert PrefixValue(o, 4) == 2290;
      assert PrefixValue(o, 5) == 22906;
    }
    assert PrefixValue(o, 9) == 229064922 by {
      assert PrefixValue(o, 7) == 2290649;
      assert PrefixValue(o, 8) == 22906492;
    }
    assert PrefixValue(o, 10) == 2290649224;
    var n: Bytes := "-" + OVERFLOW_TEXT;
    assert n[1..] == o;
  }
}
