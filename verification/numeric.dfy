/**
 * Unsigned 64-bit integers and their decimal text form: the `u64` values the
 * wallet stores, Rust's wrapping arithmetic on them, `u64::to_string` and
 * `u64::from_str`.
 */
module Numeric {
  import opened Wrappers

  const U64_LIMIT: nat := 0x1_0000_0000_0000_0000
  const U64_MAX: nat := U64_LIMIT - 1

  type u64 = x: nat | x < U64_LIMIT

  /** `a - b` on `u64` when overflow checks are off: the result wraps modulo 2^64. */
  function WrappingSub(a: u64, b: u64): (r: u64)
  {
    if b <= a then a - b else a - b + U64_LIMIT
  }

  /** `a + b` on `u64` when overflow checks are off. */
  function WrappingAdd(a: u64, b: u64): (r: u64)
  {
    if a + b < U64_LIMIT then a + b else a + b - U64_LIMIT
  }

  /** `a - b` on `u64` clamped at zero (`saturating_sub`). */
  function SaturatingSub(a: u64, b: u64): (r: u64)
  {
    if b <= a then a - b else 0
  }

  function Pow10(k: nat): (r: nat)
    ensures r >= 1
  {
    if k == 0 then 1 else 10 * Pow10(k - 1)
  }

  predicate IsDigit(c: char)
  {
    '0' <= c <= '9'
  }

  predicate AllDigits(s: string)
  {
    forall i :: 0 <= i < |s| ==> IsDigit(s[i])
  }

  function DigitChar(d: nat): (c: char)
    requires d < 10
    ensures IsDigit(c)
  {
    (('0' as int) + d) as char
  }

  function DigitValue(c: char): (d: nat)
    requires IsDigit(c)
    ensures d < 10
  {
    (c as int) - ('0' as int)
  }

  /** The number written by a string of decimal digits, most significant first. */
  function DecimalValue(s: string): nat
    requires AllDigits(s)
  {
    if s == [] then 0 else DecimalValue(s[..|s| - 1]) * 10 + DigitValue(s[|s| - 1])
  }

  /** `n.to_string()`: the shortest decimal text of `n`. */
  function Decimal(n: nat): (s: string)
    ensures |s| > 0 && AllDigits(s)
  {
    if n < 10 then [DigitChar(n)] else Decimal(n / 10) + [DigitChar(n % 10)]
  }

  /** `s` has no superfluous leading zero. */
  predicate Canonical(s: string)
  {
    |s| > 0 && AllDigits(s) && (s[0] == '0' ==> |s| == 1)
  }

  /** `u64::from_str`: an optional `+`, then one or more ASCII digits, no overflow. */
  function ParseU64(s: string): (r: Option<u64>)
  {
    var digits := if |s| > 0 && s[0] == '+' then s[1..] else s;
    if |digits| == 0 || !AllDigits(digits) then None
    else
      var v := DecimalValue(digits);
      if v < U64_LIMIT then Some(v) else None
  }

  lemma DigitRoundTrip(d: nat)
    requires d < 10
    ensures DigitValue(DigitChar(d)) == d
  {
  }

  lemma AllDigitsAppend(a: string, b: string)
    requires AllDigits(a) && AllDigits(b)
    ensures AllDigits(a + b)
  {
    forall i | 0 <= i < |a + b| ensures IsDigit((a + b)[i]) {
      if i < |a| { assert (a + b)[i] == a[i]; } else { assert (a + b)[i] == b[i - |a|]; }
    }
  }

  lemma MulTen(x: nat, p: nat, y: nat, d: nat)
    ensures (x * p + y) * 10 + d == x * (p * 10) + (y * 10 + d)
  {
  }

  lemma {:induction false} DecimalValueAppend(a: string, b: string)
    requires AllDigits(a) && AllDigits(b)
    ensures AllDigits(a + b)
    ensures DecimalValue(a + b) == DecimalValue(a) * Pow10(|b|) + DecimalValue(b)
    decreases |b|
  {
    AllDigitsAppend(a, b);
    if b == [] {
      assert a + b == a;
    } else {
      var b' := b[..|b| - 1];
      assert AllDigits(b');
      assert (a + b)[..|a + b| - 1] == a + b';
      assert (a + b)[|a + b| - 1] == b[|b| - 1];
      DecimalValueAppend(a, b');
      var x, y, p, d := DecimalValue(a), DecimalValue(b'), Pow10(|b'|), DigitValue(b[|b| - 1]);
      assert DecimalValue(a + b) == (x * p + y) * 10 + d;
      assert DecimalValue(b) == y * 10 + d;
      assert Pow10(|b|) == p * 10;
      MulTen(x, p, y, d);
    }
  }

  lemma {:induction false} DecimalLeadingDigit(n: nat)
    ensures Decimal(n)[0] == '0' <==> n == 0
  {
    if n >= 10 {
      DecimalLeadingDigit(n / 10);
    }
  }

  /** Decimal text read back gives the number it was written from. */
  lemma {:induction false} DecimalRoundTrip(n: nat)
    ensures DecimalValue(Decimal(n)) == n
    ensures Canonical(Decimal(n))
  {
    DecimalLeadingDigit(n);
    if n < 10 {
      DigitRoundTrip(n);
      assert Decimal(n)[..0] == [];
    } else {
      DecimalRoundTrip(n / 10);
      var s := Decimal(n);
      assert s[..|s| - 1] == Decimal(n / 10);
      DigitRoundTrip(n % 10);
    }
  }

  /** The checkpoint text written with `to_string` is read back by `from_str` unchanged. */
  lemma ParseU64Decimal(n: u64)
    ensures ParseU64(Decimal(n)) == Some(n)
  {
    DecimalRoundTrip(n);
    assert Decimal(n)[0] != '+';
  }

  /** `n` zero-padded on the left to at least `width` digits. */
  function PadLeft(n: nat, width: nat): (s: string)
    ensures AllDigits(s)
    ensures |s| == if |Decimal(n)| < width then width else |Decimal(n)|
  {
    var d := Decimal(n);
    if |d| < width then Zeros(width - |d|) + d else d
  }

  function Zeros(k: nat): (s: string)
    ensures |s| == k && AllDigits(s)
    ensures forall i :: 0 <= i < k ==> s[i] == '0'
  {
    seq(k, _ => '0')
  }

  lemma {:induction false} ZerosValue(k: nat)
    ensures DecimalValue(Zeros(k)) == 0
  {
    if k > 0 {
      assert Zeros(k)[..k - 1] == Zeros(k - 1);
      ZerosValue(k - 1);
    }
  }

  /** Zero padding does not change the number a digit string denotes. */
  lemma PadLeftValue(n: nat, width: nat)
    ensures DecimalValue(PadLeft(n, width)) == n
  {
    DecimalRoundTrip(n);
    var d := Decimal(n);
    if |d| < width {
      var z := Zeros(width - |d|);
      ZerosValue(width - |d|);
      DecimalValueAppend(z, d);
      assert PadLeft(n, width) == z + d;
      assert DecimalValue(z + d) == 0 * Pow10(|d|) + n;
    }
  }

  lemma DecimalLength(n: nat, k: nat)
    requires n < Pow10(k)
    ensures |Decimal(n)| <= if k == 0 then 1 else k
    decreases k
  {
    if n >= 10 {
      assert k >= 2;
      DecimalLength(n / 10, k - 1);
    }
  }
}
