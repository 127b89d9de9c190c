/**
 * The parser's floating-point route as the code writes it:
 * `captures[1].parse::<f64>()`, the multiplication by `1000000000000_u64 as f64`
 * and the saturating `as u64` cast (opuza-monero-client/src/piconero.rs:63-64).
 *
 * A binary64 value is `m * 2^e` with a 53-bit significand, and every
 * operation rounds its exact result to the nearest such value, ties to an
 * even significand (section 4.3.1 of IEEE 754-2008). The exponent range is
 * left unbounded: below it the scaled value is under one piconero and
 * truncates to 0 either way, and above it both `inf` and a finite huge
 * value saturate to `u64::MAX`, so the cast gives the same result.
 */
module FloatRoute {
  import opened Wrappers
  import opened Numeric
  import opened Piconero

  const SIGNIFICAND_BITS: nat := 53

  function Pow2(n: nat): (r: nat)
    ensures r >= 1
  {
    if n == 0 then 1 else 2 * Pow2(n - 1)
  }

  /** The binary64 value `m * 2^e`. */
  datatype Double = Double(m: nat, e: int)

  /** The exact value of `d` as a fraction `num / den`. */
  function Num(d: Double): nat
  {
    if d.e >= 0 then d.m * Pow2(d.e) else d.m
  }

  function Den(d: Double): (r: nat)
    ensures r >= 1
  {
    if d.e >= 0 then 1 else Pow2(-d.e)
  }

  /** The `k` with `2^k <= num / den < 2^(k+1)`, for `num >= den`. */
  function BinadeUp(num: nat, den: nat): (k: nat)
    requires 0 < den <= num
    ensures den * Pow2(k) <= num < den * Pow2(k + 1)
    decreases num - den
  {
    if num < 2 * den then 0
    else
      var k := BinadeUp(num, 2 * den);
      assert 2 * den * Pow2(k) == den * Pow2(k + 1);
      assert 2 * den * Pow2(k + 1) == den * Pow2(k + 2);
      k + 1
  }

  /** The `k >= 1` with `2^-k <= num / den < 2^(1-k)`, for `0 < num < den`. */
  function BinadeDown(num: nat, den: nat): (k: nat)
    requires 0 < num < den
    ensures k >= 1
    ensures den <= num * Pow2(k) < 2 * den
    decreases den - num
  {
    if 2 * num >= den then 1
    else
      var k := BinadeDown(2 * num, den);
      assert 2 * num * Pow2(k) == num * Pow2(k + 1);
      k + 1
  }

  /** `a / b` rounded to the nearest integer, ties to even. */
  function RoundHalfEven(a: nat, b: nat): (q: nat)
    requires b > 0
  {
    var q0, r := a / b, a % b;
    if 2 * r > b || (2 * r == b && q0 % 2 == 1) then q0 + 1 else q0
  }

  /** The binary64 value nearest to `num / den`. */
  function Nearest(num: nat, den: nat): (d: Double)
    requires den > 0
  {
    if num == 0 then Double(0, 0)
    else
      var k: int := if num >= den then BinadeUp(num, den) else -(BinadeDown(num, den) as int);
      var e := k - (SIGNIFICAND_BITS - 1);
      var m := if e >= 0 then RoundHalfEven(num, den * Pow2(e)) else RoundHalfEven(num * Pow2(-e), den);
      if m == Pow2(SIGNIFICAND_BITS) then Double(Pow2(SIGNIFICAND_BITS - 1), e + 1) else Double(m, e)
  }

  /** `d * c` for a whole number `c`, rounded. */
  function MulWhole(d: Double, c: nat): Double
  {
    Nearest(Num(d) * c, Den(d))
  }

  /** `as u64`: truncation toward zero, saturating at `u64::MAX`. */
  function ToU64(d: Double): (v: u64)
  {
    Saturate(Num(d), Den(d))
  }

  function Saturate(num: nat, den: nat): (v: u64)
    requires den > 0
  {
    var t := num / den;
    if t < U64_LIMIT then t else U64_MAX
  }

  /** The piconero value the code computes for the digits `whole.frac`. */
  function FloatAmount(whole: string, frac: string): (v: u64)
    requires AllDigits(whole) && AllDigits(frac)
  {
    AllDigitsAppend(whole, frac);
    var x := Nearest(DecimalValue(whole + frac), Pow10(|frac|));
    ToU64(MulWhole(x, ONE_XMR))
  }

  /** `PiconeroVisitor::visit_str` with its floating-point arithmetic. */
  function ParseAsWritten(s: string): (r: Result<Piconero, ParseError>)
    ensures r.Success? <==> Parse(s).Success?
    ensures r.Failure? ==> r == Parse(s)
  {
    if !EndsWith(s, UNIT_SUFFIX) then Failure(InvalidValue(s))
    else
      var number := s[..|s| - |UNIT_SUFFIX|];
      var dot := FirstDot(number);
      if dot == |number| then
        if Digits1(number) then Success(Piconero(FloatAmount(number, ""))) else Failure(InvalidValue(s))
      else
        var whole := number[..dot];
        var frac := number[dot + 1..];
        if Digits1(whole) && Digits1(frac) then Success(Piconero(FloatAmount(whole, frac)))
        else Failure(InvalidValue(s))
  }

  /* ---------------------------------------------------------------------- */
  /* Powers of two                                                           */
  /* ---------------------------------------------------------------------- */

  lemma {:induction false} Pow2Add(a: nat, b: nat)
    ensures Pow2(a + b) == Pow2(a) * Pow2(b)
    decreases a
  {
    if a > 0 {
      Pow2Add(a - 1, b);
    }
  }

  lemma Pow2Monotone(a: nat, b: nat)
    requires a <= b
    ensures Pow2(a) <= Pow2(b)
  {
    Pow2Add(a, b - a);
    MulAtLeast(Pow2(a), Pow2(b - a));
  }

  lemma MulAtLeast(x: nat, y: nat)
    requires y >= 1
    ensures x <= x * y
  {
  }

  lemma MulMonotone(x: nat, a: nat, b: nat)
    requires a <= b
    ensures x * a <= x * b
  {
  }

  lemma Pow2Step(a: nat, b: nat, pa: nat, pb: nat)
    requires Pow2(a) == pa && Pow2(b) == pb
    ensures Pow2(a + b) == pa * pb
  {
    Pow2Add(a, b);
  }

  /* The powers of two the 61-piconero example needs. */

  lemma Pow2Small()
    ensures Pow2(4) == 16 && Pow2(5) == 32 && Pow2(6) == 64
  {
    assert Pow2(1) == 2;
    assert Pow2(2) == 4;
    assert Pow2(3) == 8;
    assert Pow2(4) == 16;
    assert Pow2(5) == 32;
  }

  lemma Pow2At34()
    ensures Pow2(34) == 17179869184
  {
    Pow2Small();
    Pow2Step(6, 6, 64, 64);
    Pow2Step(12, 12, 4096, 4096);
    Pow2Step(6, 4, 64, 16);
    Pow2Step(24, 10, 16777216, 1024);
  }

  lemma Pow2At47()
    ensures Pow2(47) == 140737488355328
  {
    Pow2Small();
    Pow2At34();
    Pow2Step(6, 6, 64, 64);
    Pow2Step(34, 6, 17179869184, 64);
    Pow2Step(40, 6, 1099511627776, 64);
    Pow2Step(46, 1, 70368744177664, 2);
  }

  lemma Pow2At53()
    ensures Pow2(53) == 9007199254740992
  {
    Pow2Small();
    Pow2At47();
    Pow2Step(47, 6, 140737488355328, 64);
  }

  lemma Pow2At86()
    ensures Pow2(86) == 77371252455336267181195264
  {
    Pow2Small();
    Pow2At34();
    Pow2At47();
    Pow2Step(34, 5, 17179869184, 32);
    Pow2Step(47, 39, 140737488355328, 549755813888);
  }

  /* ---------------------------------------------------------------------- */
  /* The binade of a fraction is unique                                      */
  /* ---------------------------------------------------------------------- */

  lemma BinadeUpIs(num: nat, den: nat, k: nat)
    requires 0 < den <= num
    requires den * Pow2(k) <= num < den * Pow2(k + 1)
    ensures BinadeUp(num, den) == k
  {
    var j := BinadeUp(num, den);
    if j < k {
      Pow2Monotone(j + 1, k);
      MulMonotone(den, Pow2(j + 1), Pow2(k));
    } else if j > k {
      Pow2Monotone(k + 1, j);
      MulMonotone(den, Pow2(k + 1), Pow2(j));
    }
  }

  lemma BinadeDownIs(num: nat, den: nat, k: nat)
    requires 0 < num < den && k >= 1
    requires den <= num * Pow2(k) < 2 * den
    ensures BinadeDown(num, den) == k
  {
    var j := BinadeDown(num, den);
    if j < k {
      DoubledBelow(num, den, j, k);
    } else if j > k {
      DoubledBelow(num, den, k, j);
    }
  }

  lemma DoubledBelow(num: nat, den: nat, a: nat, b: nat)
    requires a < b && den <= num * Pow2(a)
    ensures 2 * den <= num * Pow2(b)
  {
    Pow2Monotone(a + 1, b);
    MulMonotone(num, Pow2(a + 1), Pow2(b));
    TwiceProduct(num, Pow2(a));
  }

  lemma TwiceProduct(x: nat, y: nat)
    ensures x * (2 * y) == 2 * (x * y)
  {
  }

  /* ---------------------------------------------------------------------- */
  /* The round trip the floating-point route breaks                          */
  /* ---------------------------------------------------------------------- */

  /** The parser reaches `FloatAmount` on the digits of a `<digits>.<digits> XMR` text. */
  lemma ParseAsWrittenDecimal(whole: string, frac: string)
    requires Digits1(whole) && Digits1(frac)
    ensures ParseAsWritten(whole + "." + frac + UNIT_SUFFIX) == Success(Piconero(FloatAmount(whole, frac)))
  {
    var s := whole + "." + frac + UNIT_SUFFIX;
    var number := s[..|s| - |UNIT_SUFFIX|];
    assert number == whole + "." + frac;
    FirstDotAfterDigits(whole, frac);
    assert number[..|whole|] == whole;
    assert number[|whole| + 1..] == frac;
  }

  /** `"0.000000000061".parse::<f64>()` is `4719646399775512 * 2^-86`. */
  lemma ParseSixtyOne()
    ensures Nearest(61, ONE_XMR) == Double(4719646399775512, -86)
  {
    Pow2At34();
    Pow2At53();
    Pow2At86();
    BinadeDownIs(61, ONE_XMR, 34);
    assert RoundHalfEven(61 * 77371252455336267181195264, ONE_XMR) == 4719646399775512;
  }

  /** Multiplied by `1e12` it rounds to `8584986789675007 * 2^-47`, just below 61. */
  lemma ScaleSixtyOne()
    ensures MulWhole(Double(4719646399775512, -86), ONE_XMR) == Double(8584986789675007, -47)
  {
    Pow2Small();
    Pow2At47();
    Pow2At53();
    Pow2At86();
    var num := 4719646399775512 * ONE_XMR;
    var den := 77371252455336267181195264;
    BinadeUpIs(num, den, 5);
    assert RoundHalfEven(num * 140737488355328, den) == 8584986789675007;
  }

  /** `as u64` truncates `8584986789675007 * 2^-47` to 60. */
  lemma TruncateSixty()
    ensures ToU64(Double(8584986789675007, -47)) == 60
  {
    Pow2At47();
  }


  /** 61 piconero display with all twelve fraction digits. */
  lemma DisplaySixtyOne()
    ensures Display(Piconero(61)) == "0.000000000061 XMR"
  {
    var f := "000000000061";
    SixtyOneDigits();
    FractionUnique(f, 61);
    DisplayOf(61, 0, 61);
    assert Group(0) == "0";
  }

  /** 60 piconero display with eleven fraction digits. */
  lemma DisplaySixty()
    ensures Display(Piconero(60)) == "0.00000000006 XMR"
  {
    var f := "00000000006";
    assert Decimal(6) == "6";
    DecimalRoundTrip(6);
    ZerosValue(10);
    DecimalValueAppend(Zeros(10), "6");
    assert Zeros(10) + "6" == f;
    assert Pow10(1) == 10;
    FractionUnique(f, 60);
    DisplayOf(60, 0, 60);
    assert Group(0) == "0";
  }

  lemma SixtyOneDigits()
    ensures DecimalValue("000000000061") == 61
    ensures DecimalValue("0" + "000000000061") == 61
  {
    assert Decimal(61) == "61";
    DecimalRoundTrip(61);
    ZerosValue(10);
    DecimalValueAppend(Zeros(10), "61");
    assert Zeros(10) + "61" == "000000000061";
    ZerosValue(11);
    DecimalValueAppend(Zeros(11), "61");
    assert Zeros(11) + "61" == "0" + "000000000061";
  }

  /**
   * The display of 61 piconero parses back to 61 with exact decimal
   * arithmetic, but to 60 along the code's `f64` route, whose display then
   * differs from the text it was parsed from.
   */
  lemma FloatRouteLosesPiconero()
    ensures Display(Piconero(61)) == "0.000000000061 XMR"
    ensures Parse("0.000000000061 XMR") == Success(Piconero(61))
    ensures ParseAsWritten("0.000000000061 XMR") == Success(Piconero(60))
    ensures Display(Piconero(60)) != Display(Piconero(61))
  {
    DisplaySixtyOne();
    DisplaySixty();
    ExactParseSixtyOne();
    FloatParseSixtyOne();
  }

  lemma ExactParseSixtyOne()
    ensures Parse("0.000000000061 XMR") == Success(Piconero(61))
  {
    var whole, frac := "0", "000000000061";
    assert whole + "." + frac + UNIT_SUFFIX == "0.000000000061 XMR";
    ParseDecimal(whole, frac);
    ExactAmountSixtyOne();
  }

  lemma ExactAmountSixtyOne()
    ensures Amount("0", "000000000061") == 61
  {
    SixtyOneDigits();
    assert Pow10(0) == 1;
    assert FractionUnits("000000000061") == 61;
    assert DecimalValue("0") == 0;
  }

  lemma FloatParseSixtyOne()
    ensures ParseAsWritten("0.000000000061 XMR") == Success(Piconero(60))
  {
    var whole, frac := "0", "000000000061";
    assert whole + "." + frac + UNIT_SUFFIX == "0.000000000061 XMR";
    ParseAsWrittenDecimal(whole, frac);
    FloatAmountSixtyOne();
  }

  lemma FloatAmountSixtyOne()
    ensures FloatAmount("0", "000000000061") == 60
  {
    SixtyOneDigits();
    OneXmrIsPow10();
    ParseSixtyOne();
    ScaleSixtyOne();
    TruncateSixty();
  }
}
