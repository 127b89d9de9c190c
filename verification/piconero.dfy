/**
 * `Piconero`: an amount of Monero as a whole number of piconero (10^-12 XMR),
 * its human-readable display ("1,000.123 XMR") and the parser for amounts
 * written as "<number> XMR".
 */
module Piconero {
  import opened Wrappers
  import opened Numeric

  /** Piconero per XMR. */
  const ONE_XMR: nat := 1_000_000_000_000

  /** Number of fraction digits a piconero amount can carry. */
  const FRACTION_DIGITS: nat := 12

  const UNIT_SUFFIX: string := " XMR"

  datatype Piconero = Piconero(value: u64)

  datatype ParseError = InvalidValue(input: string)

  /** `Piconero::new`. */
  function New(v: u64): (p: Piconero)
    ensures p.value == v
  {
    Piconero(v)
  }

  /** `Piconero::ONE_XMR`. */
  function OneXmr(): (p: Piconero)
    ensures p.value == Pow10(FRACTION_DIGITS)
  {
    OneXmrIsPow10();
    Piconero(ONE_XMR)
  }

  lemma OneXmrIsPow10()
    ensures Pow10(FRACTION_DIGITS) == ONE_XMR
  {
  }

  predicate EndsWith(s: string, suffix: string)
  {
    |suffix| <= |s| && s[|s| - |suffix|..] == suffix
  }

  /* ---------------------------------------------------------------------- */
  /* Integer part: thousands grouping of the English locale                  */
  /* ---------------------------------------------------------------------- */

  /** The text with its group separators removed. */
  function Ungroup(s: string): string
  {
    if s == [] then []
    else Ungroup(s[..|s| - 1]) + (if s[|s| - 1] == ',' then [] else [s[|s| - 1]])
  }

  /**
   * Well-formed English-locale grouping: a leading group of one to three
   * digits without a superfluous zero, then groups of exactly three digits,
   * each introduced by a comma.
   */
  predicate Grouped(s: string)
    decreases |s|
  {
    if |s| <= 3 then Canonical(s)
    else
      && |s| >= 5
      && s[0] != '0'
      && s[|s| - 4] == ','
      && AllDigits(s[|s| - 3..])
      && Grouped(s[..|s| - 4])
  }

  /** `n.to_formatted_string(&Locale::en)`. */
  function Group(n: nat): string
  {
    if n < 1000 then Decimal(n) else Group(n / 1000) + "," + PadLeft(n % 1000, 3)
  }

  /**
   * The grouped text is well formed and, with its commas removed, is the
   * decimal text of `n`.
   */
  lemma {:induction false} GroupShape(n: nat)
    ensures Grouped(Group(n))
    ensures AllDigits(Ungroup(Group(n))) && DecimalValue(Ungroup(Group(n))) == n
    ensures Group(n)[0] == '0' <==> n == 0
  {
    GroupIsGrouped(n);
    GroupUngroups(n);
  }

  /** One step of the grouping: the higher groups, a comma, three digits. */
  lemma GroupStep(n: nat)
    requires n >= 1000
    ensures Group(n) == Group(n / 1000) + "," + PadLeft(n % 1000, 3)
    ensures |PadLeft(n % 1000, 3)| == 3
  {
    DecimalLength(n % 1000, 3);
  }

  lemma {:induction false} GroupIsGrouped(n: nat)
    ensures Grouped(Group(n))
    ensures Group(n)[0] == '0' <==> n == 0
  {
    if n < 1000 {
      DecimalRoundTrip(n);
      DecimalLeadingDigit(n);
      DecimalLength(n, 3);
    } else {
      var head, tail := Group(n / 1000), PadLeft(n % 1000, 3);
      GroupStep(n);
      GroupIsGrouped(n / 1000);
      var s := head + "," + tail;
      assert s[..|s| - 4] == head;
      assert s[|s| - 3..] == tail;
      assert s[0] == head[0];
    }
  }

  lemma {:induction false} GroupUngroups(n: nat)
    ensures AllDigits(Ungroup(Group(n))) && DecimalValue(Ungroup(Group(n))) == n
  {
    if n < 1000 {
      DecimalRoundTrip(n);
      UngroupDigits(Decimal(n));
    } else {
      var head, tail := Group(n / 1000), PadLeft(n % 1000, 3);
      GroupStep(n);
      GroupUngroups(n / 1000);
      UngroupComma(head, tail);
      PadLeftValue(n % 1000, 3);
      DecimalValueAppend(Ungroup(head), tail);
      assert Pow10(3) == 1000;
    }
  }

  /** Removing the separators of `head,tail` where `tail` is all digits. */
  lemma UngroupComma(head: string, tail: string)
    requires AllDigits(tail)
    ensures Ungroup(head + "," + tail) == Ungroup(head) + tail
  {
    UngroupAppend(head + ",", tail);
    UngroupAppend(head, ",");
    UngroupDigits(tail);
    assert Ungroup(",") == [] by {
      assert ","[..0] == [];
    }
  }

  lemma {:induction false} UngroupAppend(a: string, b: string)
    ensures Ungroup(a + b) == Ungroup(a) + Ungroup(b)
    decreases |b|
  {
    if b == [] {
      assert a + b == a;
    } else {
      var b' := b[..|b| - 1];
      assert (a + b)[..|a + b| - 1] == a + b';
      UngroupAppend(a, b');
    }
  }

  lemma {:induction false} UngroupDigits(s: string)
    requires AllDigits(s)
    ensures Ungroup(s) == s
    decreases |s|
  {
    if s != [] {
      UngroupDigits(s[..|s| - 1]);
    }
  }

  /* ---------------------------------------------------------------------- */
  /* Fraction part                                                           */
  /* ---------------------------------------------------------------------- */

  /** The text with every trailing '0' removed. */
  function StripTrailingZeros(s: string): (t: string)
    ensures |t| <= |s| && t == s[..|t|]
    ensures t == [] || t[|t| - 1] != '0'
    ensures forall i :: |t| <= i < |s| ==> s[i] == '0'
  {
    if s != [] && s[|s| - 1] == '0' then StripTrailingZeros(s[..|s| - 1]) else s
  }

  /**
   * The fraction digits shown for `units` piconero below one XMR: the twelve
   * digit zero-padded remainder with its trailing zeros removed.
   */
  function Fraction(units: nat): string
  {
    StripTrailingZeros(PadLeft(units, FRACTION_DIGITS))
  }

  /**
   * The fraction has one to twelve digits, does not end in '0', and read as
   * twelfths of a decimal place it is `units` again.
   */
  lemma FractionShape(units: nat)
    requires 0 < units < ONE_XMR
    ensures var f := Fraction(units);
      && 1 <= |f| <= FRACTION_DIGITS && AllDigits(f)
      && f[|f| - 1] != '0'
      && DecimalValue(f) * Pow10(FRACTION_DIGITS - |f|) == units
  {
    var padded := PadLeft(units, FRACTION_DIGITS);
    var f := StripTrailingZeros(padded);
    var k := FRACTION_DIGITS - |f|;
    PaddedFraction(units);
    StripDigits(padded);
    assert padded == f + Zeros(k);
    ZerosValue(k);
    DecimalValueAppend(f, Zeros(k));
    PadLeftValue(units, FRACTION_DIGITS);
  }

  /** A remainder below one XMR pads to exactly twelve digits, not all zero. */
  lemma PaddedFraction(units: nat)
    requires 0 < units < ONE_XMR
    ensures |PadLeft(units, FRACTION_DIGITS)| == FRACTION_DIGITS
    ensures StripTrailingZeros(PadLeft(units, FRACTION_DIGITS)) != []
  {
    OneXmrIsPow10();
    DecimalLength(units, FRACTION_DIGITS);
    PadLeftValue(units, FRACTION_DIGITS);
    var padded := PadLeft(units, FRACTION_DIGITS);
    if StripTrailingZeros(padded) == [] {
      assert padded == Zeros(|padded|);
      ZerosValue(|padded|);
    }
  }

  lemma StripDigits(s: string)
    requires AllDigits(s)
    ensures AllDigits(StripTrailingZeros(s))
  {
    var t := StripTrailingZeros(s);
    forall i | 0 <= i < |t| ensures IsDigit(t[i]) {
      assert t[i] == s[i];
    }
  }

  /* ---------------------------------------------------------------------- */
  /* Display                                                                 */
  /* ---------------------------------------------------------------------- */

  predicate NoDot(s: string)
  {
    forall i :: 0 <= i < |s| ==> s[i] != '.'
  }

  /** `impl Display for Piconero`. */
  function Display(p: Piconero): string
  {
    var units := p.value % ONE_XMR;
    Group(p.value / ONE_XMR) + (if units > 0 then "." + Fraction(units) else "") + UNIT_SUFFIX
  }

  /**
   * Every display ends in the unit, and it carries a decimal point exactly
   * when the amount is not a whole number of XMR.
   */
  lemma DisplayShape(p: Piconero)
    ensures EndsWith(Display(p), UNIT_SUFFIX)
    ensures !NoDot(Display(p)) <==> p.value % ONE_XMR > 0
  {
    var whole := Group(p.value / ONE_XMR);
    var units := p.value % ONE_XMR;
    GroupShape(p.value / ONE_XMR);
    GroupedHasNoDot(whole);
    var s := Display(p);
    if units > 0 {
      var f := Fraction(units);
      assert s == whole + "." + f + UNIT_SUFFIX;
      assert s[|whole|] == '.';
    } else {
      assert s == whole + UNIT_SUFFIX;
      assert NoDot(UNIT_SUFFIX);
      NoDotAppend(whole, UNIT_SUFFIX);
    }
  }

  lemma NoDotAppend(a: string, b: string)
    requires NoDot(a) && NoDot(b)
    ensures NoDot(a + b)
  {
    forall i | 0 <= i < |a + b| ensures (a + b)[i] != '.' {
      if i >= |a| { assert (a + b)[i] == b[i - |a|]; }
    }
  }

  lemma {:induction false} GroupedHasNoDot(s: string)
    requires Grouped(s)
    ensures NoDot(s)
    decreases |s|
  {
    if |s| > 3 {
      var head := s[..|s| - 4];
      GroupedHasNoDot(head);
      forall i | 0 <= i < |s| ensures s[i] != '.' {
        if i < |s| - 4 { assert s[i] == head[i]; }
        else if i > |s| - 4 { assert s[i] == s[|s| - 3..][i - (|s| - 3)]; }
      }
    }
  }

  /* ---------------------------------------------------------------------- */
  /* Parsing "<digits>[.<digits>] XMR"                                       */
  /* ---------------------------------------------------------------------- */

  /** Index of the first '.' in `s`, or `|s|` when there is none. */
  function FirstDot(s: string): (i: nat)
    ensures i <= |s|
    ensures i < |s| ==> s[i] == '.'
    ensures forall j :: 0 <= j < i ==> s[j] != '.'
  {
    if s == [] then 0
    else if s[0] == '.' then 0
    else 1 + FirstDot(s[1..])
  }

  predicate Digits1(s: string)
  {
    |s| > 0 && AllDigits(s)
  }

  /** Piconero denoted by the fraction digits `frac`, truncated to whole piconero. */
  function FractionUnits(frac: string): (u: nat)
    requires AllDigits(frac)
    ensures u < ONE_XMR
  {
    if |frac| <= FRACTION_DIGITS then
      ScaledFractionBound(frac);
      DecimalValue(frac) * Pow10(FRACTION_DIGITS - |frac|)
    else
      DigitsBound(frac[..FRACTION_DIGITS]);
      OneXmrIsPow10();
      DecimalValue(frac[..FRACTION_DIGITS])
  }

  /** At most twelve fraction digits, scaled to piconero, stay below one XMR. */
  lemma ScaledFractionBound(frac: string)
    requires AllDigits(frac) && |frac| <= FRACTION_DIGITS
    ensures DecimalValue(frac) * Pow10(FRACTION_DIGITS - |frac|) < ONE_XMR
  {
    var x, a, p := DecimalValue(frac), Pow10(|frac|), Pow10(FRACTION_DIGITS - |frac|);
    DigitsBound(frac);
    PowMonotone(|frac|, FRACTION_DIGITS - |frac|);
    OneXmrIsPow10();
    MulBelow(x, a, p);
  }

  /**
   * The fraction digits become piconero by truncation: `u` is the largest
   * whole number of piconero not above `0.frac` XMR, that is
   * `u * 10^n <= frac * 10^12 < (u + 1) * 10^n` for `n` digits.
   */
  lemma FractionUnitsTruncates(frac: string)
    requires AllDigits(frac)
    ensures FractionUnits(frac) * Pow10(|frac|) <= DecimalValue(frac) * ONE_XMR
    ensures DecimalValue(frac) * ONE_XMR < (FractionUnits(frac) + 1) * Pow10(|frac|)
  {
    var n := |frac|;
    var u := FractionUnits(frac);
    OneXmrIsPow10();
    if n <= FRACTION_DIGITS {
      PowMonotone(n, FRACTION_DIGITS - n);
      ScaleExact(DecimalValue(frac), Pow10(FRACTION_DIGITS - n), Pow10(n));
    } else {
      var hi, lo := frac[..FRACTION_DIGITS], frac[FRACTION_DIGITS..];
      assert frac == hi + lo;
      DecimalValueAppend(hi, lo);
      DigitsBound(lo);
      PowMonotone(|lo|, FRACTION_DIGITS);
      ScaleSplit(u, DecimalValue(lo), Pow10(|lo|), Pow10(FRACTION_DIGITS));
    }
  }

  lemma ScaleExact(x: nat, p: nat, q: nat)
    requires q >= 1
    ensures (x * p) * q <= x * (q * p) < (x * p + 1) * q
  {
    assert (x * p) * q == x * (q * p);
  }

  lemma ScaleSplit(u: nat, y: nat, p: nat, t: nat)
    requires y < p && t >= 1
    ensures u * (p * t) <= (u * p + y) * t < (u + 1) * (p * t)
  {
    assert (u * p + y) * t == u * (p * t) + y * t;
    assert y * t < p * t;
  }

  lemma MulBelow(x: nat, a: nat, p: nat)
    requires x < a && p > 0
    ensures x * p < a * p
  {
  }

  lemma {:induction false} DigitsBound(s: string)
    requires AllDigits(s)
    ensures DecimalValue(s) < Pow10(|s|)
    decreases |s|
  {
    if s != [] {
      DigitsBound(s[..|s| - 1]);
    }
  }

  lemma PowMonotone(a: nat, b: nat)
    ensures Pow10(a) * Pow10(b) == Pow10(a + b)
    decreases a
  {
    if a > 0 {
      PowMonotone(a - 1, b);
    }
  }

  /** The amount `whole.frac XMR` in piconero; `as u64` saturates. */
  function Amount(whole: string, frac: string): (v: u64)
    requires AllDigits(whole) && AllDigits(frac)
  {
    var exact := DecimalValue(whole) * ONE_XMR + FractionUnits(frac);
    if exact < U64_LIMIT then exact else U64_MAX
  }

  /** `PiconeroVisitor::visit_str`: the `^(\d+(?:\.\d+)?) XMR$` grammar and its value. */
  function Parse(s: string): (r: Result<Piconero, ParseError>)
    ensures r.Failure? ==> r.error == InvalidValue(s)
  {
    if !EndsWith(s, UNIT_SUFFIX) then Failure(InvalidValue(s))
    else
      var number := s[..|s| - |UNIT_SUFFIX|];
      var dot := FirstDot(number);
      if dot == |number| then
        if Digits1(number) then Success(Piconero(Amount(number, ""))) else Failure(InvalidValue(s))
      else
        var whole := number[..dot];
        var frac := number[dot + 1..];
        if Digits1(whole) && Digits1(frac) then Success(Piconero(Amount(whole, frac)))
        else Failure(InvalidValue(s))
  }

  /** The text the amount grammar accepts, stated directly. */
  ghost predicate AmountGrammar(s: string)
  {
    || (exists whole :: Digits1(whole) && s == whole + UNIT_SUFFIX)
    || (exists whole, frac :: Digits1(whole) && Digits1(frac) && s == whole + "." + frac + UNIT_SUFFIX)
  }

  lemma DigitsHaveNoDot(s: string)
    requires AllDigits(s)
    ensures FirstDot(s) == |s|
  {
    if FirstDot(s) < |s| {
      assert IsDigit(s[FirstDot(s)]);
    }
  }

  lemma ParsedIsInGrammar(s: string)
    requires Parse(s).Success?
    ensures AmountGrammar(s)
  {
    var number := s[..|s| - |UNIT_SUFFIX|];
    assert s == number + UNIT_SUFFIX;
    var dot := FirstDot(number);
    if dot < |number| {
      var whole, frac := number[..dot], number[dot + 1..];
      assert number == whole + "." + frac;
      assert s == whole + "." + frac + UNIT_SUFFIX;
    }
  }

  lemma WholeGrammarParses(s: string, whole: string)
    requires Digits1(whole) && s == whole + UNIT_SUFFIX
    ensures Parse(s).Success?
  {
    assert s[..|s| - |UNIT_SUFFIX|] == whole;
    DigitsHaveNoDot(whole);
  }

  lemma FractionGrammarParses(s: string, whole: string, frac: string)
    requires Digits1(whole) && Digits1(frac) && s == whole + "." + frac + UNIT_SUFFIX
    ensures Parse(s).Success?
  {
    var number := s[..|s| - |UNIT_SUFFIX|];
    assert number == whole + "." + frac;
    DigitsHaveNoDot(whole);
    FirstDotAfterDigits(whole, frac);
    assert number[..|whole|] == whole;
    assert number[|whole| + 1..] == frac;
  }

  /** The parser accepts exactly the strings of the amount grammar. */
  lemma ParseAcceptsGrammar(s: string)
    ensures Parse(s).Success? <==> AmountGrammar(s)
  {
    if Parse(s).Success? {
      ParsedIsInGrammar(s);
    }
    if AmountGrammar(s) {
      if whole :| Digits1(whole) && s == whole + UNIT_SUFFIX {
        WholeGrammarParses(s, whole);
      } else {
        var whole, frac :| Digits1(whole) && Digits1(frac) && s == whole + "." + frac + UNIT_SUFFIX;
        FractionGrammarParses(s, whole, frac);
      }
    }
  }

  lemma FirstDotAfterDigits(whole: string, rest: string)
    requires AllDigits(whole)
    ensures FirstDot(whole + "." + rest) == |whole|
  {
    var t := whole + "." + rest;
    assert t[|whole|] == '.';
    forall j | 0 <= j < |whole| ensures t[j] != '.' {
      assert t[j] == whole[j];
      assert IsDigit(whole[j]);
    }
  }

  /* ---------------------------------------------------------------------- */
  /* Round trips                                                             */
  /* ---------------------------------------------------------------------- */

  /** A whole number of XMR parses to that many XMR. */
  lemma ParseWhole(whole: string)
    requires Digits1(whole)
    ensures Parse(whole + UNIT_SUFFIX) == Success(Piconero(Amount(whole, "")))
  {
    var s := whole + UNIT_SUFFIX;
    assert s[..|s| - |UNIT_SUFFIX|] == whole;
    DigitsHaveNoDot(whole);
  }

  /** A decimal number of XMR parses to its value, truncated to whole piconero. */
  lemma ParseDecimal(whole: string, frac: string)
    requires Digits1(whole) && Digits1(frac)
    ensures Parse(whole + "." + frac + UNIT_SUFFIX) == Success(Piconero(Amount(whole, frac)))
  {
    var s := whole + "." + frac + UNIT_SUFFIX;
    var number := s[..|s| - |UNIT_SUFFIX|];
    assert number == whole + "." + frac;
    FirstDotAfterDigits(whole, frac);
    assert number[..|whole|] == whole;
    assert number[|whole| + 1..] == frac;
  }

  /** Below 1,000 XMR the display text parses back to the same amount. */
  lemma DisplayThenParse(v: u64)
    requires v < 1000 * ONE_XMR
    ensures Parse(Display(Piconero(v))) == Success(Piconero(v))
  {
    var q, units := v / ONE_XMR, v % ONE_XMR;
    var whole := Group(q);
    assert whole == Decimal(q);
    DecimalRoundTrip(q);
    assert DecimalValue(whole) == q;
    if units > 0 {
      var f := Fraction(units);
      FractionShape(units);
      assert Display(Piconero(v)) == whole + "." + f + UNIT_SUFFIX;
      ParseDecimal(whole, f);
      assert FractionUnits(f) == units;
      assert Amount(whole, f) == v;
    } else {
      assert Display(Piconero(v)) == whole + UNIT_SUFFIX;
      ParseWhole(whole);
      assert DecimalValue("") == 0;
      assert FractionUnits("") == 0;
      assert Amount(whole, "") == v;
    }
  }

  lemma GroupOneThousand()
    ensures Group(1000) == "1,000"
  {
    assert Decimal(1) == "1";
    assert Decimal(0) == "0";
    assert Zeros(2) == "00";
    assert PadLeft(0, 3) == "000";
  }

  /** From 1,000 XMR on the display carries a comma, which the parser refuses. */
  lemma DisplayWithCommaDoesNotParse()
    ensures Display(Piconero(1000 * ONE_XMR)) == "1,000 XMR"
    ensures Parse(Display(Piconero(1000 * ONE_XMR))).Failure?
  {
    GroupOneThousand();
    var s := Display(Piconero(1000 * ONE_XMR));
    assert s == "1,000" + UNIT_SUFFIX;
    var number := s[..|s| - |UNIT_SUFFIX|];
    assert number == "1,000";
    assert !IsDigit(number[1]);
  }

  /** A comma anywhere before the unit makes the parser refuse the text. */
  lemma CommaRefused(s: string, c: nat)
    requires EndsWith(s, UNIT_SUFFIX) && c < |s| - |UNIT_SUFFIX| && s[c] == ','
    ensures Parse(s).Failure?
  {
    var number := s[..|s| - |UNIT_SUFFIX|];
    assert number[c] == ',';
    var dot := FirstDot(number);
    if dot == |number| {
      assert !IsDigit(number[c]);
    } else if c < dot {
      assert number[..dot][c] == ',';
    } else {
      assert number[dot + 1..][c - dot - 1] == ',';
    }
  }

  /** No amount of 1,000 XMR or more displays as a text the parser accepts. */
  lemma LargeDisplayDoesNotParse(p: Piconero)
    requires p.value >= 1000 * ONE_XMR
    ensures ',' in Display(p)
    ensures Parse(Display(p)).Failure?
  {
    var c := LargeDisplayComma(p);
    DisplayShape(p);
    CommaRefused(Display(p), c);
  }

  /** The comma after the highest group of the whole XMR. */
  lemma LargeDisplayComma(p: Piconero) returns (c: nat)
    requires p.value >= 1000 * ONE_XMR
    ensures c < |Display(p)| - |UNIT_SUFFIX| && Display(p)[c] == ','
  {
    var q := p.value / ONE_XMR;
    var units := p.value % ONE_XMR;
    var g := Group(q);
    c := GroupComma(q);
    var rest := (if units > 0 then "." + Fraction(units) else "") + UNIT_SUFFIX;
    assert Display(p) == g + rest;
    assert Display(p)[c] == g[c];
  }

  lemma GroupComma(q: nat) returns (c: nat)
    requires q >= 1000
    ensures c < |Group(q)| && Group(q)[c] == ','
  {
    GroupStep(q);
    var head := Group(q / 1000);
    assert Group(q) == head + "," + PadLeft(q % 1000, 3);
    c := |head|;
  }

  /* ---------------------------------------------------------------------- */
  /* Parse then display                                                      */
  /* ---------------------------------------------------------------------- */

  /** Digit strings of one length are equal when they denote the same number. */
  lemma {:induction false} DecimalValueInjective(a: string, b: string)
    requires |a| == |b| && AllDigits(a) && AllDigits(b)
    requires DecimalValue(a) == DecimalValue(b)
    ensures a == b
    decreases |a|
  {
    if a != [] {
      var n := |a| - 1;
      assert DigitValue(a[n]) == DecimalValue(a) % 10;
      assert DigitValue(b[n]) == DecimalValue(b) % 10;
      assert DecimalValue(a[..n]) == DecimalValue(a) / 10;
      assert DecimalValue(b[..n]) == DecimalValue(b) / 10;
      DecimalValueInjective(a[..n], b[..n]);
      assert a[n] == b[n];
      assert a == a[..n] + [a[n]];
      assert b == b[..n] + [b[n]];
    }
  }

  lemma {:induction false} LeadingDigitPositive(s: string)
    requires Digits1(s) && s[0] != '0'
    ensures DecimalValue(s) >= Pow10(|s| - 1)
    decreases |s|
  {
    if |s| > 1 {
      LeadingDigitPositive(s[..|s| - 1]);
    }
  }

  /** A canonical digit string is the `to_string` of the number it denotes. */
  lemma {:induction false} CanonicalIsDecimal(w: string)
    requires Canonical(w)
    ensures Decimal(DecimalValue(w)) == w
    decreases |w|
  {
    var n := DecimalValue(w);
    if |w| == 1 {
      assert w[..0] == [];
      assert DecimalValue(w) == DecimalValue(w[..0]) * 10 + DigitValue(w[0]);
      DigitRoundTrip(n);
      assert DigitChar(DigitValue(w[0])) == w[0];
    } else {
      var w' := w[..|w| - 1];
      assert w'[0] == w[0];
      LeadingDigitPositive(w');
      assert n >= 10;
      CanonicalIsDecimal(w');
      assert DigitChar(DigitValue(w[|w| - 1])) == w[|w| - 1];
      assert w == w' + [w[|w| - 1]];
    }
  }

  /** The fraction digits are the only ones of their shape with the given value. */
  lemma FractionUnique(f: string, units: nat)
    requires 0 < units < ONE_XMR
    requires 1 <= |f| <= FRACTION_DIGITS && AllDigits(f) && f[|f| - 1] != '0'
    requires DecimalValue(f) * Pow10(FRACTION_DIGITS - |f|) == units
    ensures Fraction(units) == f
  {
    var g := Fraction(units);
    FractionShape(units);
    var pf, pg := f + Zeros(FRACTION_DIGITS - |f|), g + Zeros(FRACTION_DIGITS - |g|);
    ZerosValue(FRACTION_DIGITS - |f|);
    ZerosValue(FRACTION_DIGITS - |g|);
    DecimalValueAppend(f, Zeros(FRACTION_DIGITS - |f|));
    DecimalValueAppend(g, Zeros(FRACTION_DIGITS - |g|));
    DecimalValueInjective(pf, pg);
    assert pf[|g| - 1] == g[|g| - 1];
    assert |g| <= |f|;
    assert pg[|f| - 1] == f[|f| - 1];
    assert |f| <= |g|;
    assert f == pf[..|f|] == pg[..|g|] == g;
  }

  lemma LastDigitPositive(s: string)
    requires Digits1(s) && s[|s| - 1] != '0'
    ensures DecimalValue(s) > 0
  {
  }

  lemma PositiveProduct(a: nat, b: nat)
    requires a > 0 && b > 0
    ensures a * b > 0
  {
  }

  lemma SplitAmount(q: nat, units: nat)
    requires units < ONE_XMR
    ensures (q * ONE_XMR + units) / ONE_XMR == q
    ensures (q * ONE_XMR + units) % ONE_XMR == units
  {
  }

  lemma DisplayOf(v: u64, q: nat, units: nat)
    requires units < ONE_XMR && v == q * ONE_XMR + units
    ensures Display(Piconero(v)) == Group(q) + (if units > 0 then "." + Fraction(units) else "") + UNIT_SUFFIX
  {
    SplitAmount(q, units);
  }

  lemma GroupBelowThousand(n: nat)
    requires n < 1000
    ensures Group(n) == Decimal(n)
  {
  }

  /** Below 1,000 XMR no amount reaches the saturation bound. */
  lemma SmallAmount(whole: string, frac: string)
    requires AllDigits(whole) && AllDigits(frac) && DecimalValue(whole) < 1000
    ensures Amount(whole, frac) == DecimalValue(whole) * ONE_XMR + FractionUnits(frac)
  {
    var q := DecimalValue(whole);
    assert q * ONE_XMR <= 999 * ONE_XMR;
  }

  lemma ParseThenDisplayWhole(whole: string)
    requires Canonical(whole) && DecimalValue(whole) < 1000
    ensures Parse(whole + UNIT_SUFFIX) == Success(Piconero(DecimalValue(whole) * ONE_XMR))
    ensures Display(Piconero(DecimalValue(whole) * ONE_XMR)) == whole + UNIT_SUFFIX
  {
    WholeAmount(whole);
    ParseWhole(whole);
    DisplayWhole(whole);
  }

  lemma WholeAmount(whole: string)
    requires AllDigits(whole) && DecimalValue(whole) < 1000
    ensures Amount(whole, "") == DecimalValue(whole) * ONE_XMR
  {
    assert DecimalValue("") == 0;
    assert FractionUnits("") == 0;
    SmallAmount(whole, "");
  }

  lemma DisplayWhole(whole: string)
    requires Canonical(whole) && DecimalValue(whole) < 1000
    ensures Display(Piconero(Amount(whole, ""))) == whole + UNIT_SUFFIX
  {
    var q := DecimalValue(whole);
    CanonicalIsDecimal(whole);
    WholeAmount(whole);
    DisplayOf(Amount(whole, ""), q, 0);
    GroupBelowThousand(q);
  }

  /** Fraction digits in canonical form are the display of the piconero they denote. */
  lemma FractionRoundTrip(frac: string)
    requires Digits1(frac) && |frac| <= FRACTION_DIGITS && frac[|frac| - 1] != '0'
    ensures 0 < FractionUnits(frac) < ONE_XMR
    ensures Fraction(FractionUnits(frac)) == frac
  {
    var units := FractionUnits(frac);
    LastDigitPositive(frac);
    assert units == DecimalValue(frac) * Pow10(FRACTION_DIGITS - |frac|);
    PositiveProduct(DecimalValue(frac), Pow10(FRACTION_DIGITS - |frac|));
    FractionUnique(frac, units);
  }

  lemma DisplayCanonicalFraction(whole: string, frac: string)
    requires Canonical(whole) && DecimalValue(whole) < 1000
    requires Digits1(frac) && |frac| <= FRACTION_DIGITS && frac[|frac| - 1] != '0'
    ensures Display(Piconero(Amount(whole, frac))) == whole + "." + frac + UNIT_SUFFIX
  {
    var q := DecimalValue(whole);
    CanonicalIsDecimal(whole);
    FractionRoundTrip(frac);
    var units := FractionUnits(frac);
    SmallAmount(whole, frac);
    var v := Amount(whole, frac);
    DisplayOf(v, q, units);
    GroupBelowThousand(q);
  }

  lemma ParseThenDisplayFraction(whole: string, frac: string)
    requires Canonical(whole) && DecimalValue(whole) < 1000
    requires Digits1(frac) && |frac| <= FRACTION_DIGITS && frac[|frac| - 1] != '0'
    ensures Parse(whole + "." + frac + UNIT_SUFFIX) == Success(Piconero(Amount(whole, frac)))
    ensures Display(Piconero(Amount(whole, frac))) == whole + "." + frac + UNIT_SUFFIX
  {
    ParseDecimal(whole, frac);
    DisplayCanonicalFraction(whole, frac);
  }

  /** The canonical text of an amount: whole digits, optional fraction, unit. */
  function AmountText(whole: string, frac: string): string
  {
    whole + (if frac == [] then [] else "." + frac) + UNIT_SUFFIX
  }

  /**
   * Below 1,000 XMR, a canonical amount text (no superfluous leading zero, at
   * most twelve fraction digits, no trailing zero) displays as itself after
   * parsing.
   */
  lemma ParseThenDisplay(whole: string, frac: string)
    requires Canonical(whole) && DecimalValue(whole) < 1000
    requires frac == [] || (|frac| <= FRACTION_DIGITS && AllDigits(frac) && frac[|frac| - 1] != '0')
    ensures Parse(AmountText(whole, frac)).Success?
    ensures Display(Parse(AmountText(whole, frac)).value) == AmountText(whole, frac)
  {
    if frac == [] {
      assert AmountText(whole, frac) == whole + UNIT_SUFFIX;
      ParseThenDisplayWhole(whole);
    } else {
      assert AmountText(whole, frac) == whole + "." + frac + UNIT_SUFFIX;
      ParseThenDisplayFraction(whole, frac);
    }
  }

  /** "1.1 XMR" parses and displays as itself. */
  lemma ParseThenDisplayOnePointOne()
    ensures Parse("1.1 XMR").Success? && Display(Parse("1.1 XMR").value) == "1.1 XMR"
  {
    assert Decimal(1) == "1";
    DecimalRoundTrip(1);
    assert "1" + "." + "1" + UNIT_SUFFIX == "1.1 XMR";
    ParseThenDisplayFraction("1", "1");
  }

  /** "0.231 XMR" parses and displays as itself. */
  lemma ParseThenDisplayZeroPoint231()
    ensures Parse("0.231 XMR").Success? && Display(Parse("0.231 XMR").value) == "0.231 XMR"
  {
    assert Decimal(0) == "0";
    DecimalRoundTrip(0);
    assert "0" + "." + "231" + UNIT_SUFFIX == "0.231 XMR";
    ParseThenDisplayFraction("0", "231");
  }

  /** "2 XMR" parses and displays as itself. */
  lemma ParseThenDisplayTwo()
    ensures Parse("2 XMR").Success? && Display(Parse("2 XMR").value) == "2 XMR"
  {
    assert Decimal(2) == "2";
    DecimalRoundTrip(2);
    assert "2" + UNIT_SUFFIX == "2 XMR";
    ParseThenDisplayWhole("2");
  }

  /** Zero displays without a decimal point. */
  lemma DisplayZero()
    ensures Display(Piconero(0)) == "0 XMR"
  {
    DisplayOf(0, 0, 0);
    assert Group(0) == "0";
  }

  /** One piconero displays with all twelve fraction digits. */
  lemma DisplayOnePiconero()
    ensures Display(Piconero(1)) == "0.000000000001 XMR"
  {
    var f := "000000000001";
    assert Decimal(1) == "1";
    DecimalRoundTrip(1);
    ZerosValue(11);
    DecimalValueAppend(Zeros(11), "1");
    assert Zeros(11) + "1" == f;
    FractionUnique(f, 1);
    DisplayOf(1, 0, 1);
    assert Group(0) == "0";
  }

  /** Ten piconero display without the trailing zero. */
  lemma DisplayTenPiconero()
    ensures Display(Piconero(10)) == "0.00000000001 XMR"
  {
    var f := "00000000001";
    assert Decimal(1) == "1";
    DecimalRoundTrip(1);
    ZerosValue(10);
    DecimalValueAppend(Zeros(10), "1");
    assert Zeros(10) + "1" == f;
    assert Pow10(1) == 10;
    FractionUnique(f, 10);
    DisplayOf(10, 0, 10);
    assert Group(0) == "0";
  }

  /** Grouped whole part and a stripped fraction together. */
  lemma DisplayThousandPoint123()
    ensures Display(Piconero(1_000_123_000_000_000)) == "1,000.123 XMR"
  {
    FractionOf123();
    GroupOneThousand();
    DisplayOf(1_000_123_000_000_000, 1000, 123_000_000_000);
    assert "1,000" + "." + "123" + UNIT_SUFFIX == "1,000.123 XMR";
  }

  lemma FractionOf123()
    ensures Fraction(123_000_000_000) == "123"
  {
    assert Decimal(123) == "123";
    DecimalRoundTrip(123);
    assert Pow10(9) == 1_000_000_000;
    FractionUnique("123", 123_000_000_000);
  }

  /** Texts outside the grammar are refused. */
  lemma ParseRejections()
    ensures Parse(" 1 XMR").Failure?
    ensures Parse("1 XMR ").Failure?
    ensures Parse("1 mXMR").Failure?
    ensures Parse("1").Failure?
    ensures Parse("-1 XMR").Failure?
  {
    assert !IsDigit(' ');
    assert !IsDigit('-');
    assert " 1 XMR"[..2] == " 1";
    assert "-1 XMR"[..2] == "-1";
    assert FirstDot(" 1") == 2;
    assert FirstDot("-1") == 2;
  }
}
