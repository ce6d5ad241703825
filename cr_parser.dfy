/**
 * The challenge-rating parser `parse_cr` of hello.py: a raw CR cell
 * becomes a number, a missing value, or an exception.
 *
 * A text cell containing '/' is handed to `Fraction(cr)` OUTSIDE the
 * try block, so a malformed fraction or a zero denominator raises
 * instead of yielding a missing value. Every other cell goes through
 * `float(cr)` inside `try: ... except: return None`, which never raises.
 * Floating-point values are modelled as exact rationals (`real`).
 */
module CrParser {
  import opened Wrappers

  /** A raw `cr` cell: text such as "1/4" or "5", a number, or null. */
  datatype CrValue = CrText(text: string) | CrNumber(number: real) | CrNull

  /** The exceptions `Fraction(text)` raises: ValueError and ZeroDivisionError. */
  datatype CrError = MalformedFraction | ZeroDenominator

  /** What `parse_cr` does with one cell: returns a value (maybe None) or raises. */
  datatype CrOutcome = Parsed(crNum: Option<real>) | Raised(error: CrError)

  // ---------------------------------------------------------------------
  // The fraction grammar: [+-]? digits '/' digits
  // ---------------------------------------------------------------------

  predicate IsDigit(c: char) {
    '0' <= c <= '9'
  }

  /** Every character of `s` is a decimal digit (`s` may be empty). */
  predicate AllDigits(s: string) {
    forall i :: 0 <= i < |s| ==> IsDigit(s[i])
  }

  /** A non-empty run of decimal digits. */
  predicate IsDigits(s: string) {
    |s| > 0 && AllDigits(s)
  }

  /** A run of digits with an optional leading sign. */
  predicate IsSignedDigits(s: string) {
    IsDigits(s) || (|s| > 0 && (s[0] == '+' || s[0] == '-') && IsDigits(s[1..]))
  }

  /** The value of a run of decimal digits (0 for the empty run). */
  function DigitsValue(s: string): nat
    requires AllDigits(s)
  {
    if s == [] then 0
    else DigitsValue(s[..|s| - 1]) * 10 + (s[|s| - 1] as int - '0' as int)
  }

  /** The value of a signed run of digits. */
  function SignedValue(s: string): int
    requires IsSignedDigits(s)
  {
    if IsDigits(s) then DigitsValue(s) as int
    else if s[0] == '-' then -(DigitsValue(s[1..]) as int)
    else DigitsValue(s[1..])
  }

  /** The position of the first '/' in `s`. */
  function SlashIndex(s: string): (i: nat)
    requires '/' in s
    ensures i < |s| && s[i] == '/' && '/' !in s[..i]
  {
    if s[0] == '/' then 0
    else
      assert '/' in s[1..] by {
        var k :| 0 <= k < |s| && s[k] == '/';
        assert s[1..][k - 1] == '/';
      }
      var j := SlashIndex(s[1..]);
      assert s[..j + 1] == [s[0]] + s[1..][..j];
      j + 1
  }

  /** `s` has a '/' at position `i` with a signed integer before it and digits after it. */
  predicate FractionSplit(s: string, i: int) {
    0 <= i < |s| && s[i] == '/' && IsSignedDigits(s[..i]) && IsDigits(s[i + 1..])
  }

  /** `s` is a fraction `Fraction` can read (up to the value of its denominator). */
  ghost predicate WellFormedFraction(s: string) {
    exists i :: FractionSplit(s, i)
  }

  /** A well-formed fraction's only '/' is its first one. */
  lemma SplitIsFirstSlash(s: string, i: int)
    requires '/' in s && FractionSplit(s, i)
    ensures i == SlashIndex(s)
  {
  }

  /** A string containing '/' is a well-formed fraction exactly when it splits at its first '/'. */
  lemma FractionSplitUnique(s: string)
    requires '/' in s
    ensures WellFormedFraction(s) <==> FractionSplit(s, SlashIndex(s))
    ensures forall i :: FractionSplit(s, i) ==> i == SlashIndex(s)
  {
    forall i | FractionSplit(s, i) ensures i == SlashIndex(s) {
      SplitIsFirstSlash(s, i);
    }
  }

  /**
   * `Fraction(s)` for a string containing '/': ValueError unless `s`
   * splits at its first '/' into a signed integer and digits, then
   * ZeroDivisionError for a zero denominator, else the exact quotient.
   */
  function ParseFraction(s: string): (r: Result<real, CrError>)
    requires '/' in s
    ensures r == Err(MalformedFraction) <==> !WellFormedFraction(s)
    ensures forall i :: FractionSplit(s, i) ==>
      r == if DigitsValue(s[i + 1..]) == 0 then Err(ZeroDenominator)
           else Ok(SignedValue(s[..i]) as real / DigitsValue(s[i + 1..]) as real)
  {
    var i := SlashIndex(s);
    FractionSplitUnique(s);
    if !FractionSplit(s, i) then Err(MalformedFraction)
    else if DigitsValue(s[i + 1..]) == 0 then Err(ZeroDenominator)
    else Ok(SignedValue(s[..i]) as real / DigitsValue(s[i + 1..]) as real)
  }

  /**
   * `parse_cr(cr)`. `floatOfText` stands for Python's `float(text)` on a
   * string without '/', a partial conversion whose grammar is not part
   * of this model.
   */
  function ParseCr(cr: CrValue, floatOfText: string -> Option<real>): (r: CrOutcome)
    // the '/' branch sits outside the try: it raises or returns a number, never None
    ensures cr.CrText? && '/' in cr.text ==> r.Raised? || r.crNum.Some?
    ensures cr.CrText? && '/' in cr.text ==>
      (r == Raised(MalformedFraction) <==> !WellFormedFraction(cr.text))
    // everything else is inside the try: it never raises
    ensures !(cr.CrText? && '/' in cr.text) ==> r.Parsed?
    ensures cr.CrText? && '/' !in cr.text ==> r == Parsed(floatOfText(cr.text))
    ensures cr.CrNumber? ==> r == Parsed(Some(cr.number))
    ensures cr.CrNull? ==> r == Parsed(None)
  {
    match cr
    case CrText(s) =>
      if '/' in s then
        match ParseFraction(s)
        case Ok(v) => Parsed(Some(v))
        case Err(e) => Raised(e)
      else Parsed(floatOfText(s))
    case CrNumber(x) => Parsed(Some(x))
    case CrNull => Parsed(None)
  }

  // ---------------------------------------------------------------------
  // Writing fractions, and reading them back
  // ---------------------------------------------------------------------

  /** The decimal digits of `n`, without leading zeros. */
  function ShowNat(n: nat): (s: string)
    ensures IsDigits(s)
  {
    var last := [(n % 10 + '0' as int) as char];
    if n < 10 then last else ShowNat(n / 10) + last
  }

  /** The decimal form of `a`, with a '-' when it is negative. */
  function ShowInt(a: int): (s: string)
    ensures IsSignedDigits(s)
  {
    if a < 0 then "-" + ShowNat(-a) else ShowNat(a)
  }

  /** The text `a/b`, as a CR column holds it ("1/4", "-3/2"). */
  function ShowFraction(a: int, b: nat): string {
    ShowInt(a) + "/" + ShowNat(b)
  }

  lemma {:induction false} ShowNatValue(n: nat)
    ensures DigitsValue(ShowNat(n)) == n
  {
    var s := ShowNat(n);
    assert s[..|s| - 1] == if n < 10 then [] else ShowNat(n / 10);
    if n >= 10 {
      ShowNatValue(n / 10);
    }
  }

  lemma ShowIntValue(a: int)
    ensures SignedValue(ShowInt(a)) == a
  {
    if a < 0 {
      ShowNatValue(-a);
      assert ShowInt(a)[1..] == ShowNat(-a);
    } else {
      ShowNatValue(a);
    }
  }

  /**
   * A CR cell holding the text `a/b` parses to exactly `a/b` when `b` is
   * positive, and raises ZeroDivisionError when `b` is zero.
   */
  lemma FractionRoundTrip(a: int, b: nat, floatOfText: string -> Option<real>)
    ensures ParseCr(CrText(ShowFraction(a, b)), floatOfText)
         == if b == 0 then Raised(ZeroDenominator) else Parsed(Some(a as real / b as real))
  {
    var s := ShowFraction(a, b);
    var i := |ShowInt(a)|;
    assert s[i] == '/';
    assert s[..i] == ShowInt(a);
    assert s[i + 1..] == ShowNat(b);
    ShowIntValue(a);
    ShowNatValue(b);
    assert FractionSplit(s, i);
  }

  /** "1/4" is a quarter. */
  lemma QuarterExample(floatOfText: string -> Option<real>)
    ensures ParseCr(CrText("1/4"), floatOfText) == Parsed(Some(0.25))
  {
    var s := "1/4";
    assert s[..1] == ['1'] && s[2..] == ['4'];
    assert DigitsValue(['1']) == 1 && DigitsValue(['4']) == 4;
    assert FractionSplit(s, 1);
    assert ParseFraction(s) == Ok(1.0 / 4.0);
  }

  /** "1/0" raises rather than yielding a missing value. */
  lemma ZeroDenominatorExample(floatOfText: string -> Option<real>)
    ensures ParseCr(CrText("1/0"), floatOfText) == Raised(ZeroDenominator)
  {
    assert ShowInt(1) == ShowNat(1) == ['1'];
    assert ShowNat(0) == ['0'];
    assert ShowFraction(1, 0) == ['1'] + ['/'] + ['0'] == "1/0";
    FractionRoundTrip(1, 0, floatOfText);
  }

  /** "x/y" raises rather than yielding a missing value. */
  lemma MalformedExample(floatOfText: string -> Option<real>)
    ensures ParseCr(CrText("x/y"), floatOfText) == Raised(MalformedFraction)
  {
    var s := "x/y";
    assert s[1] == '/' && s[0] != '/' && s[2] != '/';
    assert s[..1] == "x" && !IsDigit('x');
    assert !FractionSplit(s, 1);
    FractionSplitUnique(s);
  }
}
