/**
  The discounted cash flow rule: the present value of the projected yearly free cash
  flows plus a terminal value that assumes 3% perpetual growth, per share.
 */
module Dcf {
  import opened Wrappers
  import opened Numerics
  import opened Valuation

  datatype DcfInput = DcfInput(
    freeCashFlow: real,
    growthRate: real,
    discountRate: real,
    projectionYears: int,
    totalShares: real,
    currentPrice: real,
    safetyMargin: real)

  /** The perpetual growth rate the terminal value assumes. */
  const TerminalGrowth: real := 0.03

  /**
    The inputs for which the rule divides by no zero: a discount rate of 3% zeroes the
    terminal value's denominator; one of -100% zeroes the discount factor, which is
    divided by unless the horizon is 0 (then the factor is raised to the power 0);
    and a negative horizon with a growth rate of -100% raises zero to a negative power.
   */
  predicate DcfDefined(input: DcfInput)
  {
    && input.discountRate != 3.0
    && (input.projectionYears != 0 ==> input.discountRate != -100.0)
    && (input.projectionYears < 0 ==> input.growthRate != -100.0)
  }

  /** The cash flow projected for `year`: today's grown at the growth rate, compounded. */
  function FutureCashFlow(fcf: real, growthRate: real, year: nat): real
  {
    fcf * Pow(1.0 + growthRate / 100.0, year)
  }

  /** The present value of the cash flow projected for `year`. */
  function YearPresentValue(fcf: real, growthRate: real, discountRate: real, year: nat): (pv: real)
    requires discountRate != -100.0
    ensures pv * Pow(1.0 + discountRate / 100.0, year) == FutureCashFlow(fcf, growthRate, year)
  {
    FutureCashFlow(fcf, growthRate, year) / Pow(1.0 + discountRate / 100.0, year)
  }

  /** The sum of the present values of years 1 to `years`, in the order the loop adds them. */
  function ProjectedPresentValue(fcf: real, growthRate: real, discountRate: real, years: nat): real
    requires years > 0 ==> discountRate != -100.0
  {
    if years == 0 then 0.0
    else ProjectedPresentValue(fcf, growthRate, discountRate, years - 1) + YearPresentValue(fcf, growthRate, discountRate, years)
  }

  /** The cash flow of the last projected year, `Math.pow` taken at the horizon as given. */
  function LastCashFlow(input: DcfInput): real
    requires DcfDefined(input)
  {
    input.freeCashFlow * IntPow(1.0 + input.growthRate / 100.0, input.projectionYears)
  }

  /**
    The terminal value: the perpetuity whose yield, net of the terminal growth,
    pays the next year's cash flow.
   */
  function TerminalValue(input: DcfInput): (tv: real)
    requires DcfDefined(input)
    ensures tv * (input.discountRate / 100.0 - TerminalGrowth) == LastCashFlow(input) * (1.0 + TerminalGrowth)
  {
    LastCashFlow(input) * (1.0 + TerminalGrowth) / (input.discountRate / 100.0 - TerminalGrowth)
  }

  /** The terminal value discounted back over the horizon. */
  function TerminalPresentValue(input: DcfInput): (pv: real)
    requires DcfDefined(input)
    ensures pv * IntPow(1.0 + input.discountRate / 100.0, input.projectionYears) == TerminalValue(input)
  {
    TerminalValue(input) / IntPow(1.0 + input.discountRate / 100.0, input.projectionYears)
  }

  /** The number of years the loop runs: none for a horizon below 1. */
  function LoopYears(input: DcfInput): nat
  {
    if input.projectionYears > 0 then input.projectionYears else 0
  }

  /** The whole firm's present value, `totalPV` after the terminal value is added. */
  function TotalPresentValue(input: DcfInput): real
    requires DcfDefined(input)
  {
    ProjectedPresentValue(input.freeCashFlow, input.growthRate, input.discountRate, LoopYears(input))
      + TerminalPresentValue(input)
  }

  /**
    `calculateDCF`: accumulates the yearly present values in a loop, adds the
    terminal value, and divides by the share count when that is positive.
   */
  method CalculateDcf(input: DcfInput) returns (r: ValuationResult)
    requires DcfDefined(input)
    ensures r.methodName == FluxoDeCaixaDescontado && r.peg == None && r.pegClassification == None
    ensures Derived(r, input.currentPrice, input.safetyMargin)
    ensures input.totalShares > 0.0 ==> r.intrinsicValue * input.totalShares == TotalPresentValue(input)
    ensures input.totalShares <= 0.0 ==> r.intrinsicValue == 0.0
  {
    var fcf, g, d := input.freeCashFlow, input.growthRate, input.discountRate;
    var totalPV := 0.0;
    var year := 1;
    while year <= input.projectionYears
      invariant 1 <= year <= LoopYears(input) + 1
      invariant totalPV == ProjectedPresentValue(fcf, g, d, year - 1)
      decreases input.projectionYears - year
    {
      var futureCF := FutureCashFlow(fcf, g, year);
      var pv := futureCF / Pow(1.0 + d / 100.0, year);
      totalPV := totalPV + pv;
      year := year + 1;
    }

    assert year - 1 == LoopYears(input);
    var lastCF := LastCashFlow(input);
    var terminalValue := (lastCF * (1.0 + TerminalGrowth)) / (d / 100.0 - TerminalGrowth);
    var pvTerminal := terminalValue / IntPow(1.0 + d / 100.0, input.projectionYears);
    assert lastCF == LastCashFlow(input);
    assert terminalValue == TerminalValue(input);
    assert pvTerminal == TerminalPresentValue(input);
    totalPV := totalPV + pvTerminal;

    var intrinsicValue := if input.totalShares > 0.0 then totalPV / input.totalShares else 0.0;
    assert input.totalShares > 0.0 ==> intrinsicValue * input.totalShares == totalPV;
    r := Complete(intrinsicValue, input.currentPrice, input.safetyMargin, FluxoDeCaixaDescontado);
  }

  /**
    At horizon 0 a discount rate of -100% is admitted: nothing is projected, and the
    terminal value is not discounted.
   */
  lemma ZeroHorizonFullDiscount(input: DcfInput)
    requires input.projectionYears == 0 && input.discountRate == -100.0
    ensures DcfDefined(input)
    ensures TotalPresentValue(input) == TerminalValue(input)
    ensures TerminalValue(input) * -1.03 == input.freeCashFlow * 1.03
  {
    assert IntPow(1.0 + input.discountRate / 100.0, 0) == 1.0;
    assert IntPow(1.0 + input.growthRate / 100.0, 0) == 1.0;
  }

  /** The ratio of growth factor to discount factor: the yearly present-value multiplier. */
  function YearlyRatio(growthRate: real, discountRate: real): real
    requires discountRate != -100.0
  {
    (1.0 + growthRate / 100.0) / (1.0 + discountRate / 100.0)
  }

  /** Each year's present value is the cash flow times the yearly ratio to the year's power. */
  lemma YearPresentValueIsPower(fcf: real, growthRate: real, discountRate: real, year: nat)
    requires discountRate != -100.0
    ensures YearPresentValue(fcf, growthRate, discountRate, year) == fcf * Pow(YearlyRatio(growthRate, discountRate), year)
  {
    var a, b := 1.0 + growthRate / 100.0, 1.0 + discountRate / 100.0;
    PowQuotient(a, b, year);
    var pa, pb := Pow(a, year), Pow(b, year);
    assert (fcf * pa) / pb == fcf * (pa / pb);
  }

  /**
    The projected present value is a geometric series: with `q` the yearly ratio,
    it times `q - 1` equals `fcf * q * (q^years - 1)`.
   */
  lemma {:induction false} ProjectedPresentValueGeometric(fcf: real, growthRate: real, discountRate: real, years: nat)
    requires discountRate != -100.0
    ensures var q := YearlyRatio(growthRate, discountRate);
      ProjectedPresentValue(fcf, growthRate, discountRate, years) * (q - 1.0) == fcf * q * (Pow(q, years) - 1.0)
  {
    var q := YearlyRatio(growthRate, discountRate);
    if years > 0 {
      ProjectedPresentValueGeometric(fcf, growthRate, discountRate, years - 1);
      YearPresentValueIsPower(fcf, growthRate, discountRate, years);
      var prev := ProjectedPresentValue(fcf, growthRate, discountRate, years - 1);
      var p := Pow(q, years - 1);
      assert Pow(q, years) == q * p;
      GeometricStep(ProjectedPresentValue(fcf, growthRate, discountRate, years), prev, fcf, q, p);
    }
  }

  /** One step of the geometric series, as an identity of polynomials. */
  lemma GeometricStep(sum: real, prev: real, fcf: real, q: real, p: real)
    requires sum == prev + fcf * (q * p)
    requires prev * (q - 1.0) == fcf * q * (p - 1.0)
    ensures sum * (q - 1.0) == fcf * q * (q * p - 1.0)
  {
    calc {
      sum * (q - 1.0);
      prev * (q - 1.0) + fcf * (q * p) * (q - 1.0);
      fcf * q * (p - 1.0) + fcf * q * (p * q - p);
      fcf * q * (q * p - 1.0);
    }
  }

  /** When growth equals the discount rate every year is worth the current cash flow. */
  lemma {:induction false} ProjectedPresentValueFlat(fcf: real, rate: real, years: nat)
    requires rate != -100.0
    ensures ProjectedPresentValue(fcf, rate, rate, years) == fcf * years as real
  {
    if years > 0 {
      ProjectedPresentValueFlat(fcf, rate, years - 1);
      YearPresentValueIsPower(fcf, rate, rate, years);
      var factor := 1.0 + rate / 100.0;
      assert factor != 0.0;
      DivideBySelf(factor);
      assert YearlyRatio(rate, rate) == 1.0;
      PowOne(years);
      assert YearPresentValue(fcf, rate, rate, years) == fcf;
      var k := (years - 1) as real;
      assert years as real == k + 1.0;
      assert ProjectedPresentValue(fcf, rate, rate, years) == fcf * k + fcf;
    }
  }

  /** With positive cash flow and growth and discount factors, each added year adds value. */
  lemma {:induction false} ProjectedPresentValuePositive(fcf: real, growthRate: real, discountRate: real, years: nat)
    requires fcf > 0.0 && growthRate > -100.0 && discountRate > -100.0
    ensures ProjectedPresentValue(fcf, growthRate, discountRate, years) >= 0.0
    ensures years > 0 ==> ProjectedPresentValue(fcf, growthRate, discountRate, years) > 0.0
  {
    if years > 0 {
      ProjectedPresentValuePositive(fcf, growthRate, discountRate, years - 1);
      YearPresentValueIsPower(fcf, growthRate, discountRate, years);
      var q := YearlyRatio(growthRate, discountRate);
      assert q > 0.0;
      PositiveProduct(fcf, Pow(q, years));
    }
  }

  lemma DivideBySelf(x: real)
    requires x != 0.0
    ensures x / x == 1.0
  {}

  lemma PositiveQuotient(x: real, y: real)
    requires x > 0.0 && y > 0.0
    ensures x / y > 0.0
  {}

  /**
    A positive cash flow, growth above -100%, a discount rate above the terminal
    growth and a positive share count give a positive intrinsic value.
   */
  lemma DcfPositive(input: DcfInput)
    requires input.freeCashFlow > 0.0 && input.growthRate > -100.0 && input.discountRate > 3.0
    requires input.totalShares > 0.0
    ensures DcfDefined(input) && TotalPresentValue(input) / input.totalShares > 0.0
  {
    ProjectedPresentValuePositive(input.freeCashFlow, input.growthRate, input.discountRate, LoopYears(input));
    var a := 1.0 + input.growthRate / 100.0;
    var b := 1.0 + input.discountRate / 100.0;
    PositiveProduct(input.freeCashFlow, IntPow(a, input.projectionYears));
    var last := LastCashFlow(input);
    PositiveProduct(last, 1.0 + TerminalGrowth);
    PositiveQuotient(last * (1.0 + TerminalGrowth), input.discountRate / 100.0 - TerminalGrowth);
    var tv := TerminalValue(input);
    PositiveQuotient(tv, IntPow(b, input.projectionYears));
    PositiveQuotient(TotalPresentValue(input), input.totalShares);
  }
}
