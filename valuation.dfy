/**
  The valuation engine: the result record shared by the four valuation rules, the
  fields every rule derives from its intrinsic value in the same way, the buy/hold/
  expensive signal, and the Graham, Barsi and Peter Lynch rules. The discounted cash
  flow rule, which loops, is in module Dcf.

  All numbers are exact reals; JavaScript's floating point is not modelled.
 */
module Valuation {
  import opened Wrappers
  import opened Numerics

  /** The signal labels of `getSignal`: buy, neutral, expensive. */
  datatype Signal = Comprar | Neutro | Caro
  {
    function Label(): string
    {
      match this
      case Comprar => "comprar"
      case Neutro => "neutro"
      case Caro => "caro"
    }
  }

  /** The PEG classification labels: cheap, fair, expensive. */
  datatype PegClassification = Barato | Justo | CaroPeg
  {
    function Label(): string
    {
      match this
      case Barato => "Barato"
      case Justo => "Justo"
      case CaroPeg => "Caro"
    }
  }

  /** The fixed `method` name each rule writes into its result. */
  datatype MethodName = BenjaminGraham | LuizBarsi | FluxoDeCaixaDescontado | PeterLynchPeg
  {
    function Label(): string
    {
      match this
      case BenjaminGraham => "Benjamin Graham"
      case LuizBarsi => "Luiz Barsi"
      case FluxoDeCaixaDescontado => "Fluxo de Caixa Descontado"
      case PeterLynchPeg => "Peter Lynch (PEG)"
    }
  }

  /**
    `ValuationResult`; the Peter Lynch rule also sets `peg` and `pegClassification`,
    which the other rules leave absent.
   */
  datatype ValuationResult = ValuationResult(
    intrinsicValue: real,
    ceilingPrice: real,
    safetyMarginPercent: real,
    upsidePercent: real,
    signal: Signal,
    methodName: MethodName,
    peg: Option<real>,
    pegClassification: Option<PegClassification>)

  /**
    Distinct constructors have distinct labels, so each datatype stands for its
    string union one to one.
   */
  lemma LabelsDistinct()
    ensures forall s: Signal, t: Signal :: s.Label() == t.Label() ==> s == t
    ensures forall c: PegClassification, d: PegClassification :: c.Label() == d.Label() ==> c == d
    ensures forall m: MethodName, n: MethodName :: m.Label() == n.Label() ==> m == n
  {}

  // ---------------------------------------------------------------------------
  // Signal

  /** Order of the signals from cheapest to dearest. */
  function Rank(s: Signal): nat
  {
    match s
    case Comprar => 0
    case Neutro => 1
    case Caro => 2
  }

  /** `getSignal`: the 0.95 band is tested first, then the 1.1 band. */
  function GetSignal(currentPrice: real, ceilingPrice: real): (s: Signal)
    ensures s == Comprar <==> currentPrice <= ceilingPrice * 0.95
    ensures s == Neutro <==> ceilingPrice * 0.95 < currentPrice <= ceilingPrice * 1.1
    ensures s == Caro <==> currentPrice > ceilingPrice * 0.95 && currentPrice > ceilingPrice * 1.1
  {
    if currentPrice <= ceilingPrice * 0.95 then Comprar
    else if currentPrice <= ceilingPrice * 1.1 then Neutro
    else Caro
  }

  /** For a non-negative ceiling price a higher price never gives a cheaper signal. */
  lemma SignalMonotone(p1: real, p2: real, ceilingPrice: real)
    requires ceilingPrice >= 0.0 && p1 <= p2
    ensures Rank(GetSignal(p1, ceilingPrice)) <= Rank(GetSignal(p2, ceilingPrice))
  {}

  /** For a negative ceiling price the 1.1 band lies below the 0.95 band, so 'neutro' cannot occur. */
  lemma NeutroUnreachableBelowZero(currentPrice: real, ceilingPrice: real)
    requires ceilingPrice < 0.0
    ensures GetSignal(currentPrice, ceilingPrice) != Neutro
    ensures GetSignal(currentPrice, ceilingPrice) == Comprar <==> currentPrice <= ceilingPrice * 0.95
  {}

  /** The band boundaries at a ceiling price of 100. */
  lemma SignalBoundaries()
    ensures GetSignal(95.0, 100.0) == Comprar
    ensures GetSignal(95.01, 100.0) == Neutro
    ensures GetSignal(110.0, 100.0) == Neutro
    ensures GetSignal(110.01, 100.0) == Caro
  {}

  // ---------------------------------------------------------------------------
  // Fields every rule derives from its intrinsic value

  function CeilingPrice(intrinsicValue: real, safetyMargin: real): real
  {
    intrinsicValue * (1.0 - safetyMargin / 100.0)
  }

  function SafetyMarginPercent(intrinsicValue: real, currentPrice: real): real
  {
    if intrinsicValue > 0.0 then (intrinsicValue - currentPrice) / intrinsicValue * 100.0 else 0.0
  }

  function UpsidePercent(ceilingPrice: real, currentPrice: real): real
  {
    if currentPrice > 0.0 then (ceilingPrice - currentPrice) / currentPrice * 100.0 else 0.0
  }

  /**
    The relation every rule's result keeps between its intrinsic value, the caller's
    price and safety margin, and the four derived fields.
   */
  predicate Derived(r: ValuationResult, currentPrice: real, safetyMargin: real)
  {
    && r.ceilingPrice == CeilingPrice(r.intrinsicValue, safetyMargin)
    && r.safetyMarginPercent == SafetyMarginPercent(r.intrinsicValue, currentPrice)
    && r.upsidePercent == UpsidePercent(r.ceilingPrice, currentPrice)
    && r.signal == GetSignal(currentPrice, r.ceilingPrice)
  }

  /** The part of each rule after its intrinsic value is known. */
  function Complete(intrinsicValue: real, currentPrice: real, safetyMargin: real, methodName: MethodName): (r: ValuationResult)
    ensures r.intrinsicValue == intrinsicValue && r.methodName == methodName
    ensures Derived(r, currentPrice, safetyMargin)
    ensures r.peg == None && r.pegClassification == None
  {
    var ceilingPrice := CeilingPrice(intrinsicValue, safetyMargin);
    ValuationResult(
      intrinsicValue,
      ceilingPrice,
      SafetyMarginPercent(intrinsicValue, currentPrice),
      UpsidePercent(ceilingPrice, currentPrice),
      GetSignal(currentPrice, ceilingPrice),
      methodName,
      None,
      None)
  }

  /**
    With a safety margin between 0 and 100 and a non-negative intrinsic value, the
    ceiling price lies between 0 and the intrinsic value.
   */
  lemma CeilingWithinIntrinsic(r: ValuationResult, currentPrice: real, safetyMargin: real)
    requires Derived(r, currentPrice, safetyMargin)
    requires 0.0 <= safetyMargin <= 100.0 && r.intrinsicValue >= 0.0
    ensures 0.0 <= r.ceilingPrice <= r.intrinsicValue
  {
    var f := 1.0 - safetyMargin / 100.0;
    assert 0.0 <= f <= 1.0;
    assert r.ceilingPrice == r.intrinsicValue * f;
    assert r.intrinsicValue * f <= r.intrinsicValue * 1.0;
  }

  /** A positive intrinsic value gives a positive safety margin exactly when the price is below it. */
  lemma SafetyMarginSign(r: ValuationResult, currentPrice: real, safetyMargin: real)
    requires Derived(r, currentPrice, safetyMargin) && r.intrinsicValue > 0.0
    ensures r.safetyMarginPercent > 0.0 <==> currentPrice < r.intrinsicValue
    ensures r.safetyMarginPercent == 0.0 <==> currentPrice == r.intrinsicValue
  {
    var iv := r.intrinsicValue;
    var q := (iv - currentPrice) / iv;
    assert q * iv == iv - currentPrice;
    assert r.safetyMarginPercent == q * 100.0;
    if q > 0.0 {
      PositiveProduct(q, iv);
    } else if q < 0.0 {
      PositiveProduct(-q, iv);
    }
  }

  /** A positive price gives a positive upside exactly when it is below the ceiling price. */
  lemma UpsideSign(r: ValuationResult, currentPrice: real, safetyMargin: real)
    requires Derived(r, currentPrice, safetyMargin) && currentPrice > 0.0
    ensures r.upsidePercent > 0.0 <==> currentPrice < r.ceilingPrice
    ensures r.upsidePercent < 0.0 <==> currentPrice > r.ceilingPrice
  {
    var q := (r.ceilingPrice - currentPrice) / currentPrice;
    assert q * currentPrice == r.ceilingPrice - currentPrice;
    assert r.upsidePercent == q * 100.0;
    if q > 0.0 {
      PositiveProduct(q, currentPrice);
    } else if q < 0.0 {
      PositiveProduct(-q, currentPrice);
    }
  }

  /**
    For a positive price the signal agrees with the upside: 'comprar' only with a
    positive upside, 'caro' only with a negative one.
   */
  lemma SignalAgreesWithUpside(r: ValuationResult, currentPrice: real, safetyMargin: real)
    requires Derived(r, currentPrice, safetyMargin) && currentPrice > 0.0
    ensures r.signal == Comprar ==> r.upsidePercent > 0.0
    ensures r.signal == Caro ==> r.upsidePercent < 0.0
  {
    UpsideSign(r, currentPrice, safetyMargin);
  }

  /** Multiplying by a positive factor keeps the order against a bound. */
  lemma ScaledCompare(q: real, g: real, k: real, product: real, bound: real)
    requires g > 0.0 && product == q * g && bound == k * g
    ensures q < k <==> product < bound
    ensures q > k <==> product > bound
  {
    if q < k {
      PositiveProduct(k - q, g);
    } else if q > k {
      PositiveProduct(q - k, g);
    }
  }

  // ---------------------------------------------------------------------------
  // Benjamin Graham

  datatype GrahamInput = GrahamInput(lpa: real, vpa: real, currentPrice: real, safetyMargin: real)

  /** Graham's radicand, 22.5 times earnings per share times book value per share. */
  function GrahamProduct(input: GrahamInput): real
  {
    22.5 * input.lpa * input.vpa
  }

  /**
    `calculateGraham`: the intrinsic value is the square root of the product when that
    is positive, and 0 otherwise. `sqrt` stands for the host's `Math.sqrt`.
   */
  function CalculateGraham(input: GrahamInput, sqrt: real -> real): (r: ValuationResult)
    requires SqrtAt(sqrt, GrahamProduct(input))
    ensures r.methodName == BenjaminGraham && r.peg == None && r.pegClassification == None
    ensures Derived(r, input.currentPrice, input.safetyMargin)
    ensures GrahamProduct(input) <= 0.0 ==> r.intrinsicValue == 0.0
    ensures GrahamProduct(input) > 0.0 ==> IsSquareRoot(r.intrinsicValue, GrahamProduct(input))
    ensures r.intrinsicValue >= 0.0
  {
    var product := GrahamProduct(input);
    var intrinsicValue := if product > 0.0 then sqrt(product) else 0.0;
    Complete(intrinsicValue, input.currentPrice, input.safetyMargin, BenjaminGraham)
  }

  /**
    Graham's result is determined by its input: any two functions that return the
    non-negative square root at the product give the same result.
   */
  lemma GrahamDeterminedByInput(input: GrahamInput, sqrt1: real -> real, sqrt2: real -> real)
    requires SqrtAt(sqrt1, GrahamProduct(input)) && SqrtAt(sqrt2, GrahamProduct(input))
    ensures CalculateGraham(input, sqrt1) == CalculateGraham(input, sqrt2)
  {
    var product := GrahamProduct(input);
    if product > 0.0 {
      SquareRootUnique(sqrt1(product), sqrt2(product), product);
    }
  }

  /** Earnings 1 and book value 0.4 give a radicand of 9 and so a fair value of 3. */
  lemma GrahamExample(sqrt: real -> real)
    requires SqrtAt(sqrt, 9.0)
    ensures CalculateGraham(GrahamInput(1.0, 0.4, 2.0, 0.0), sqrt).intrinsicValue == 3.0
  {
    var input := GrahamInput(1.0, 0.4, 2.0, 0.0);
    assert GrahamProduct(input) == 9.0;
    var r := CalculateGraham(input, sqrt);
    SquareRootUnique(r.intrinsicValue, 3.0, 9.0);
  }

  // ---------------------------------------------------------------------------
  // Luiz Barsi

  datatype BarsiInput = BarsiInput(currentDY: real, desiredDY: real, currentPrice: real, safetyMargin: real)

  /** Both yields positive: the only case in which the rule values the stock. */
  predicate BarsiApplies(input: BarsiInput)
  {
    input.desiredDY > 0.0 && input.currentDY > 0.0
  }

  /**
    `calculateBarsi`: the price rescaled so that the stock would yield the desired
    dividend yield; 0 unless both yields are positive.
   */
  function CalculateBarsi(input: BarsiInput): (r: ValuationResult)
    ensures r.methodName == LuizBarsi && r.peg == None && r.pegClassification == None
    ensures Derived(r, input.currentPrice, input.safetyMargin)
    ensures BarsiApplies(input) ==> r.intrinsicValue * input.desiredDY == input.currentPrice * input.currentDY
    ensures !BarsiApplies(input) ==> r.intrinsicValue == 0.0
  {
    var intrinsicValue :=
      if input.desiredDY > 0.0 && input.currentDY > 0.0
      then input.currentPrice * (input.currentDY / input.desiredDY)
      else 0.0;
    Complete(intrinsicValue, input.currentPrice, input.safetyMargin, LuizBarsi)
  }

  /**
    At the intrinsic value, the dividend that pays `currentDY` percent at the current
    price pays exactly `desiredDY` percent; the intrinsic value is above the price
    exactly when the current yield is above the desired one.
   */
  lemma BarsiHitsDesiredYield(input: BarsiInput)
    requires BarsiApplies(input) && input.currentPrice > 0.0
    ensures var iv := CalculateBarsi(input).intrinsicValue;
      && iv > 0.0
      && (input.currentPrice * input.currentDY / 100.0) / iv * 100.0 == input.desiredDY
      && (iv > input.currentPrice <==> input.currentDY > input.desiredDY)
  {
    var iv := CalculateBarsi(input).intrinsicValue;
    var ratio := input.currentDY / input.desiredDY;
    assert iv == input.currentPrice * ratio;
    PositiveProduct(input.currentPrice, ratio);
    var dividend := input.currentPrice * input.currentDY / 100.0;
    assert iv * input.desiredDY == input.currentPrice * input.currentDY;
    assert dividend / iv * 100.0 == input.desiredDY;
    assert ratio * input.desiredDY == input.currentDY;
    ScaledCompare(ratio, input.desiredDY, 1.0, input.currentDY, input.desiredDY);
    ScaledCompare(ratio, input.currentPrice, 1.0, iv, input.currentPrice);
  }

  /** A yield of 8 against a desired 6 at price 30 gives a fair value of 40. */
  lemma BarsiExample()
    ensures CalculateBarsi(BarsiInput(8.0, 6.0, 30.0, 0.0)).intrinsicValue == 40.0
  {}

  // ---------------------------------------------------------------------------
  // Peter Lynch

  datatype PeterLynchInput = PeterLynchInput(
    lpa: real, growthRate: real, plRatio: Option<real>, currentPrice: real, safetyMargin: real)

  /** The PEG bands: below 1 cheap, up to 1.5 fair, above that expensive. */
  function ClassifyPeg(peg: real): (c: PegClassification)
    ensures c == Barato <==> peg < 1.0
    ensures c == Justo <==> 1.0 <= peg <= 1.5
    ensures c == CaroPeg <==> peg > 1.5
  {
    if peg < 1.0 then Barato else if peg <= 1.5 then Justo else CaroPeg
  }

  /** `plRatio && growthRate > 0`: a P/L ratio that is present and truthy (non-zero), and positive growth. */
  predicate PegDefined(input: PeterLynchInput)
  {
    input.plRatio.Some? && input.plRatio.value != 0.0 && input.growthRate > 0.0
  }

  /**
    `calculatePeterLynch`: the intrinsic value is earnings times the raw growth rate
    (not divided by 100, not clamped); PEG and its class are present together, and
    only when `PegDefined`.
   */
  function CalculatePeterLynch(input: PeterLynchInput): (r: ValuationResult)
    ensures r.methodName == PeterLynchPeg
    ensures Derived(r, input.currentPrice, input.safetyMargin)
    ensures r.intrinsicValue == input.lpa * input.growthRate
    ensures r.peg.Some? <==> PegDefined(input)
    ensures r.pegClassification.Some? <==> PegDefined(input)
    ensures PegDefined(input) ==>
      && r.peg.value * input.growthRate == input.plRatio.value
      && r.pegClassification.value == ClassifyPeg(r.peg.value)
  {
    var base := Complete(input.lpa * input.growthRate, input.currentPrice, input.safetyMargin, PeterLynchPeg);
    if input.plRatio.Some? && input.plRatio.value != 0.0 && input.growthRate > 0.0 then
      var peg := input.plRatio.value / input.growthRate;
      base.(peg := Some(peg), pegClassification := Some(ClassifyPeg(peg)))
    else
      base
  }

  /** A stock is 'Barato' exactly when its P/L ratio is below its growth rate, 'Caro' when above 1.5 times it. */
  lemma PegCheapIffRatioBelowGrowth(input: PeterLynchInput)
    requires PegDefined(input)
    ensures var c := CalculatePeterLynch(input).pegClassification.value;
      && (c == Barato <==> input.plRatio.value < input.growthRate)
      && (c == CaroPeg <==> input.plRatio.value > 1.5 * input.growthRate)
  {
    var g, pl := input.growthRate, input.plRatio.value;
    var r := CalculatePeterLynch(input);
    var peg := r.peg.value;
    assert peg * g == pl;
    assert r.pegClassification.value == ClassifyPeg(peg);
    ScaledCompare(peg, g, 1.0, pl, g);
    ScaledCompare(peg, g, 1.5, pl, 1.5 * g);
  }

  /** Earnings 5, growth 15, P/L 12: fair value 75, PEG 0.8, 'Barato'; without P/L no PEG. */
  lemma PeterLynchExample()
    ensures var r := CalculatePeterLynch(PeterLynchInput(5.0, 15.0, Some(12.0), 50.0, 10.0));
      r.intrinsicValue == 75.0 && r.peg == Some(0.8) && r.pegClassification == Some(Barato)
    ensures var r := CalculatePeterLynch(PeterLynchInput(5.0, 15.0, None, 50.0, 10.0));
      r.peg == None && r.pegClassification == None
  {}

  /** Negative earnings give a negative intrinsic value: the rule does not clamp to 0. */
  lemma PeterLynchNotClamped()
    ensures CalculatePeterLynch(PeterLynchInput(-2.0, 10.0, None, 50.0, 10.0)).intrinsicValue == -20.0
  {}
}
