# Brazilian stock valuations: the valuation engine in Dafny

This project models the valuation engine of a stock "fair value" calculator
(`src/lib/valuation.ts`). It has three parts:

- four valuation rules: Benjamin Graham, Luiz Barsi (dividend yield),
  discounted cash flow, and Peter Lynch (PEG). Each computes an intrinsic value
  per share and then fills the same result record: the ceiling price, the
  safety-margin percentage, the upside percentage and a signal;
- the signal classifier `getSignal`. It sorts the current price against the
  ceiling price into `comprar` (buy), `neutro` (neutral) or `caro` (expensive);
- the saved-analysis history. It keeps a list of analyses in one storage slot,
  newest first and at most 50 long, with save, list and delete-by-id.

Modules:

- `Numerics` (`numerics.dfy`) covers `Math.pow` with an integer exponent as a
  recursive power function, and what the rules rely on of `Math.sqrt`.
- `Valuation` (`valuation.dfy`) holds the result record, the signal, the derived
  fields, and the Graham, Barsi and Peter Lynch rules.
- `Dcf` (`dcf.dfy`) holds the discounted cash flow rule. It is a method whose
  loop adds up the yearly present values, proved against a recursive sum.
- `History` (`history.dfy`) holds the history store. This is a class whose `slot`
  field stands for the storage entry, plus the pure list operations it writes and
  lemmas about them.
- `Wrappers` (`wrappers.dfy`) holds an `Option` type for properties that may be
  `undefined`.

All numbers are exact `real`s. String unions become datatypes: `Signal`,
`PegClassification` and `MethodName`, each with a `Label()` that gives the string
the source uses.

The DCF rule's `method` label is the Portuguese `Fluxo de Caixa Descontado`.
`deleteAnalysis` filters, so it removes every entry with the id;
`History.RemoveId` counts the removed entries with `CountId`.

## Model

| member | source | states |
|---|---|---|
| `Numerics.Pow` | src/lib/valuation.ts:94-95 | `Math.pow` with a natural exponent: non-zero for a non-zero base, positive for a positive base |
| `Numerics.IntPow` | src/lib/valuation.ts:101-103 | `Math.pow` at the horizon as given: the natural power for a non-negative exponent; for a negative one, the value whose product with the positive power is 1 |
| `Numerics.PowQuotient` | src/lib/valuation.ts:94-95 | discounting the grown flow year by year is raising the growth-to-discount ratio to the year |
| `Numerics.SquareRootUnique` | src/lib/valuation.ts:45 | the non-negative square root is unique, so `Math.sqrt` is pinned down by what a square root is |
| `Valuation.LabelsDistinct` | src/lib/valuation.ts:38 | the signal, PEG-class and method-name datatypes map one to one onto the source's strings: distinct constructors have distinct labels |
| `Valuation.GetSignal` | src/lib/valuation.ts:155-159 | exactly one signal: `comprar` iff price <= 0.95 x ceiling; `neutro` iff that fails and price <= 1.1 x ceiling; `caro` otherwise |
| `Valuation.SignalMonotone` | src/lib/valuation.ts:155-159 | for a non-negative ceiling price a higher price never gives a cheaper signal |
| `Valuation.NeutroUnreachableBelowZero` | src/lib/valuation.ts:156-157 | for a negative ceiling price `neutro` never occurs: only `comprar` (price <= 0.95 x ceiling) or `caro` |
| `Valuation.SignalBoundaries` | src/lib/valuation.ts:156-158 | at ceiling 100: 95 buys, 95.01 and 110 are neutral, 110.01 is expensive |
| `Valuation.Complete` | src/lib/valuation.ts:46-59 | the result keeps the given intrinsic value and method name, has no PEG, and its derived fields satisfy `Derived` |
| `Valuation.CeilingWithinIntrinsic` | src/lib/valuation.ts:46 | a margin in 0..100 puts the ceiling price between 0 and a non-negative intrinsic value |
| `Valuation.SafetyMarginSign` | src/lib/valuation.ts:47-49 | for a positive intrinsic value the safety margin is positive iff the price is below it, and zero iff equal |
| `Valuation.UpsideSign` | src/lib/valuation.ts:50-52 | for a positive price the upside is positive iff the price is below the ceiling, and negative iff above |
| `Valuation.SignalAgreesWithUpside` | src/lib/valuation.ts:50-59 | for a positive price, `comprar` comes with a positive upside and `caro` with a negative one |
| `Valuation.CalculateGraham` | src/lib/valuation.ts:42-62 | intrinsic value 0 when 22.5 x EPS x BVPS <= 0, otherwise the non-negative root of it, so never negative; derived fields as for every rule; method `Benjamin Graham` |
| `Valuation.GrahamDeterminedByInput` | src/lib/valuation.ts:44-45 | any two square-root functions give the same Graham result |
| `Valuation.GrahamExample` | src/lib/valuation.ts:44-45 | EPS 1 and BVPS 0.4 give a radicand of 9 and a fair value of 3 |
| `Valuation.CalculateBarsi` | src/lib/valuation.ts:64-87 | when both yields are positive the intrinsic value times the desired yield equals the price times the current yield; otherwise it is 0; derived fields as for every rule; method `Luiz Barsi` |
| `Valuation.BarsiHitsDesiredYield` | src/lib/valuation.ts:67-70 | at the intrinsic value, the dividend implied by the current yield pays exactly the desired yield; the value is above the price iff the current yield is above the desired one |
| `Valuation.BarsiExample` | src/lib/valuation.ts:67-70 | yield 8, desired 6, price 30 give 40 |
| `Valuation.ClassifyPeg` | src/lib/valuation.ts:140 | `Barato` iff PEG < 1, `Justo` iff 1 <= PEG <= 1.5, `Caro` iff PEG > 1.5 |
| `Valuation.CalculatePeterLynch` | src/lib/valuation.ts:125-153 | intrinsic value is EPS x raw growth rate; PEG and its class are present iff the P/L is present and non-zero and growth is positive; then PEG x growth = P/L and the class is that of the PEG; derived fields as for every rule |
| `Valuation.PegCheapIffRatioBelowGrowth` | src/lib/valuation.ts:138-140 | `Barato` iff P/L < growth; `Caro` iff P/L > 1.5 x growth |
| `Valuation.PeterLynchExample` | src/lib/valuation.ts:127-141 | EPS 5, growth 15, P/L 12 give 75, PEG 0.8, `Barato`; without a P/L both PEG fields are absent |
| `Valuation.PeterLynchNotClamped` | src/lib/valuation.ts:127 | negative earnings give a negative intrinsic value (no clamp to 0) |
| `Dcf.YearPresentValue` | src/lib/valuation.ts:94-95 | a year's present value, compounded at the discount rate for that year, gives back the projected cash flow |
| `Dcf.TerminalValue` | src/lib/valuation.ts:99-102 | the terminal value times (discount rate - 3%) equals the last cash flow grown by 3% |
| `Dcf.TerminalPresentValue` | src/lib/valuation.ts:103 | the discounted terminal value, compounded over the horizon, gives back the terminal value |
| `Dcf.CalculateDcf` | src/lib/valuation.ts:89-123 | the loop's total is the sum over years 1..n of the discounted projected flows; with the discounted terminal value added, the intrinsic value times the share count is that total when shares > 0, else the value is 0; derived fields as for every rule; method `Fluxo de Caixa Descontado` |
| `Dcf.ZeroHorizonFullDiscount` | src/lib/valuation.ts:92-104 | at horizon 0 a discount rate of -100% is admitted; the total is the undiscounted terminal value, fcf x 1.03 / -1.03 |
| `Dcf.YearPresentValueIsPower` | src/lib/valuation.ts:94-95 | each year's present value is the cash flow times (growth factor / discount factor) to the year |
| `Dcf.ProjectedPresentValueGeometric` | src/lib/valuation.ts:92-97 | the projected sum is a geometric series: with ratio q, sum x (q - 1) = fcf x q x (q^n - 1) |
| `Dcf.ProjectedPresentValueFlat` | src/lib/valuation.ts:92-97 | when growth equals the discount rate the projected sum is n x fcf |
| `Dcf.ProjectedPresentValuePositive` | src/lib/valuation.ts:92-97 | a positive cash flow with factors above zero gives a non-negative sum, positive once a year is projected |
| `Dcf.DcfPositive` | src/lib/valuation.ts:92-106 | positive cash flow, growth above -100%, a discount rate above 3% and positive shares give a positive intrinsic value |
| `History.Truncate` | src/lib/valuation.ts:173 | `slice(0, 50)`: a prefix of length min(n, 50) |
| `History.Prepend` | src/lib/valuation.ts:171-173 | the saved list has the new analysis first, then the old entries in order, with length min(old + 1, 50) |
| `History.RemoveId` | src/lib/valuation.ts:185 | the filter leaves no entry with the id, keeps every other entry as often as before, and is shorter by the number of matches |
| `History.RemoveIdConcat` | src/lib/valuation.ts:185 | filtering a concatenation filters each part, so kept entries keep their order |
| `History.RemoveAbsentId` | src/lib/valuation.ts:185 | deleting an id no entry has changes nothing |
| `History.RemoveIdIdempotent` | src/lib/valuation.ts:185 | deleting the same id twice is deleting it once |
| `History.DeleteUndoesSave` | src/lib/valuation.ts:170-187 | saving an analysis with a new id into a history with room, then deleting that id, restores the history |
| `History.SaveAllKeepsNewest` | src/lib/valuation.ts:170-174 | saving a batch one by one into a history of at most 50 leaves the batch reversed followed by the old history, cut to 50 |
| `History.FiftyFiveSaves` | src/lib/valuation.ts:170-174 | after 55 saves into an empty history, exactly the last 50 remain, newest first |
| `History.AnalysisStore.GetAnalyses` | src/lib/valuation.ts:176-182 | the stored list, or no entries when the slot is missing or does not parse |
| `History.AnalysisStore.SaveAnalysis` | src/lib/valuation.ts:170-174 | the slot afterwards holds `Prepend` of what was readable before, so the new analysis is first and there are at most 50 entries |
| `History.AnalysisStore.DeleteAnalysis` | src/lib/valuation.ts:184-187 | the slot afterwards holds `RemoveId` of what was readable before, shorter by the number of matches |

## Left out

- Floating point: numbers are exact reals. IEEE rounding of 0.95, 1.1, 0.03 and
  22.5, and NaN and Infinity, are not modelled. This includes a `NaN` P/L ratio,
  which JavaScript treats as falsy.
- `Math.sqrt` is not implemented. `Valuation.CalculateGraham` takes the host's
  square root as a parameter and requires only that, at the radicand, it returns
  the non-negative root.
- Dcf.CalculateDcf: requires `DcfDefined`, which excludes inputs where exact
  arithmetic would divide by zero. The source does not guard them:
  - a discount rate of exactly 3% (zero terminal denominator);
  - a discount rate of -100% with a non-zero horizon (zero discount factor);
  - a negative horizon with a growth rate of -100% (zero to a negative power).

  Some of these excluded inputs still give a finite record in JavaScript, and the
  model does not cover them:
  - With `totalShares <= 0`, every excluded input returns an intrinsic value of 0
    (line 106), even though `totalPV` is Infinity or NaN.
  - A discount rate of -100% with a negative horizon divides the terminal value by
    Infinity, which gives 0.

  A discount rate of -100% at horizon 0 is modelled: the loop does not run and
  the discount factor is raised to the power 0.
- A discount rate below 3% makes the terminal value negative for a positive cash
  flow. The model computes that value as the source does and proves nothing
  about it beyond `Dcf.TerminalValue`.
- A fractional `projectionYears` is not modelled: the horizon is an integer.
  Negative and zero horizons are modelled: the loop does not run, and the
  terminal value uses the power at the horizon as given.
- `console.log` in `calculateBarsi` is output only.
- The model has no storage, JSON or serialisation. The storage entry is the
  store's `slot` field: missing, holding a parsed list, or holding text that does
  not parse.
  - A slot whose JSON parses to something other than a list is not modelled.
  - A failing `setItem`, for example when the quota is exceeded, is not modelled.
  - Races between two tabs that write the same entry are not modelled.
- History.SaveAllKeepsNewest: requires a starting history of at most 50 entries.
  That is what `saveAnalysis` writes. A slot written by other code with more
  entries is cut to 50 on the first save, which the lemma does not cover.
- The user interface, the quote fetch, toasts, ids from `crypto.randomUUID`,
  timestamps and translations are outside the engine. The callers supply
  `SavedAnalysis` ids and dates.
