# Thermo-learning: a verified model of the thermochemistry core

Thermo-learning is a set of web pages for teaching thermochemistry. This project models its
computational core in Dafny and proves properties of the model:

- **EnthalpyCalculations** (`setup-project/src/utils/EnthalpyCalculations.js`). The calculation
  library:
  - energy unit conversion;
  - the heat q = m c ΔT;
  - the final temperature of a calorimetric mixture (Black's principle);
  - reaction enthalpy from standard formation enthalpies or from average bond energies;
  - the linear Hess's-law sum;
  - validation of a thermochemical equation;
  - parsing of a compound token such as `2H2O`;
  - moles from mass and mass from moles.

  A thrown exception is a `Failure`. Numbers are reals.
  `parseFloat(x.toFixed(d))` is `Numerics.RoundTo` (ties go away from zero, as `toFixed`
  does). NaN and the infinities are explicit alternatives of `JsNumber`.
- **ThermochemistryData** (`setup-project/src/utils/ThermochemistryData.js`). Three tables:
  - formation enthalpies;
  - bond energies;
  - specific heats.

  Each has an `Array.prototype.find` lookup with first-match semantics.
- **AssessmentModule** (`setup-project/src/components/AssessmentModule.jsx`):
  - the question bank;
  - per-item grading;
  - the forEach tally of `calculateResults` (a `method` with a loop, proved against the
    specification functions `CorrectCount`, `TopicCount` and `TopicScore`);
  - the score, the badge and the radar data;
  - the exam session. The session is a `class Session` whose handlers update its fields. Each
    handler is proved equal to a pure transition `Step`, and the lemmas about `Step` and `Run`
    state what a sequence of events does.
- **HessLaw** (`stoich/src/components/HessLaw.jsx`). The Hess's-law workspace: flipping and
  scaling reaction steps, the one-decimal total and the answer check. It is a
  `class Workspace` whose invariant says every step is derived from its example step.
- **VirtualLab** (`setup-project/src/components/VirtualLab.jsx`). The virtual calorimetry
  bench: experiment selection, the 60-second temperature ramp driven by a 100 ms interval,
  reset and saved trials. It is a `class Lab` whose invariant says the recorded series is the
  ramp of the current run up to the clock.

Two modules support the others. `JsStrings` holds `String.prototype.trim`, `toLowerCase` on
ASCII and `includes`. `Numerics` holds rounding, `Math.round`, `Math.abs` and `Math.min`.
`Wrappers` holds `Option` and `Result`.

Where the library's documented behaviour and its code differ, the model follows the code:

- `calculateFinalTemp` has no guard against a zero total heat capacity, so it returns NaN or an
  infinity rather than throwing (`FinalTempZeroCapacity`).
- The kcal and cal conversions are not exact inverses. A round trip scales the value by
  0.239 × 4.184 = 0.999976 (`ConvertCalorieRoundTrip`).
- `hessLawSolver([])` returns 0 (`HessEmpty`).
- NaN is of type number, so it passes the type tests of `hessLawSolver` and `calculateMol` and
  propagates (`HessNaNAndMissing`, `CalculateMol`).
- The line-item guard of the ΔH calculations is a truthiness test, not a type test. A truthy
  non-number such as the string "2" passes it and is coerced by `*`
  (`MethaneCombustionWithStringCoefficient`); one that coerces to NaN makes ΔH NaN
  (`FormationNaNField`).

Three places of the code are evidently wrong (see "## Findings"). For each, the model has a
member that follows the code as written and a corrected one. `Grade` and `Session.Results` use
the corrected topic tally, not the reset as written.

## Model

| member | source | states |
|---|---|---|
| Numerics.RoundTo2Near | setup-project/src/utils/EnthalpyCalculations.js:98 | parseFloat(toFixed(2)) moves a value by at most 0.005 |
| Numerics.RoundTo1Near | stoich/src/components/HessLaw.jsx:64 | parseFloat(toFixed(1)) moves a value by at most 0.05 |
| Numerics.RoundToNear | setup-project/src/utils/EnthalpyCalculations.js:259 | rounding to d decimals moves a value by at most half a unit of the last decimal |
| Numerics.RoundToOdd | setup-project/src/utils/EnthalpyCalculations.js:69-74 | rounding commutes with negation, because toFixed rounds the magnitude |
| Numerics.RoundToNonNegative | setup-project/src/components/VirtualLab.jsx:134 | a non-negative value stays non-negative when rounded |
| Numerics.RoundToExact | stoich/src/components/HessLaw.jsx:64 | a value that already has at most d decimals is unchanged by rounding |
| Numerics.MathRound | setup-project/src/components/AssessmentModule.jsx:252 | Math.round gives the integer in (x - 0.5, x + 0.5] |
| JsStrings.Trim | setup-project/src/utils/EnthalpyCalculations.js:202 | trim returns the slice after the leading whitespace; everything removed is whitespace; a non-empty result has no whitespace at either end; the result is empty iff the text is all whitespace |
| JsStrings.TrimIdempotent | setup-project/src/utils/EnthalpyCalculations.js:217 | trimming twice is trimming once |
| JsStrings.TrimPadded | setup-project/src/utils/EnthalpyCalculations.js:217 | whitespace padding around a token with non-blank ends is removed exactly |
| JsStrings.Lower | setup-project/src/utils/ThermochemistryData.js:259 | toLowerCase keeps the length and lower-cases each ASCII capital, leaving other characters alone |
| JsStrings.LowerIdempotent | setup-project/src/utils/ThermochemistryData.js:259 | lower-casing twice is lower-casing once |
| JsStrings.Includes | setup-project/src/utils/ThermochemistryData.js:259 | includes holds iff the needle occurs at some position |
| EnthalpyCalculations.JsDivide | setup-project/src/utils/EnthalpyCalculations.js:97 | division by a non-zero number is the quotient; 0/0 is NaN; a non-zero value divided by 0 is an infinity |
| EnthalpyCalculations.RoundNumber | setup-project/src/utils/EnthalpyCalculations.js:98 | a finite value is rounded to d decimals; NaN and infinities parse back to themselves |
| EnthalpyCalculations.ConvertEnergy | setup-project/src/utils/EnthalpyCalculations.js:28-51 | a non-number or NaN throws; equal units return the value; otherwise the conversion succeeds iff the unit pair is one of the eight in the table, and any other pair throws |
| EnthalpyCalculations.ConvertSupportedValues | setup-project/src/utils/EnthalpyCalculations.js:33-42 | the eight supported pairs give x × 0.239 (kJ→kcal, J→cal), x × 4.184 (kcal→kJ, cal→J), x × 1000 (kJ→J, kcal→cal) and x / 1000 (J→kJ, cal→kcal) |
| EnthalpyCalculations.ConvertScaleRoundTrip | setup-project/src/utils/EnthalpyCalculations.js:38-41 | kJ and J, and kcal and cal, convert there and back without loss |
| EnthalpyCalculations.ConvertCalorieRoundTrip | setup-project/src/utils/EnthalpyCalculations.js:13-16 | kJ to kcal and back (and J to cal and back) scales the value by 0.999976 |
| EnthalpyCalculations.ConvertUnsupportedExamples | setup-project/src/utils/EnthalpyCalculations.js:45-49 | kJ to cal and kcal to J are refused; NaN is refused as invalid; MJ to MJ returns the value |
| EnthalpyCalculations.CalculateHeat | setup-project/src/utils/EnthalpyCalculations.js:62-76 | throws iff some input is not a number or is NaN; otherwise reports q = m c ΔT in J, kJ, cal and kcal |
| EnthalpyCalculations.HeatFromJoulesOdd | setup-project/src/utils/EnthalpyCalculations.js:69-74 | negating the joule value negates all four reported values |
| EnthalpyCalculations.HeatSignSymmetry | setup-project/src/utils/EnthalpyCalculations.js:62-76 | reversing the temperature change reverses the sign of all four reported values |
| EnthalpyCalculations.HeatFromJoulesNear | setup-project/src/utils/EnthalpyCalculations.js:69-74 | each field is within 0.005 of the exact heat in its own unit |
| EnthalpyCalculations.HeatFieldsNearExact | setup-project/src/utils/EnthalpyCalculations.js:62-76 | each field is within 0.005 of the exact heat, and its kJ and cal fields are convertEnergy of the exact joule value |
| EnthalpyCalculations.CalculateFinalTemp | setup-project/src/utils/EnthalpyCalculations.js:87-99 | throws iff some input is not a number or is NaN; otherwise reports the weighted mean temperature to two decimals |
| EnthalpyCalculations.FinalTempBalance | setup-project/src/utils/EnthalpyCalculations.js:93-98 | the exact final temperature balances heat lost against heat gained, and the report is within 0.005 of it |
| EnthalpyCalculations.FinalTempBetween | setup-project/src/utils/EnthalpyCalculations.js:97-98 | with non-negative capacities not both zero, the mixture ends between the two starting temperatures |
| EnthalpyCalculations.FinalTempSymmetric | setup-project/src/utils/EnthalpyCalculations.js:87-99 | which body is named first does not matter |
| EnthalpyCalculations.FinalTempZeroCapacity | setup-project/src/utils/EnthalpyCalculations.js:97 | vanishing heat capacities give NaN, or an infinity, instead of an error |
| EnthalpyCalculations.ItemsTotal | setup-project/src/utils/EnthalpyCalculations.js:114-117 | the weighted sum of the entries is a number iff every entry's product is, and NaN otherwise |
| EnthalpyCalculations.CheckedTotal | setup-project/src/utils/EnthalpyCalculations.js:114-122 | the reduce throws iff the guard rejects some entry; otherwise it is the weighted sum of the entries |
| EnthalpyCalculations.EnthalpyChange | setup-project/src/utils/EnthalpyCalculations.js:109-135 | a non-array throws; an entry the guard rejects throws (as written, one with a falsy field: 0, NaN, undefined, null, false or ""); otherwise deltaH and the two sums are those of the exact weighted sums after coercion of truthy non-number fields, rounded, NaN when a field coerces to NaN, and the type follows the unrounded deltaH |
| EnthalpyCalculations.DeltaHFromFormation | setup-project/src/utils/EnthalpyCalculations.js:109-135 | throws the "not arrays" error iff an argument is not an array, and otherwise only "incomplete data" |
| EnthalpyCalculations.DeltaHFromBonds | setup-project/src/utils/EnthalpyCalculations.js:144-170 | throws the bond "not arrays" error iff an argument is not an array, and otherwise only "incomplete bond data" |
| EnthalpyCalculations.ReportNear | setup-project/src/utils/EnthalpyCalculations.js:124-134 | when both sums are numbers, deltaH is a number within 0.005 of products minus reactants, and the type is exothermic iff that difference is negative |
| EnthalpyCalculations.ReportNaN | setup-project/src/utils/EnthalpyCalculations.js:124-134 | when either sum is NaN, deltaH is NaN, so is that sum in the breakdown, and the type is endothermic |
| EnthalpyCalculations.ReportSwap | setup-project/src/utils/EnthalpyCalculations.js:124-134 | swapping the two sums swaps them in the breakdown and, when they are different numbers, flips the type |
| EnthalpyCalculations.EnthalpyChangeReverse | setup-project/src/utils/EnthalpyCalculations.js:109-135 | running a reaction backwards negates its deltaH (NaN staying NaN) |
| EnthalpyCalculations.EnthalpyChangeReverseParts | setup-project/src/utils/EnthalpyCalculations.js:124-134 | running it backwards swaps the two sums and, for a change that is a non-zero number, the type |
| EnthalpyCalculations.ItemsTotalAppend | setup-project/src/utils/EnthalpyCalculations.js:114-117 | the weighted sum of a concatenation of entries is the sum of the weighted sums, NaN if either is |
| EnthalpyCalculations.MethaneCombustionFromFormation | setup-project/src/utils/EnthalpyCalculations.js:109-135 | CO2 + 2 H2O(l) from CH4 gives -890.3 kJ, exothermic, with sums -965.1 and -74.8 |
| EnthalpyCalculations.MethaneCombustionWithStringCoefficient | setup-project/src/utils/EnthalpyCalculations.js:115-116 | a coefficient given as the string "2" is truthy and multiplies as 2, giving the same -890.3 kJ |
| EnthalpyCalculations.FormationNaNField | setup-project/src/utils/EnthalpyCalculations.js:120-121 | a truthy field that coerces to NaN (an object, a non-numeric string) is accepted and makes deltaH NaN and the type endothermic |
| EnthalpyCalculations.MethaneCombustionFromBonds | setup-project/src/utils/EnthalpyCalculations.js:144-170 | methane combustion from bond energies gives 2642 - 3450 = -808 kJ |
| EnthalpyCalculations.FormationRejectsZeroEnthalpy | setup-project/src/utils/EnthalpyCalculations.js:120 | an element with formation enthalpy 0 makes the calculation throw "incomplete data" |
| EnthalpyCalculations.DeltaHFromFormationCorrected | setup-project/src/utils/EnthalpyCalculations.js:109-135 | with the corrected guard (both fields numbers), a non-array still throws, and a success has deltaH and both sums as numbers, never NaN |
| EnthalpyCalculations.NumericTotal | setup-project/src/utils/EnthalpyCalculations.js:114-117 | entries whose fields are all numbers have a weighted sum that is a number |
| EnthalpyCalculations.FormationCorrectedIgnoresZeroEnthalpy | setup-project/src/utils/EnthalpyCalculations.js:119-122 | with the corrected guard, an element of zero formation enthalpy contributes nothing |
| EnthalpyCalculations.MethaneCombustionWithOxygen | setup-project/src/utils/EnthalpyCalculations.js:119-122 | CH4 + 2 O2 is rejected as written and gives -890.3 kJ with the corrected guard |
| EnthalpyCalculations.HessLawSolver | setup-project/src/utils/EnthalpyCalculations.js:179-192 | a non-array throws; some field not of type number throws; a NaN field gives NaN; otherwise the result is within 0.005 of Σ deltaH × coefficient |
| EnthalpyCalculations.HessEmpty | setup-project/src/utils/EnthalpyCalculations.js:184-191 | an empty list of equations solves to 0 |
| EnthalpyCalculations.HessSumAppend | setup-project/src/utils/EnthalpyCalculations.js:184-189 | the sum of two legs of a route adds their enthalpy changes |
| EnthalpyCalculations.HessSumReversed | setup-project/src/utils/EnthalpyCalculations.js:184-189 | negating every coefficient negates the sum |
| EnthalpyCalculations.HessCarbonDioxide | setup-project/src/utils/EnthalpyCalculations.js:179-192 | C to CO2 by way of CO: -110.5 + -283.0 = -393.5 kJ |
| EnthalpyCalculations.HessNaNAndMissing | setup-project/src/utils/EnthalpyCalculations.js:185-187 | a NaN deltaH passes the type test and gives NaN; a missing field throws |
| EnthalpyCalculations.SplitOnArrows | setup-project/src/utils/EnthalpyCalculations.js:212 | split always gives at least one piece |
| EnthalpyCalculations.HasArrowIff | setup-project/src/utils/EnthalpyCalculations.js:207 | the two includes tests hold together iff some position starts an arrow |
| EnthalpyCalculations.SplitArrowFree | setup-project/src/utils/EnthalpyCalculations.js:212 | text without an arrow splits into itself |
| EnthalpyCalculations.SplitAtArrow | setup-project/src/utils/EnthalpyCalculations.js:212 | two arrow-free pieces joined by one arrow split back into those pieces |
| EnthalpyCalculations.SplitOne | setup-project/src/utils/EnthalpyCalculations.js:212 | a single piece means the text had no arrow |
| EnthalpyCalculations.SplitTwo | setup-project/src/utils/EnthalpyCalculations.js:212-213 | two pieces means the text is exactly one arrow between those two pieces |
| EnthalpyCalculations.SplitTwoArrows | setup-project/src/utils/EnthalpyCalculations.js:212 | two arrows give three pieces |
| EnthalpyCalculations.ValidateEquation | setup-project/src/utils/EnthalpyCalculations.js:201-228 | the verdict is the blank one iff the argument is not a string or is all whitespace; an accepted equation has two non-empty, already trimmed sides |
| EnthalpyCalculations.ValidEquationShape | setup-project/src/utils/EnthalpyCalculations.js:201-229 | an accepted equation is one arrow between two arrow-free sides, and the parsed sides are those sides trimmed and non-empty |
| EnthalpyCalculations.ValidEquationOfShape | setup-project/src/utils/EnthalpyCalculations.js:201-229 | two arrow-free, non-blank sides joined by one arrow are accepted |
| EnthalpyCalculations.ValidateTwoSides | setup-project/src/utils/EnthalpyCalculations.js:217-228 | non-blank text with an arrow that splits into two non-blank sides is accepted with those sides trimmed |
| EnthalpyCalculations.EmptySideOfShape | setup-project/src/utils/EnthalpyCalculations.js:217-221 | one arrow between two arrow-free sides, one of them blank, is reported as an empty side |
| EnthalpyCalculations.EmptyProductSide | setup-project/src/utils/EnthalpyCalculations.js:217-221 | "CH4 ->" is reported as an empty side |
| EnthalpyCalculations.ArrowedText | setup-project/src/utils/EnthalpyCalculations.js:202-210 | text containing an arrow is neither blank nor missing its arrow |
| EnthalpyCalculations.MissingArrowIff | setup-project/src/utils/EnthalpyCalculations.js:207-210 | non-blank text is reported as missing its arrow iff it has none |
| EnthalpyCalculations.TwoArrowsRejected | setup-project/src/utils/EnthalpyCalculations.js:212-215 | text with two arrows is a format error |
| EnthalpyCalculations.WrongPartCount | setup-project/src/utils/EnthalpyCalculations.js:213-215 | non-blank text with an arrow that does not split into two pieces is a format error |
| EnthalpyCalculations.ValidateMethaneCombustion | setup-project/src/utils/EnthalpyCalculations.js:196-229 | "CH4 + 2O2 -> CO2 + 2H2O" is valid, with sides "CH4 + 2O2" and "CO2 + 2H2O" |
| EnthalpyCalculations.ValidateRejections | setup-project/src/utils/EnthalpyCalculations.js:202-221 | a non-string and blank text get the same "invalid equation" verdict, and text without an arrow the "missing arrow" one |
| EnthalpyCalculations.NumberPrefixLength | setup-project/src/utils/EnthalpyCalculations.js:243 | /^[\d.]+/ matches the longest prefix of digits and dots |
| EnthalpyCalculations.ParseCompound | setup-project/src/utils/EnthalpyCalculations.js:235-245 | succeeds iff the trimmed token matches the compound pattern, else throws naming the argument; the coefficient comes from the trimmed token, and the formula is the untrimmed argument without its leading digits and dots |
| EnthalpyCalculations.CompoundPatternSplit | setup-project/src/utils/EnthalpyCalculations.js:236 | the pattern matches iff splitting after the longest run of digits and dots gives an optional coefficient and a formula |
| EnthalpyCalculations.CoefficientChars | setup-project/src/utils/EnthalpyCalculations.js:236 | every character of a coefficient is a digit or a dot |
| EnthalpyCalculations.ParseCountedFormula | setup-project/src/utils/EnthalpyCalculations.js:235-245 | digits followed by a formula parse back into that count and that formula |
| EnthalpyCalculations.ParseBareFormula | setup-project/src/utils/EnthalpyCalculations.js:242 | a formula without a coefficient has coefficient 1 |
| EnthalpyCalculations.ParseCompoundWater | setup-project/src/utils/EnthalpyCalculations.js:230-234 | "2H2O" gives 2 and "H2O"; "H2O" gives 1 and "H2O" |
| EnthalpyCalculations.ParseCompoundHalfOxygen | setup-project/src/utils/EnthalpyCalculations.js:235-245 | "0.5O2" gives 0.5 and "O2" |
| EnthalpyCalculations.ParseCompoundRejections | setup-project/src/utils/EnthalpyCalculations.js:236-239 | a state suffix "H2O(l)" and lower-case "2h2o" are rejected |
| EnthalpyCalculations.ParseCompoundKeepsPadding | setup-project/src/utils/EnthalpyCalculations.js:236-243 | " 2H2O" parses with coefficient 2 but keeps " 2H2O" as its formula |
| EnthalpyCalculations.ParsePadded | setup-project/src/utils/EnthalpyCalculations.js:236-243 | a space-padded token parses to the coefficient of its trimmed form but keeps the padding in its formula |
| EnthalpyCalculations.ParseCompoundCorrected | setup-project/src/utils/EnthalpyCalculations.js:235-245 | with the formula taken from the trimmed token, success means the formula matches the formula pattern and the coefficient is that of the token |
| EnthalpyCalculations.ParseCompoundCorrectedTrimInvariant | setup-project/src/utils/EnthalpyCalculations.js:236 | the corrected parse depends only on the trimmed token |
| EnthalpyCalculations.ParseCompoundCorrectedAgrees | setup-project/src/utils/EnthalpyCalculations.js:235-245 | on a token without surrounding whitespace the corrected parse equals the source's |
| EnthalpyCalculations.CalculateMol | setup-project/src/utils/EnthalpyCalculations.js:255-260 | throws iff an argument is not of type number or Mr is 0; NaN propagates; otherwise within 0.00005 of mass / Mr |
| EnthalpyCalculations.CalculateMass | setup-project/src/utils/EnthalpyCalculations.js:268-273 | throws iff an argument is not of type number; NaN propagates; otherwise within 0.005 of mol × Mr |
| EnthalpyCalculations.MassMolRoundTrip | setup-project/src/utils/EnthalpyCalculations.js:255-273 | mass to moles and back is off by at most \|Mr\| / 20000 + 0.005 |
| EnthalpyCalculations.ZeroMolarMass | setup-project/src/utils/EnthalpyCalculations.js:256-271 | a zero Mr is refused by calculateMol but not by calculateMass |
| ThermochemistryData.FindIndex | setup-project/src/utils/ThermochemistryData.js:239 | find stops at the first entry satisfying the predicate, and finds nothing iff no entry does |
| ThermochemistryData.FindFormationIn | setup-project/src/utils/ThermochemistryData.js:238-240 | returns the first record with exactly that formula, or null iff there is none |
| ThermochemistryData.FindEnthalpyFormation | setup-project/src/utils/ThermochemistryData.js:238-240 | null iff no record of the formation table has that formula; otherwise a record of the table with that formula |
| ThermochemistryData.FindBondIn | setup-project/src/utils/ThermochemistryData.js:247-250 | returns the energy of the first entry with exactly that bond, or null iff there is none |
| ThermochemistryData.FindBondEnergy | setup-project/src/utils/ThermochemistryData.js:247-250 | null iff no entry of the bond table has that key; otherwise the energy of an entry with that key |
| ThermochemistryData.FindSpecificHeatIn | setup-project/src/utils/ThermochemistryData.js:257-262 | returns c of the first entry whose lower-cased name contains the lower-cased query, or null iff there is none |
| ThermochemistryData.FindSpecificHeat | setup-project/src/utils/ThermochemistryData.js:257-262 | null iff no name of the specific-heat table contains the query, ignoring case; otherwise c of an entry whose name does |
| ThermochemistryData.SpecificHeatIgnoresCase | setup-project/src/utils/ThermochemistryData.js:259 | queries that agree after lower-casing find the same entry |
| ThermochemistryData.SpecificHeatLowerQuery | setup-project/src/utils/ThermochemistryData.js:257-262 | a query and its lower-cased form give the same result |
| ThermochemistryData.FormationFirstAt | setup-project/src/utils/ThermochemistryData.js:239 | the lookup returns the record at the first matching position |
| ThermochemistryData.BondFirstAt | setup-project/src/utils/ThermochemistryData.js:248-249 | the lookup returns the energy at the first matching position |
| ThermochemistryData.SpecificHeatFirstAt | setup-project/src/utils/ThermochemistryData.js:258-261 | the lookup returns c at the first matching position |
| ThermochemistryData.FormationMethane | setup-project/src/utils/ThermochemistryData.js:27 | CH4(g) is found, with ΔHf = -74.8 |
| ThermochemistryData.FormationPhaseSuffix | setup-project/src/utils/ThermochemistryData.js:12-53 | every formula in the formation table ends with its phase in parentheses |
| ThermochemistryData.FormationNeedsPhase | setup-project/src/utils/ThermochemistryData.js:238-240 | a formula that does not end in ")" matches no record |
| ThermochemistryData.FormationWaterWithoutPhase | setup-project/src/utils/ThermochemistryData.js:238-240 | "H2O" without its phase is not found |
| ThermochemistryData.BondCarbonylExample | setup-project/src/utils/ThermochemistryData.js:56-78 | C=O is listed twice, and the first entry (799) wins |
| ThermochemistryData.SpecificHeatAirExample | setup-project/src/utils/ThermochemistryData.js:80-97 | "air" finds "Air (H2O)" (4.18), although "Uap air (H2O)" also matches |
| ThermochemistryData.SpecificHeatEmptyQuery | setup-project/src/utils/ThermochemistryData.js:257-262 | the empty query matches every name and so returns the first entry |
| AssessmentModule.TopicIndex | setup-project/src/components/AssessmentModule.jsx:23-31 | every topic has a position in TOPICS |
| AssessmentModule.LabelsDistinct | setup-project/src/components/AssessmentModule.jsx:23-31 | no two topics share a label, so tallies keyed by label keep topics apart |
| AssessmentModule.TopicsOnce | setup-project/src/components/AssessmentModule.jsx:261 | each topic occurs once among the keys mapped over |
| AssessmentModule.QuestionIdsDistinct | setup-project/src/components/AssessmentModule.jsx:33-121 | the question ids under which answers are stored are distinct |
| AssessmentModule.IsCorrect | setup-project/src/components/AssessmentModule.jsx:228-239 | a correct item was answered; on a numeric item the answer parses to a number within the tolerance of the key; on any other item it is strictly equal to the key |
| AssessmentModule.UnansweredIsWrong | setup-project/src/components/AssessmentModule.jsx:228-239 | an unanswered item is wrong, whatever its type |
| AssessmentModule.NumericInterval | setup-project/src/components/AssessmentModule.jsx:232-236 | a numeric item accepts exactly the closed interval of its tolerance around its key |
| AssessmentModule.NumericNaNIsWrong | setup-project/src/components/AssessmentModule.jsx:233-234 | an answer that parses to NaN is wrong on a numeric item |
| AssessmentModule.ExactKeyIff | setup-project/src/components/AssessmentModule.jsx:237-239 | a multiple-choice, true/false or diagram item accepts exactly its own key |
| AssessmentModule.ToleranceBoundary | setup-project/src/components/AssessmentModule.jsx:96-103 | item 16 accepts 667 and 677 and rejects 666.9 and 677.1 |
| AssessmentModule.StrictEqualityExamples | setup-project/src/components/AssessmentModule.jsx:238 | answering the number 1 to a true/false item whose key is true is wrong: strict equality |
| AssessmentModule.CorrectCount | setup-project/src/components/AssessmentModule.jsx:241 | the number of correct items is between 0 and the number of items |
| AssessmentModule.TopicScore | setup-project/src/components/AssessmentModule.jsx:249 | a topic's score never exceeds its count of items |
| AssessmentModule.CountsAddUp | setup-project/src/components/AssessmentModule.jsx:243-248 | every item is counted under exactly one topic: the counts add up to the number of items |
| AssessmentModule.ScoresAddUp | setup-project/src/components/AssessmentModule.jsx:249 | the topic scores add up to the number of correct items |
| AssessmentModule.Tally | setup-project/src/components/AssessmentModule.jsx:223-250 | the forEach loop (with the topic entry created when the topic is first met) yields the correct count, an entry for exactly the topics met, and each topic's count and score |
| AssessmentModule.Visit | setup-project/src/components/AssessmentModule.jsx:227-250 | one pass of the loop extends the tallies of the items seen by one item |
| AssessmentModule.TalliesAsWrittenDropWrongItems | setup-project/src/components/AssessmentModule.jsx:244-247 | as written, the tally restarts a topic whose score is still 0: item 2 wrong and item 21 right count one reaction-type item instead of two |
| AssessmentModule.ScoreOf | setup-project/src/components/AssessmentModule.jsx:252 | the score is within 0.5 of the percentage of correct items and between 0 and 100; an empty bank gives NaN |
| AssessmentModule.BadgeFor | setup-project/src/components/AssessmentModule.jsx:255-258 | a NaN score earns the participant badge; a score earns Grand Master from 90, Enthalpy Expert from 75 to 89, Heat Practitioner from 50 to 74, and the participant badge below 50 |
| AssessmentModule.BadgeBands | setup-project/src/components/AssessmentModule.jsx:255-258 | each badge covers exactly its band: 90 and up, 75 to 89, 50 to 74, below 50 |
| AssessmentModule.BadgeMonotone | setup-project/src/components/AssessmentModule.jsx:255-258 | a higher score never earns a lower badge |
| AssessmentModule.PercentBound | setup-project/src/components/AssessmentModule.jsx:266 | a rounded share of at most the total is a percentage |
| AssessmentModule.RadarFrom | setup-project/src/components/AssessmentModule.jsx:261-270 | the radar keeps the shown topics in TOPICS order, each with its entry |
| AssessmentModule.RadarComplete | setup-project/src/components/AssessmentModule.jsx:261-270 | every shown topic has its entry in the radar |
| AssessmentModule.RadarBounded | setup-project/src/components/AssessmentModule.jsx:263-266 | when no score exceeds its count, every radar value is between 0 and 100 |
| AssessmentModule.TallyScoresWithinCounts | setup-project/src/components/AssessmentModule.jsx:243-250 | the loop's tallies never score a topic above its count |
| AssessmentModule.RadarShownIff | setup-project/src/components/AssessmentModule.jsx:270 | a topic has a radar entry iff its count is positive |
| AssessmentModule.RadarOfTally | setup-project/src/components/AssessmentModule.jsx:261-270 | on the loop's tallies, a topic is on the radar iff some item is on it, and its value is the rounded percentage of its items answered correctly |
| AssessmentModule.Grade | setup-project/src/components/AssessmentModule.jsx:220-273 | the report holds the score, the correct count, the total, the badge of the score, the radar of the tallies and the tallies themselves; the tallies and the radar are those of the corrected topic guard (first row of Findings), not of the reset as written |
| AssessmentModule.Step | setup-project/src/components/AssessmentModule.jsx:171-218 | every event keeps the question index and the timer in range |
| AssessmentModule.RunValid | setup-project/src/components/AssessmentModule.jsx:171-218 | any sequence of events keeps the index and the timer in range |
| AssessmentModule.SubmitIdempotent | setup-project/src/components/AssessmentModule.jsx:213-218 | submitting twice is submitting once |
| AssessmentModule.ToggleTwice | setup-project/src/components/AssessmentModule.jsx:205-211 | toggling the flag twice restores the flags |
| AssessmentModule.ToggleOnlyCurrent | setup-project/src/components/AssessmentModule.jsx:205-211 | toggling changes the current item's flag and no other |
| AssessmentModule.AnswerOnlyCurrent | setup-project/src/components/AssessmentModule.jsx:201-203 | answering records the current item's answer and leaves every other answer, and so its grade, unchanged |
| AssessmentModule.StepFrozen | setup-project/src/components/AssessmentModule.jsx:516-584 | once submitted, no event changes the answers or flags or reopens the sheet |
| AssessmentModule.RunFrozen | setup-project/src/components/AssessmentModule.jsx:516-584 | the same holds for any sequence of events |
| AssessmentModule.Ticks | setup-project/src/components/AssessmentModule.jsx:174-176 | k ticks of the interval |
| AssessmentModule.CountDown | setup-project/src/components/AssessmentModule.jsx:171-181 | a running clock counts down one second per tick and submits on reaching 0 |
| AssessmentModule.ExamExpires | setup-project/src/components/AssessmentModule.jsx:162-181 | after a start the sheet stays open for 1799 ticks and is submitted at the 1800th |
| AssessmentModule.StartResets | setup-project/src/components/AssessmentModule.jsx:191-199 | starting resets the answers, the flags, the index and the 30-minute timer |
| AssessmentModule.Session.constructor | setup-project/src/components/AssessmentModule.jsx:157-165 | the page mounts at item 0, with no answers or flags, practice mode, and 1800 s on a stopped timer |
| AssessmentModule.Session.HandleSubmit | setup-project/src/components/AssessmentModule.jsx:213-218 | stops the timer, submits, closes the dialog and goes to item 0 |
| AssessmentModule.Session.HandleStart | setup-project/src/components/AssessmentModule.jsx:191-199 | from the start overlay, the state becomes the start transition |
| AssessmentModule.Session.Tick | setup-project/src/components/AssessmentModule.jsx:171-181 | the state becomes the tick transition |
| AssessmentModule.Session.HandleAnswer | setup-project/src/components/AssessmentModule.jsx:201-203 | the state becomes the answer transition |
| AssessmentModule.Session.ToggleFlag | setup-project/src/components/AssessmentModule.jsx:205-211 | the state becomes the flag transition |
| AssessmentModule.Session.OpenConfirm | setup-project/src/components/AssessmentModule.jsx:383-385 | the state becomes the open-dialog transition |
| AssessmentModule.Session.CancelConfirm | setup-project/src/components/AssessmentModule.jsx:653 | the state becomes the close-dialog transition |
| AssessmentModule.Session.ConfirmSubmit | setup-project/src/components/AssessmentModule.jsx:654 | the state becomes the confirm transition |
| AssessmentModule.Session.Prev | setup-project/src/components/AssessmentModule.jsx:617-620 | the state becomes the previous-item transition |
| AssessmentModule.Session.Next | setup-project/src/components/AssessmentModule.jsx:625-629 | the state becomes the next-item transition |
| AssessmentModule.Session.GoTo | setup-project/src/components/AssessmentModule.jsx:363 | the state becomes the jump-to-item transition |
| AssessmentModule.Session.Results | setup-project/src/components/AssessmentModule.jsx:220-221 | there are no results before submission; after it, the report Grade gives for the whole bank: score, correct count, total, badge, the per-topic tallies with their keys, and the radar with values in [0, 100], all over the corrected topic guard (first row of Findings) |
| HessLaw.ExampleShape | stoich/src/components/HessLaw.jsx:12-46 | each example lists two unflipped steps of coefficient 1 with ids 1 and 2 |
| HessLaw.FlipOnlyMatching | stoich/src/components/HessLaw.jsx:51-55 | flipping negates dH and toggles flipped on the matching steps only, keeping coef, id and equation |
| HessLaw.MultiplyOnlyMatching | stoich/src/components/HessLaw.jsx:57-61 | scaling multiplies dH and coef by the factor on the matching steps only |
| HessLaw.FlipTwice | stoich/src/components/HessLaw.jsx:51-55 | flipping twice is the identity |
| HessLaw.DoubleThenHalve | stoich/src/components/HessLaw.jsx:57-61 | ×2 followed by ×½ restores the list |
| HessLaw.FlipMultiplyCommute | stoich/src/components/HessLaw.jsx:51-61 | flipping and scaling commute |
| HessLaw.ExampleDerived | stoich/src/components/HessLaw.jsx:48-49 | an example's own list derives from itself |
| HessLaw.FlipKeepsDerived | stoich/src/components/HessLaw.jsx:51-55 | flipping keeps dH = ±coef × dH0 |
| HessLaw.MultiplyKeepsDerived | stoich/src/components/HessLaw.jsx:57-61 | scaling keeps dH = ±coef × dH0 |
| HessLaw.Total | stoich/src/components/HessLaw.jsx:63-65 | the displayed total is within 0.05 of Σ dH |
| HessLaw.Verdict | stoich/src/components/HessLaw.jsx:67-75 | the answer is accepted iff the total is within the open half-kilojoule interval around the target, and the feedback then carries the total |
| HessLaw.VerdictStrict | stoich/src/components/HessLaw.jsx:67-75 | the check accepts exactly the open interval of 0.5 around the target: -393.0 is not yet right, -393.1 is |
| HessLaw.TotalIsHessSum | stoich/src/components/HessLaw.jsx:63-65 | on a derived list, Σ dH is the sum hessLawSolver evaluates |
| HessLaw.GuidedTotal | stoich/src/components/HessLaw.jsx:13-23 | the guided example adds up to -393.5 as given and is accepted |
| HessLaw.PracticeNeedsFlip | stoich/src/components/HessLaw.jsx:24-34 | the practice example starts at +172.5 and is accepted once step 2 is flipped |
| HessLaw.ChallengeHalfStill | stoich/src/components/HessLaw.jsx:35-45 | halving step 1 of the challenge, as its explanation suggests, gives -331.9, which the check rejects |
| HessLaw.Workspace.constructor | stoich/src/components/HessLaw.jsx:5-49 | the workspace mounts in guided mode with that example's steps and no feedback |
| HessLaw.Workspace.FlipReaction | stoich/src/components/HessLaw.jsx:51-55 | the steps become the flipped list; nothing else changes; every step stays derived from the example |
| HessLaw.Workspace.MultiplyReaction | stoich/src/components/HessLaw.jsx:57-61 | the steps become the scaled list; nothing else changes; every step stays derived from the example |
| HessLaw.Workspace.CheckAnswer | stoich/src/components/HessLaw.jsx:67-75 | the feedback becomes the verdict of the total against the target; nothing else changes |
| HessLaw.Workspace.ResetSimulation | stoich/src/components/HessLaw.jsx:77-83 | the steps return to the example's; feedback, hint and explanation are cleared |
| HessLaw.Workspace.ChangeMode | stoich/src/components/HessLaw.jsx:85-92 | mode, example and steps become the new mode's; feedback, hint and explanation are cleared |
| VirtualLab.NatureMatchesSigns | setup-project/src/components/VirtualLab.jsx:20-57 | an experiment is exothermic iff it warms the calorimeter iff its ΔH is negative |
| VirtualLab.Fraction | setup-project/src/components/VirtualLab.jsx:67-68 | the ramp fraction is in [0, 1] and is 1 from 30 s on |
| VirtualLab.Ramp | setup-project/src/components/VirtualLab.jsx:68 | the ramp starts at the initial temperature and is the end value from 30 s on |
| VirtualLab.RampStart | setup-project/src/components/VirtualLab.jsx:68 | the ramp starts at the initial temperature |
| VirtualLab.RampBetween | setup-project/src/components/VirtualLab.jsx:68 | the temperature stays between the initial and the end value, whatever the sign of ΔT |
| VirtualLab.RampSettled | setup-project/src/components/VirtualLab.jsx:68 | from 30 s on the temperature is the end value |
| VirtualLab.RampMonotone | setup-project/src/components/VirtualLab.jsx:68 | a warming run never cools and a cooling run never warms |
| VirtualLab.Series | setup-project/src/components/VirtualLab.jsx:70 | after n ticks the series has n + 1 points |
| VirtualLab.SeriesSnoc | setup-project/src/components/VirtualLab.jsx:70 | one more tick appends exactly one point and keeps the earlier ones |
| VirtualLab.FullRun | setup-project/src/components/VirtualLab.jsx:63-82 | a full run records 601 points, from the initial temperature to the end value |
| VirtualLab.TrialHeat | setup-project/src/components/VirtualLab.jsx:125 | the heat of a trial is non-negative for non-negative masses and zero when the temperature did not change |
| VirtualLab.TrialHeatNonNegative | setup-project/src/components/VirtualLab.jsx:125 | the heat of a trial is never negative for non-negative masses |
| VirtualLab.TrialHeatIsCalculateHeat | setup-project/src/components/VirtualLab.jsx:125-134 | the stored heat is the joule value calculateHeat reports for the total mass, 4.18 and \|ΔT\| |
| VirtualLab.Lab.constructor | setup-project/src/components/VirtualLab.jsx:5-18 | the bench mounts idle on neutralization at 25 °C, with 50 g and 50 g and nothing selected or recorded |
| VirtualLab.Lab.Tick | setup-project/src/components/VirtualLab.jsx:61-85 | while running and before 60 s, advances the clock, sets and records the ramp temperature and stops at 60 s; otherwise nothing changes |
| VirtualLab.Lab.Start | setup-project/src/components/VirtualLab.jsx:100-111 | with both chemicals in, starts a new run at the initial temperature with a one-point series; otherwise nothing changes |
| VirtualLab.Lab.Reset | setup-project/src/components/VirtualLab.jsx:113-122 | clears the run and the selections, keeping the trials, masses and initial temperature |
| VirtualLab.Lab.SelectExperiment | setup-project/src/components/VirtualLab.jsx:208-214 | switches the experiment and resets the bench |
| VirtualLab.Lab.SaveTrial | setup-project/src/components/VirtualLab.jsx:124-138 | once the clock has moved, appends one trial with the experiment, masses, temperatures, ΔT and the heat to two decimals; the rest is unchanged |
| VirtualLab.Lab.SelectChemical | setup-project/src/components/VirtualLab.jsx:300-320 | clicking a card adds that chemical and changes nothing else |
| VirtualLab.Lab.SetMass1 | setup-project/src/components/VirtualLab.jsx:385-386 | sets the first mass unless the bench is running |
| VirtualLab.Lab.SetMass2 | setup-project/src/components/VirtualLab.jsx:395-396 | sets the second mass unless the bench is running |
| VirtualLab.Lab.SetInitialTemp | setup-project/src/components/VirtualLab.jsx:405-406 | sets the initial temperature unless the bench is running |
| VirtualLab.TemperatureWithinRun | setup-project/src/components/VirtualLab.jsx:63-85 | once a run is recorded, the displayed temperature lies between that run's initial temperature and its end value |
| VirtualLab.EndOfRun | setup-project/src/components/VirtualLab.jsx:76-79 | at 60 s the bench has stopped, shows the end temperature, and holds all 601 points |

## Left out

- Floating point: numbers are exact reals. So 0.239 × 4.184 is exactly 0.999976, and the lab clock advances by exact tenths (an integer count of tenths of a second) instead of accumulating `t + 0.1` binary-float error. Infinite inputs are not modelled; infinities arise only from a division by zero.
- `formatResult` (EnthalpyCalculations.js:282-285) is string formatting for display.
- The unused constants `R_J`, `R_L_ATM`, `R_CAL` and `AVOGADRO` are declared but not used by any modelled operation.
- The tables `COMBUSTION_ENTHALPIES`, `EXAMPLE_REACTIONS`, `LATENT_HEATS` and `REFERENCES` of ThermochemistryData.js have no lookup.
- The description and note fields of the other tables are text only.
- EnthalpyCalculations.HessLawSolver, CalculateMol, CalculateMass: each states the result as within half a unit of its last decimal of the exact value, rather than naming the exact rounded value in its contract (the function body is that value).
- `toLowerCase` is modelled on ASCII letters only. The table names and queries use ASCII; other case mappings are not modelled.
- The `parseFloat` grammar of the lab's number inputs and the quiz's numeric answers is not modelled. Inputs are already-parsed reals, and an answer that does not parse is `None`.
- Time, timers and randomness: `setInterval` and `setTimeout` become explicit `Tick` events. `Date.now` and `toLocaleTimeString` (the trial id and time fields) are left out. `Math.random` and the bubble animation are left out.
- Rendering is not modelled: dark mode, colours (`finalColor`, chemical colours), icons, `alert`, `window.print`, the export-report download (`exportReport`) and `formatTime`.
- The chemical objects set on selection are modelled as booleans, since only their presence is tested.
- Assessment: the question texts, options, difficulty and explanations are not modelled, and neither is the instant-feedback display. The question bank keeps only the items' ids, topics and keys.
- Assessment: the `currentQIndex === -1` check is unreachable, and the model keeps the index in range instead.
- HessLaw: the hint and explanation toggle buttons, the `userAnswer` field and the feedback strings are left out. The feedback is `Correct(total)` or `NotYet`.
- TheoryModule.jsx, LandingPage.jsx and EnthalpySimulation.jsx are not part of this model.

## Findings

| source | as written | input that shows it | evidently intended | confidence | as-written member | corrected member |
|---|---|---|---|---|---|---|
| setup-project/src/components/AssessmentModule.jsx:244-247 | `if (!topicScores[q.topic])` resets a topic's entries whenever its score is still 0, erasing the items already counted | item 2 (reaction types) answered wrong, then item 21 (reaction types) answered right: topicCounts gives 1 instead of 2, and the radar shows 100 % instead of 50 % | create the entries only when the topic is first met (`!(q.topic in topicCounts)`) | high, not executed | AssessmentModule.TalliesAsWrittenDropWrongItems | AssessmentModule.Tally |
| setup-project/src/utils/EnthalpyCalculations.js:115,120 | `!p.Hf` treats a formation enthalpy of 0 as missing data | CH4 + 2 O2 -> CO2 + 2 H2O(l) with ΔHf(O2) = 0 throws "Data tidak lengkap" | accept every numeric Hf, so that elements in their standard state contribute 0 | high, not executed | EnthalpyCalculations.FormationRejectsZeroEnthalpy | EnthalpyCalculations.FormationCorrectedIgnoresZeroEnthalpy |
| setup-project/src/utils/EnthalpyCalculations.js:236,243 | the pattern is tested on the trimmed token, but the formula is cut from the untrimmed argument | " 2H2O" gives coefficient 2 and formula " 2H2O" | take the formula from the trimmed token: "H2O" | medium, not executed | EnthalpyCalculations.ParseCompoundKeepsPadding | EnthalpyCalculations.ParseCompoundCorrected |
