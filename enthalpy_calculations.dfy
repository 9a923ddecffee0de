/** The thermochemical calculation library (setup-project/src/utils/EnthalpyCalculations.js):
    unit conversion, heat, calorimetric mixing, reaction enthalpy from formation and bond
    energies, a linear Hess's-law sum, equation validation and compound parsing. Every function
    either returns a value or throws; a throw is a `Failure`. Numbers are reals. */
module EnthalpyCalculations {
  import opened Wrappers
  import opened Numerics
  import opened JsStrings

  // ---------- Constants ----------

  const R_J: real := 8.314          // J/(mol K)
  const R_L_ATM: real := 0.0821     // L atm/(mol K)
  const R_CAL: real := 1.987        // cal/(mol K)
  const AVOGADRO: real := 602200000000000000000000.0
  const KJ_TO_KCAL: real := 0.239
  const KCAL_TO_KJ: real := 4.184
  const J_TO_CAL: real := 0.239
  const CAL_TO_J: real := 4.184

  // ---------- JavaScript argument values ----------

  /** An argument as the library receives it: a finite number, NaN, or a value that is not of
      type number at all (undefined, null, a boolean, a string, an object), with its truthiness
      and the number that arithmetic coerces it to (None for NaN): the string "2" is truthy and
      coerces to 2, true to 1, an object to NaN, null is falsy and coerces to 0, undefined to NaN. */
  datatype JsValue = Num(value: real) | NaN | NonNumber(truthy: bool, coerced: Option<real>)

  /** A number result: finite, NaN, or an infinity (from a division by zero). */
  datatype JsNumber = Finite(value: real) | NotANumber | Infinite(negative: bool)

  /** JavaScript truthiness of a line-item field: 0 and NaN are falsy, a value of another type
      is as truthy as it is (undefined, null, false and "" are not). */
  predicate Truthy(v: JsValue)
  {
    (v.Num? && v.value != 0.0) || (v.NonNumber? && v.truthy)
  }

  /** An argument that may or may not be an array (`Array.isArray`). */
  datatype ArrayArg<T> = Array(elements: seq<T>) | NotArray

  /** The exceptions thrown, one per distinct message of the source. */
  datatype Error =
    | InvalidNumber                                  // an input is not a valid number
    | UnsupportedConversion(from: string, to: string)
    | FormationListsNotArrays                        // products or reactants is not an array
    | BondListsNotArrays                             // a bond list is not an array
    | EquationsNotArray                              // the Hess equations are not an array
    | IncompleteData                                 // a formation line item lacks a field
    | IncompleteBondData                             // a bond line item lacks a field
    | InvalidEquationFormat                          // a Hess equation field is not a number
    | InvalidCompound(token: string)
    | InvalidInput                                   // calculateMol / calculateMass

  /** `x / y` in JavaScript. */
  function JsDivide(x: real, y: real): (q: JsNumber)
    ensures q.Finite? <==> y != 0.0
    ensures q.Finite? ==> q.value * y == x
    ensures y == 0.0 ==> (q.NotANumber? <==> x == 0.0)
    ensures q.Infinite? ==> (q.negative <==> x < 0.0)
  {
    if y != 0.0 then Finite(x / y)
    else if x == 0.0 then NotANumber
    else Infinite(x < 0.0)
  }

  /** `parseFloat(x.toFixed(d))`: finite values are rounded; "NaN" and "Infinity" parse back
      to themselves. */
  function RoundNumber(x: JsNumber, d: nat): (r: JsNumber)
    ensures r.Finite? <==> x.Finite?
    ensures !x.Finite? ==> r == x
    ensures r.Finite? ==> Abs(r.value - x.value) <= 1.0 / (2.0 * Pow10(d))
  {
    if x.Finite? then
      RoundToNear(x.value, d);
      Finite(RoundTo(x.value, d))
    else x
  }

  // ---------- Energy unit conversion ----------

  type PositiveReal = r: real | r > 0.0 witness 1.0

  /** A conversion of the table: multiply or divide by a constant. */
  datatype Conversion = Times(factor: real) | DividedBy(divisor: PositiveReal)

  /** The table of supported conversions, keyed by `${from}->${to}`. The key contains "->"
      exactly once for each of its eight entries, so it determines both units. */
  function ConversionFor(from: string, to: string): Option<Conversion>
  {
    if from == "kJ" && to == "kcal" then Some(Times(KJ_TO_KCAL))
    else if from == "kcal" && to == "kJ" then Some(Times(KCAL_TO_KJ))
    else if from == "J" && to == "cal" then Some(Times(J_TO_CAL))
    else if from == "cal" && to == "J" then Some(Times(CAL_TO_J))
    else if from == "kJ" && to == "J" then Some(Times(1000.0))
    else if from == "J" && to == "kJ" then Some(DividedBy(1000.0))
    else if from == "kcal" && to == "cal" then Some(Times(1000.0))
    else if from == "cal" && to == "kcal" then Some(DividedBy(1000.0))
    else None
  }

  /** The eight directed unit pairs the table supports. */
  const SupportedPairs: set<(string, string)> :=
    {("kJ", "kcal"), ("kcal", "kJ"), ("J", "cal"), ("cal", "J"),
     ("kJ", "J"), ("J", "kJ"), ("kcal", "cal"), ("cal", "kcal")}

  function Apply(c: Conversion, v: real): real
  {
    match c
    case Times(f) => v * f
    case DividedBy(f) => v / f
  }

  /** `convertEnergy(value, from, to)`. */
  function ConvertEnergy(value: JsValue, from: string, to: string): (r: Result<real, Error>)
    ensures !value.Num? ==> r == Failure(InvalidNumber)
    ensures value.Num? && from == to ==> r == Success(value.value)
    ensures value.Num? && from != to ==>
      (r.Success? <==> (from, to) in SupportedPairs) &&
      (r.Failure? ==> r.error == UnsupportedConversion(from, to))
  {
    if !value.Num? then Failure(InvalidNumber)
    else if from == to then Success(value.value)
    else match ConversionFor(from, to)
      case None => Failure(UnsupportedConversion(from, to))
      case Some(c) => Success(Apply(c, value.value))
  }

  /** The value each of the eight supported conversions gives. */
  lemma ConvertSupportedValues(x: real)
    ensures ConvertEnergy(Num(x), "kJ", "kcal") == Success(x * 0.239)
    ensures ConvertEnergy(Num(x), "kcal", "kJ") == Success(x * 4.184)
    ensures ConvertEnergy(Num(x), "J", "cal") == Success(x * 0.239)
    ensures ConvertEnergy(Num(x), "cal", "J") == Success(x * 4.184)
    ensures ConvertEnergy(Num(x), "kJ", "J") == Success(x * 1000.0)
    ensures ConvertEnergy(Num(x), "J", "kJ") == Success(x / 1000.0)
    ensures ConvertEnergy(Num(x), "kcal", "cal") == Success(x * 1000.0)
    ensures ConvertEnergy(Num(x), "cal", "kcal") == Success(x / 1000.0)
  {
    assert "kcal" != "kJ" by {
      assert |"kcal"| != |"kJ"|;
    }
  }

  /** kJ and J, and kcal and cal, convert back and forth without loss. */
  lemma ConvertScaleRoundTrip(x: real)
    ensures ConvertEnergy(Num(ConvertEnergy(Num(x), "kJ", "J").value), "J", "kJ") == Success(x)
    ensures ConvertEnergy(Num(ConvertEnergy(Num(x), "J", "kJ").value), "kJ", "J") == Success(x)
    ensures ConvertEnergy(Num(ConvertEnergy(Num(x), "kcal", "cal").value), "cal", "kcal") == Success(x)
    ensures ConvertEnergy(Num(ConvertEnergy(Num(x), "cal", "kcal").value), "kcal", "cal") == Success(x)
  {
  }

  /** The thermochemical pairs are not exact inverses: 0.239 * 4.184 = 0.999976, so a round
      trip through kcal or cal scales the value by that product. */
  lemma ConvertCalorieRoundTrip(x: real)
    ensures ConvertEnergy(Num(ConvertEnergy(Num(x), "kJ", "kcal").value), "kcal", "kJ")
            == Success(x * 0.999976)
    ensures ConvertEnergy(Num(ConvertEnergy(Num(x), "J", "cal").value), "cal", "J")
            == Success(x * 0.999976)
  {
  }

  /** Unit pairs outside the table fail, even those a chain of two table entries would give. */
  lemma ConvertUnsupportedExamples()
    ensures ConvertEnergy(Num(1.0), "kJ", "cal") == Failure(UnsupportedConversion("kJ", "cal"))
    ensures ConvertEnergy(Num(1.0), "kcal", "J") == Failure(UnsupportedConversion("kcal", "J"))
    ensures ConvertEnergy(NaN, "J", "J") == Failure(InvalidNumber)
    ensures ConvertEnergy(Num(2.5), "MJ", "MJ") == Success(2.5)
  {
  }

  // ---------- Heat q = m c dT ----------

  /** The four fields of calculateHeat's result, each rounded to two decimals. */
  datatype Heat = Heat(joules: real, kilojoules: real, calories: real, kilocalories: real)

  /** Every field is computed from the unrounded joule value q and rounded on its own. */
  function HeatFromJoules(q: real): Heat
  {
    Heat(RoundTo(q, 2), RoundTo(q / 1000.0, 2), RoundTo(q * J_TO_CAL, 2),
         RoundTo(q * J_TO_CAL / 1000.0, 2))
  }

  /** q = m c dT in joules. */
  function Joules(mass: real, specificHeat: real, tempChange: real): real
  {
    mass * specificHeat * tempChange
  }

  /** `calculateHeat(mass, specificHeat, tempChange)`. */
  function CalculateHeat(mass: JsValue, specificHeat: JsValue, tempChange: JsValue)
    : (r: Result<Heat, Error>)
    ensures r.Failure? <==> !(mass.Num? && specificHeat.Num? && tempChange.Num?)
    ensures r.Failure? ==> r.error == InvalidNumber
    ensures r.Success? ==>
      r.value == HeatFromJoules(Joules(mass.value, specificHeat.value, tempChange.value))
  {
    if !(mass.Num? && specificHeat.Num? && tempChange.Num?) then Failure(InvalidNumber)
    else Success(HeatFromJoules(Joules(mass.value, specificHeat.value, tempChange.value)))
  }

  /** Reversing the sign of the joule value reverses all four reported values. */
  lemma HeatFromJoulesOdd(q: real)
    ensures HeatFromJoules(-q) == Heat(-HeatFromJoules(q).joules, -HeatFromJoules(q).kilojoules,
                                       -HeatFromJoules(q).calories, -HeatFromJoules(q).kilocalories)
  {
    var k, c, kc := q / 1000.0, q * J_TO_CAL, q * J_TO_CAL / 1000.0;
    assert (-q) / 1000.0 == -k;
    assert (-q) * J_TO_CAL == -c;
    assert (-q) * J_TO_CAL / 1000.0 == -kc;
    RoundToOdd(q, 2);
    RoundToOdd(k, 2);
    RoundToOdd(c, 2);
    RoundToOdd(kc, 2);
  }

  /** Reversing the temperature change reverses the sign of all four reported values. */
  lemma HeatSignSymmetry(m: real, c: real, dt: real)
    ensures CalculateHeat(Num(m), Num(c), Num(-dt)).Success?
    ensures var h := CalculateHeat(Num(m), Num(c), Num(dt)).value;
            CalculateHeat(Num(m), Num(c), Num(-dt)).value
              == Heat(-h.joules, -h.kilojoules, -h.calories, -h.kilocalories)
  {
    var q, q' := Joules(m, c, dt), Joules(m, c, -dt);
    assert q' == -q;
    HeatFromJoulesOdd(q);

  }

  /** Each field is within half a hundredth of the exact heat in its own unit. */
  lemma HeatFromJoulesNear(q: real)
    ensures var h := HeatFromJoules(q);
            && Abs(h.joules - q) <= 0.005
            && Abs(h.kilojoules - q / 1000.0) <= 0.005
            && Abs(h.calories - q * J_TO_CAL) <= 0.005
            && Abs(h.kilocalories - q * J_TO_CAL / 1000.0) <= 0.005
  {
    var k, c, kc := q / 1000.0, q * J_TO_CAL, q * J_TO_CAL / 1000.0;
    RoundTo2Near(q);
    RoundTo2Near(k);
    RoundTo2Near(c);
    RoundTo2Near(kc);
  }

  /** Each field of calculateHeat is within half a hundredth of the exact heat, and the kJ and cal
      fields are those of convertEnergy applied to the exact joule value. */
  lemma HeatFieldsNearExact(m: real, c: real, dt: real)
    ensures var q := Joules(m, c, dt);
            var h := CalculateHeat(Num(m), Num(c), Num(dt)).value;
            && Abs(h.joules - q) <= 0.005
            && Abs(h.kilojoules - ConvertEnergy(Num(q), "J", "kJ").value) <= 0.005
            && Abs(h.calories - ConvertEnergy(Num(q), "J", "cal").value) <= 0.005
            && Abs(h.kilocalories - q * J_TO_CAL / 1000.0) <= 0.005
  {
    HeatFromJoulesNear(Joules(m, c, dt));

  }

  // ---------- Final temperature of a mixture ----------

  /** The unrounded quotient (m1 c1 T1 + m2 c2 T2) / (m1 c1 + m2 c2) of line 97, with no guard
      against a zero denominator. */
  function MixingQuotient(m1: real, c1: real, t1: real, m2: real, c2: real, t2: real): JsNumber
  {
    JsDivide(m1 * c1 * t1 + m2 * c2 * t2, m1 * c1 + m2 * c2)
  }

  /** `calculateFinalTemp(m1, c1, T1, m2, c2, T2)`. */
  function CalculateFinalTemp(m1: JsValue, c1: JsValue, t1: JsValue,
                              m2: JsValue, c2: JsValue, t2: JsValue): (r: Result<JsNumber, Error>)
    ensures r.Failure? <==> !(m1.Num? && c1.Num? && t1.Num? && m2.Num? && c2.Num? && t2.Num?)
    ensures r.Failure? ==> r.error == InvalidNumber
    ensures r.Success? ==> r.value == RoundNumber(MixingQuotient(m1.value, c1.value, t1.value,
                                                                 m2.value, c2.value, t2.value), 2)
  {
    if !(m1.Num? && c1.Num? && t1.Num? && m2.Num? && c2.Num? && t2.Num?) then
      Failure(InvalidNumber)
    else
      Success(RoundNumber(MixingQuotient(m1.value, c1.value, t1.value,
                                         m2.value, c2.value, t2.value), 2))
  }

  /** The exact quotient, when there is one, balances the heat lost by one body against the heat
      gained by the other, and the reported value is within 0.005 of it. */
  lemma FinalTempBalance(m1: real, c1: real, t1: real, m2: real, c2: real, t2: real)
    requires m1 * c1 + m2 * c2 != 0.0
    ensures MixingQuotient(m1, c1, t1, m2, c2, t2).Finite?
    ensures var tf := MixingQuotient(m1, c1, t1, m2, c2, t2).value;
            && m1 * c1 * (t1 - tf) == m2 * c2 * (tf - t2)
            && CalculateFinalTemp(Num(m1), Num(c1), Num(t1), Num(m2), Num(c2), Num(t2)).Success?
            && Abs(CalculateFinalTemp(Num(m1), Num(c1), Num(t1), Num(m2), Num(c2), Num(t2))
                   .value.value - tf) <= 0.005
  {
    var tf := MixingQuotient(m1, c1, t1, m2, c2, t2).value;
    assert tf * (m1 * c1 + m2 * c2) == m1 * c1 * t1 + m2 * c2 * t2;
    assert Pow10(2) == 100.0;
  }

  /** With non-negative heat capacities that are not both zero, the mixture ends between the two
      starting temperatures. */
  lemma FinalTempBetween(m1: real, c1: real, t1: real, m2: real, c2: real, t2: real)
    requires m1 * c1 >= 0.0 && m2 * c2 >= 0.0 && m1 * c1 + m2 * c2 > 0.0
    ensures MixingQuotient(m1, c1, t1, m2, c2, t2).Finite?
    ensures Min(t1, t2) <= MixingQuotient(m1, c1, t1, m2, c2, t2).value <= Max(t1, t2)
  {
    var h1, h2 := m1 * c1, m2 * c2;
    var tf := MixingQuotient(m1, c1, t1, m2, c2, t2).value;
    assert tf * (h1 + h2) == h1 * t1 + h2 * t2;
    var lo, hi := Min(t1, t2), Max(t1, t2);
    assert h1 * t1 + h2 * t2 >= h1 * lo + h2 * lo by {
      assert h1 * (t1 - lo) >= 0.0;
      assert h2 * (t2 - lo) >= 0.0;
    }
    assert h1 * t1 + h2 * t2 <= h1 * hi + h2 * hi by {
      assert h1 * (hi - t1) >= 0.0;
      assert h2 * (hi - t2) >= 0.0;
    }
    assert (tf - lo) * (h1 + h2) >= 0.0;
    assert (hi - tf) * (h1 + h2) >= 0.0;
  }

  /** Which body is named first does not matter. */
  lemma FinalTempSymmetric(m1: JsValue, c1: JsValue, t1: JsValue,
                           m2: JsValue, c2: JsValue, t2: JsValue)
    ensures CalculateFinalTemp(m1, c1, t1, m2, c2, t2) == CalculateFinalTemp(m2, c2, t2, m1, c1, t1)
  {
  }

  /** Without a guard, two vanishing heat capacities give NaN or an infinity, not an error. */
  lemma FinalTempZeroCapacity(t1: real, t2: real)
    ensures CalculateFinalTemp(Num(0.0), Num(4.18), Num(t1), Num(2.0), Num(0.0), Num(t2))
            == Success(NotANumber)
    ensures CalculateFinalTemp(Num(1.0), Num(1.0), Num(30.0), Num(-1.0), Num(1.0), Num(20.0))
            == Success(Infinite(false))
  {
  }

  // ---------- Reaction enthalpy from formation enthalpies and bond energies ----------

  /** One entry of a reduce: {coefficient, Hf} for formation enthalpies, {count, energy} for
      bond energies. */
  datatype LineItem = LineItem(amount: JsValue, value: JsValue)

  /** Which entries the reduce accepts: the source's truthiness test, or the corrected test that
      only asks for both fields to be numbers (see DeltaHFromFormationCorrected). */
  datatype Guard = TruthyFields | NumericFields

  predicate Accepts(g: Guard, item: LineItem)
  {
    match g
    case TruthyFields => Truthy(item.amount) && Truthy(item.value)
    case NumericFields => item.amount.Num? && item.value.Num?
  }

  /** A field as `*` sees it: its value after numeric coercion, None when that is NaN. */
  function ToNumber(v: JsValue): Option<real>
  {
    match v
    case Num(x) => Some(x)
    case NaN => None
    case NonNumber(_, c) => c
  }

  /** `x + y` on values that may be NaN (None): NaN absorbs everything. */
  function Plus(x: Option<real>, y: Option<real>): Option<real>
  {
    if x.Some? && y.Some? then Some(x.value + y.value) else None
  }

  /** The contribution amount * value of an entry, NaN (None) when a field coerces to NaN. */
  function Term(item: LineItem): Option<real>
  {
    var a := ToNumber(item.amount);
    var v := ToNumber(item.value);
    if a.Some? && v.Some? then Some(a.value * v.value) else None
  }

  /** The weighted sum of the entries, the reference value of the reduce: it is a number
      exactly when every contribution is. */
  function ItemsTotal(items: seq<LineItem>): (r: Option<real>)
    ensures r.Some? <==> forall i :: 0 <= i < |items| ==> Term(items[i]).Some?
  {
    if items == [] then Some(0.0)
    else
      var rest := ItemsTotal(items[1..]);
      assert forall i :: 1 <= i < |items| ==> items[i] == items[1..][i - 1];
      Plus(Term(items[0]), rest)
  }

  /** The checked reduce: it throws at an entry the guard rejects, and otherwise yields the
      weighted sum. */
  function CheckedTotal(items: seq<LineItem>, g: Guard, incomplete: Error): (r: Result<Option<real>, Error>)
    ensures r.Success? <==> forall i :: 0 <= i < |items| ==> Accepts(g, items[i])
    ensures r.Success? ==> r.value == ItemsTotal(items)
    ensures r.Failure? ==> r.error == incomplete
  {
    if items == [] then Success(Some(0.0))
    else if !Accepts(g, items[0]) then Failure(incomplete)
    else match CheckedTotal(items[1..], g, incomplete)
      case Failure(e) =>
        assert !Accepts(g, items[1..][0]) || exists i :: 0 <= i < |items| - 1 && !Accepts(g, items[1..][i]);
        Failure(e)
      case Success(t) =>
        assert forall i :: 1 <= i < |items| ==> items[i] == items[1..][i - 1];
        Success(Plus(Term(items[0]), t))
  }

  datatype Kind = Exothermic | Endothermic   // 'eksoterm' / 'endoterm'

  /** The type of a reaction from its unrounded enthalpy change: `deltaH < 0` is false for NaN. */
  function KindOf(deltaH: JsNumber): Kind
  {
    if (deltaH.Finite? && deltaH.value < 0.0) || deltaH == Infinite(true) then Exothermic else Endothermic
  }

  /** A sum as a number result. */
  function NumberOf(t: Option<real>): JsNumber
  {
    if t.Some? then Finite(t.value) else NotANumber
  }

  /** `-x` on a number result. */
  function Negated(x: JsNumber): JsNumber
  {
    match x
    case Finite(v) => Finite(-v)
    case NotANumber => NotANumber
    case Infinite(n) => Infinite(!n)
  }

  /** The result object: deltaH and the two sums of the breakdown, each rounded to two decimals,
      and the type computed from the unrounded deltaH. In the bond variant the sums are the
      energies of the bonds broken and formed. */
  datatype EnthalpyReport = EnthalpyReport(deltaH: JsNumber, plusSum: JsNumber, minusSum: JsNumber, kind: Kind)

  /** The shape shared by both calculations: deltaH = Σ plus - Σ minus. */
  function EnthalpyChange(plus: ArrayArg<LineItem>, minus: ArrayArg<LineItem>, g: Guard,
                          notArrays: Error, incomplete: Error): (r: Result<EnthalpyReport, Error>)
    ensures !(plus.Array? && minus.Array?) ==> r == Failure(notArrays)
    ensures plus.Array? && minus.Array? ==>
      && (r.Failure? <==> !(forall i :: 0 <= i < |plus.elements| ==> Accepts(g, plus.elements[i]))
                          || !(forall i :: 0 <= i < |minus.elements| ==> Accepts(g, minus.elements[i])))
      && (r.Failure? ==> r.error == incomplete)
      && (r.Success? ==> r.value == ReportOf(ItemsTotal(plus.elements), ItemsTotal(minus.elements)))
  {
    if !(plus.Array? && minus.Array?) then Failure(notArrays)
    else match (CheckedTotal(plus.elements, g, incomplete), CheckedTotal(minus.elements, g, incomplete))
      case (Success(p), Success(m)) => Success(ReportOf(p, m))
      case (Failure(e), _) => Failure(e)
      case (_, Failure(e)) => Failure(e)
  }

  /** The report for the sums p and m: deltaH = p - m, NaN when either sum is. */
  function ReportOf(p: Option<real>, m: Option<real>): EnthalpyReport
  {
    var d := if p.Some? && m.Some? then Finite(p.value - m.value) else NotANumber;
    EnthalpyReport(RoundNumber(d, 2), RoundNumber(NumberOf(p), 2), RoundNumber(NumberOf(m), 2), KindOf(d))
  }

  /** `calculateDeltaH_fromFormation(products, reactants)`: ΔH = Σ n ΔHf(products) - Σ n ΔHf(reactants). */
  function DeltaHFromFormation(products: ArrayArg<LineItem>, reactants: ArrayArg<LineItem>)
    : (r: Result<EnthalpyReport, Error>)
    ensures !(products.Array? && reactants.Array?) <==> r == Failure(FormationListsNotArrays)
    ensures r.Failure? ==> r.error in {FormationListsNotArrays, IncompleteData}
  {
    EnthalpyChange(products, reactants, TruthyFields, FormationListsNotArrays, IncompleteData)
  }

  /** `calculateDeltaH_fromBonds(bondsBroken, bondsFormed)`: ΔH = Σ energy broken - Σ energy formed. */
  function DeltaHFromBonds(bondsBroken: ArrayArg<LineItem>, bondsFormed: ArrayArg<LineItem>)
    : (r: Result<EnthalpyReport, Error>)
    ensures !(bondsBroken.Array? && bondsFormed.Array?) <==> r == Failure(BondListsNotArrays)
    ensures r.Failure? ==> r.error in {BondListsNotArrays, IncompleteBondData}
  {
    EnthalpyChange(bondsBroken, bondsFormed, TruthyFields, BondListsNotArrays, IncompleteBondData)
  }

  /** When both sums are numbers, the reported deltaH is within 0.005 of the exact difference
      p - m, and the type says exothermic exactly when that difference is negative. */
  lemma ReportNear(p: real, m: real)
    ensures ReportOf(Some(p), Some(m)).deltaH.Finite?
    ensures Abs(ReportOf(Some(p), Some(m)).deltaH.value - (p - m)) <= 0.005
    ensures ReportOf(Some(p), Some(m)).kind == Exothermic <==> p < m
  {
    RoundTo2Near(p - m);
  }

  /** When either sum is NaN, deltaH is NaN and the type is endothermic. */
  lemma ReportNaN(p: Option<real>, m: Option<real>)
    requires p.None? || m.None?
    ensures ReportOf(p, m).deltaH == NotANumber
    ensures ReportOf(p, m).kind == Endothermic
    ensures p.None? ==> ReportOf(p, m).plusSum == NotANumber
    ensures m.None? ==> ReportOf(p, m).minusSum == NotANumber
  {
  }

  /** Running a reaction backwards negates its deltaH. */
  lemma EnthalpyChangeReverse(plus: seq<LineItem>, minus: seq<LineItem>, g: Guard, e1: Error, e2: Error)
    requires EnthalpyChange(Array(plus), Array(minus), g, e1, e2).Success?
    ensures EnthalpyChange(Array(minus), Array(plus), g, e1, e2).Success?
    ensures EnthalpyChange(Array(minus), Array(plus), g, e1, e2).value.deltaH
            == Negated(EnthalpyChange(Array(plus), Array(minus), g, e1, e2).value.deltaH)
  {
    var p, m := ItemsTotal(plus), ItemsTotal(minus);
    if p.Some? && m.Some? {
      RoundDifferenceOdd(p.value, m.value);
    }
  }

  /** Running a reaction backwards swaps the two sums and, when the change is a number other
      than zero, its type. */
  lemma EnthalpyChangeReverseParts(plus: seq<LineItem>, minus: seq<LineItem>, g: Guard, e1: Error, e2: Error)
    requires EnthalpyChange(Array(plus), Array(minus), g, e1, e2).Success?
    ensures EnthalpyChange(Array(minus), Array(plus), g, e1, e2).Success?
    ensures EnthalpyChange(Array(minus), Array(plus), g, e1, e2).value.plusSum
            == EnthalpyChange(Array(plus), Array(minus), g, e1, e2).value.minusSum
    ensures EnthalpyChange(Array(minus), Array(plus), g, e1, e2).value.minusSum
            == EnthalpyChange(Array(plus), Array(minus), g, e1, e2).value.plusSum
    ensures ItemsTotal(plus).Some? && ItemsTotal(minus).Some? && ItemsTotal(plus) != ItemsTotal(minus) ==>
            EnthalpyChange(Array(minus), Array(plus), g, e1, e2).value.kind
            != EnthalpyChange(Array(plus), Array(minus), g, e1, e2).value.kind
  {
    var p, m := ItemsTotal(plus), ItemsTotal(minus);
    assert EnthalpyChange(Array(plus), Array(minus), g, e1, e2).value == ReportOf(p, m);
    assert EnthalpyChange(Array(minus), Array(plus), g, e1, e2).value == ReportOf(m, p);
    ReportSwap(p, m);
  }

  /** Swapping the two sums swaps them in the report and, when they are different numbers,
      flips the type. */
  lemma ReportSwap(p: Option<real>, m: Option<real>)
    ensures ReportOf(m, p).plusSum == ReportOf(p, m).minusSum
    ensures ReportOf(m, p).minusSum == ReportOf(p, m).plusSum
    ensures p.Some? && m.Some? && p != m ==> ReportOf(m, p).kind != ReportOf(p, m).kind
  {
  }

  lemma RoundDifferenceOdd(a: real, b: real)
    ensures RoundTo(b - a, 2) == -RoundTo(a - b, 2)
  {
    var x := a - b;
    assert b - a == -x;
    RoundToOdd(x, 2);
  }

  /** The weighted sum of a concatenation is the sum of the weighted sums. */
  lemma {:induction false} ItemsTotalAppend(a: seq<LineItem>, b: seq<LineItem>)
    ensures ItemsTotal(a + b) == Plus(ItemsTotal(a), ItemsTotal(b))
  {
    if a == [] {
      assert a + b == b;
    } else {
      assert (a + b)[1..] == a[1..] + b;
      ItemsTotalAppend(a[1..], b);
    }
  }

  /** The combustion of methane from standard formation enthalpies:
      [(-393.5) + 2(-285.8)] - [(-74.8)] = -890.3 kJ, exothermic. */
  lemma MethaneCombustionFromFormation()
    ensures DeltaHFromFormation(
              Array([LineItem(Num(1.0), Num(-393.5)), LineItem(Num(2.0), Num(-285.8))]),
              Array([LineItem(Num(1.0), Num(-74.8))]))
            == Success(EnthalpyReport(Finite(-890.3), Finite(-965.1), Finite(-74.8), Exothermic))
  {
    var p := [LineItem(Num(1.0), Num(-393.5)), LineItem(Num(2.0), Num(-285.8))];
    var m := [LineItem(Num(1.0), Num(-74.8))];
    assert ItemsTotal(p) == Some(-965.1) by {
      assert p[1..][1..] == [];
    }
    assert ItemsTotal(m) == Some(-74.8) by {
      assert m[1..] == [];
    }
    assert Pow10(2) == 100.0;
    RoundToExact(-890.3, 2);
    RoundToExact(-965.1, 2);
    RoundToExact(-74.8, 2);
  }

  /** A truthy non-number field is coerced by `*`: a coefficient given as the string "2"
      counts as 2, so the methane combustion comes out the same. */
  lemma MethaneCombustionWithStringCoefficient()
    ensures DeltaHFromFormation(
              Array([LineItem(Num(1.0), Num(-393.5)), LineItem(NonNumber(true, Some(2.0)), Num(-285.8))]),
              Array([LineItem(Num(1.0), Num(-74.8))]))
            == Success(EnthalpyReport(Finite(-890.3), Finite(-965.1), Finite(-74.8), Exothermic))
  {
    var p := [LineItem(Num(1.0), Num(-393.5)), LineItem(NonNumber(true, Some(2.0)), Num(-285.8))];
    var q := [LineItem(Num(1.0), Num(-393.5)), LineItem(Num(2.0), Num(-285.8))];
    assert ItemsTotal(p) == ItemsTotal(q) by {
      assert p[1..][1..] == [] && q[1..][1..] == [];
    }
    MethaneCombustionFromFormation();
  }

  /** A truthy field that coerces to NaN (an object, a non-numeric string) is accepted by the
      guard and turns the whole result into NaN, of type endothermic. */
  lemma FormationNaNField(products: seq<LineItem>, reactants: seq<LineItem>, v: JsValue)
    requires DeltaHFromFormation(Array(products), Array(reactants)).Success?
    requires Truthy(v) && ToNumber(v).None?
    ensures DeltaHFromFormation(Array(products), Array(reactants + [LineItem(Num(1.0), v)]))
            == Success(EnthalpyReport(NotANumber, RoundNumber(NumberOf(ItemsTotal(products)), 2),
                                      NotANumber, Endothermic))
  {
    var x := LineItem(Num(1.0), v);
    AcceptedSnoc(reactants, x, TruthyFields);
    TotalWithNaN(reactants, x);
    ReportNaN(ItemsTotal(products), None);
  }

  /** Appending an accepted entry to entries that are all accepted keeps them all accepted. */
  lemma AcceptedSnoc(items: seq<LineItem>, x: LineItem, g: Guard)
    requires forall i :: 0 <= i < |items| ==> Accepts(g, items[i])
    requires Accepts(g, x)
    ensures forall i :: 0 <= i < |items + [x]| ==> Accepts(g, (items + [x])[i])
  {
    var r := items + [x];
    assert forall i :: 0 <= i < |items| ==> r[i] == items[i];
  }

  /** Appending an entry whose product is NaN makes the sum NaN. */
  lemma TotalWithNaN(items: seq<LineItem>, x: LineItem)
    requires Term(x).None?
    ensures ItemsTotal(items + [x]) == None
  {
    ItemsTotalAppend(items, [x]);
    assert [x][1..] == [];
  }

  /** The combustion of methane from average bond energies: 4 C-H + 2 O=O broken,
      2 C=O + 4 O-H formed: 2642 - 3450 = -808 kJ. */
  lemma MethaneCombustionFromBonds()
    ensures DeltaHFromBonds(
              Array([LineItem(Num(4.0), Num(413.0)), LineItem(Num(2.0), Num(495.0))]),
              Array([LineItem(Num(2.0), Num(799.0)), LineItem(Num(4.0), Num(463.0))]))
            == Success(EnthalpyReport(Finite(-808.0), Finite(2642.0), Finite(3450.0), Exothermic))
  {
    var b := [LineItem(Num(4.0), Num(413.0)), LineItem(Num(2.0), Num(495.0))];
    var f := [LineItem(Num(2.0), Num(799.0)), LineItem(Num(4.0), Num(463.0))];
    assert ItemsTotal(b) == Some(2642.0) by {
      assert b[1..][1..] == [];
    }
    assert ItemsTotal(f) == Some(3450.0) by {
      assert f[1..][1..] == [];
    }
    assert Pow10(2) == 100.0;
    RoundToExact(-808.0, 2);
    RoundToExact(2642.0, 2);
    RoundToExact(3450.0, 2);
  }

  /** An element whose standard formation enthalpy is zero (O2, N2, H2 in their standard
      state) is rejected as incomplete: the truthiness test treats 0 as missing. */
  lemma FormationRejectsZeroEnthalpy(products: seq<LineItem>, reactants: seq<LineItem>, n: real)
    ensures DeltaHFromFormation(Array(products), Array(reactants + [LineItem(Num(n), Num(0.0))]))
            == Failure(IncompleteData)
  {
    var r := reactants + [LineItem(Num(n), Num(0.0))];
    assert !Accepts(TruthyFields, r[|r| - 1]);
  }

  /** ΔH from formation enthalpies with the guard requiring only that both fields be numbers,
      so an element in its standard state (ΔHf = 0) is accepted; the sums are then never NaN. */
  function DeltaHFromFormationCorrected(products: ArrayArg<LineItem>, reactants: ArrayArg<LineItem>)
    : (r: Result<EnthalpyReport, Error>)
    ensures !(products.Array? && reactants.Array?) <==> r == Failure(FormationListsNotArrays)
    ensures r.Success? ==> r.value.deltaH.Finite? && r.value.plusSum.Finite? && r.value.minusSum.Finite?
  {
    var r := EnthalpyChange(products, reactants, NumericFields, FormationListsNotArrays, IncompleteData);
    if r.Success? then
      NumericTotal(products.elements);
      NumericTotal(reactants.elements);
      r
    else r
  }

  /** A sum over entries whose fields are all numbers is a number. */
  lemma NumericTotal(items: seq<LineItem>)
    requires forall i :: 0 <= i < |items| ==> Accepts(NumericFields, items[i])
    ensures ItemsTotal(items).Some?
  {
    forall i | 0 <= i < |items|
      ensures Term(items[i]).Some?
    {
      assert Accepts(NumericFields, items[i]);
    }
  }

  /** With the corrected guard, an element of zero formation enthalpy contributes nothing. */
  lemma FormationCorrectedIgnoresZeroEnthalpy(products: seq<LineItem>, reactants: seq<LineItem>, n: real)
    ensures DeltaHFromFormationCorrected(Array(products), Array(reactants + [LineItem(Num(n), Num(0.0))]))
            == DeltaHFromFormationCorrected(Array(products), Array(reactants))
  {
    var z := [LineItem(Num(n), Num(0.0))];
    ItemsTotalAppend(reactants, z);
    assert ItemsTotal(z) == Some(0.0) by {
      assert z[1..] == [];
    }
    var r := reactants + z;
    assert forall i :: 0 <= i < |reactants| ==> r[i] == reactants[i];
  }

  /** The combustion of methane written with the oxygen, CH4 + 2 O2 -> CO2 + 2 H2O(l):
      the source rejects it, the corrected guard gives -890.3 kJ. */
  lemma MethaneCombustionWithOxygen()
    ensures DeltaHFromFormation(
              Array([LineItem(Num(1.0), Num(-393.5)), LineItem(Num(2.0), Num(-285.8))]),
              Array([LineItem(Num(1.0), Num(-74.8)), LineItem(Num(2.0), Num(0.0))]))
            == Failure(IncompleteData)
    ensures DeltaHFromFormationCorrected(
              Array([LineItem(Num(1.0), Num(-393.5)), LineItem(Num(2.0), Num(-285.8))]),
              Array([LineItem(Num(1.0), Num(-74.8)), LineItem(Num(2.0), Num(0.0))]))
            == Success(EnthalpyReport(Finite(-890.3), Finite(-965.1), Finite(-74.8), Exothermic))
  {
    var p := [LineItem(Num(1.0), Num(-393.5)), LineItem(Num(2.0), Num(-285.8))];
    var m := [LineItem(Num(1.0), Num(-74.8))];
    assert m + [LineItem(Num(2.0), Num(0.0))]
        == [LineItem(Num(1.0), Num(-74.8)), LineItem(Num(2.0), Num(0.0))];
    FormationRejectsZeroEnthalpy(p, m, 2.0);
    FormationCorrectedIgnoresZeroEnthalpy(p, m, 2.0);
    MethaneCombustionFromFormation();
  }

  // ---------- Hess's law ----------

  /** One equation of the solver: its enthalpy change and the factor it is multiplied by. */
  datatype HessTerm = HessTerm(deltaH: JsValue, coefficient: JsValue)

  predicate NumberTyped(t: HessTerm)
  {
    !t.deltaH.NonNumber? && !t.coefficient.NonNumber?
  }

  predicate HasNaN(t: HessTerm)
  {
    t.deltaH.NaN? || t.coefficient.NaN?
  }

  function HessProduct(t: HessTerm): real
  {
    if t.deltaH.Num? && t.coefficient.Num? then t.deltaH.value * t.coefficient.value else 0.0
  }

  /** Σ deltaH * coefficient, the reference value of the solver. */
  function HessSum(eqs: seq<HessTerm>): real
  {
    if eqs == [] then 0.0 else HessProduct(eqs[0]) + HessSum(eqs[1..])
  }

  /** `hessLawSolver(equations)`: a field that is not of type number throws; NaN is of type
      number and makes the total NaN. */
  function HessLawSolver(equations: ArrayArg<HessTerm>): (r: Result<JsNumber, Error>)
    ensures equations.NotArray? ==> r == Failure(EquationsNotArray)
    ensures equations.Array? ==>
      && (r.Failure? <==> exists i :: 0 <= i < |equations.elements| && !NumberTyped(equations.elements[i]))
      && (r.Failure? ==> r.error == InvalidEquationFormat)
      && ((r.Success? && exists i :: 0 <= i < |equations.elements| && HasNaN(equations.elements[i]))
          ==> r.value == NotANumber)
      && ((r.Success? && forall i :: 0 <= i < |equations.elements| ==> !HasNaN(equations.elements[i]))
          ==> r.value.Finite? && Abs(r.value.value - HessSum(equations.elements)) <= 0.005)
  {
    if equations.NotArray? then Failure(EquationsNotArray)
    else
      var eqs := equations.elements;
      if exists i :: 0 <= i < |eqs| && !NumberTyped(eqs[i]) then Failure(InvalidEquationFormat)
      else if exists i :: 0 <= i < |eqs| && HasNaN(eqs[i]) then Success(NotANumber)
      else
        RoundTo2Near(HessSum(eqs));
        Success(Finite(RoundTo(HessSum(eqs), 2)))
  }

  /** An empty list of equations sums to 0. */
  lemma HessEmpty()
    ensures HessLawSolver(Array([])) == Success(Finite(0.0))
  {
    RoundToExact(0.0, 2);
  }

  /** Splitting a route into two legs adds their enthalpy changes. */
  lemma {:induction false} HessSumAppend(a: seq<HessTerm>, b: seq<HessTerm>)
    ensures HessSum(a + b) == HessSum(a) + HessSum(b)
  {
    if a == [] {
      assert a + b == b;
    } else {
      assert (a + b)[1..] == a[1..] + b;
      HessSumAppend(a[1..], b);
    }
  }

  function Reversed(t: HessTerm): HessTerm
  {
    HessTerm(t.deltaH, match t.coefficient
      case Num(c) => Num(-c)
      case other => other)
  }

  /** Reversing every equation (negating its coefficient) negates the unrounded total. */
  lemma {:induction false} HessSumReversed(eqs: seq<HessTerm>)
    ensures HessSum(seq(|eqs|, i requires 0 <= i < |eqs| => Reversed(eqs[i]))) == -HessSum(eqs)
  {
    var rev := seq(|eqs|, i requires 0 <= i < |eqs| => Reversed(eqs[i]));
    if eqs != [] {
      var tail := seq(|eqs| - 1, i requires 0 <= i < |eqs| - 1 => Reversed(eqs[1..][i]));
      assert rev[1..] == tail;
      HessSumReversed(eqs[1..]);
      assert HessProduct(rev[0]) == -HessProduct(eqs[0]);
    }
  }

  /** C + O2 -> CO2 by way of CO: (-110.5) + (-283.0) = -393.5 kJ. */
  lemma HessCarbonDioxide()
    ensures HessLawSolver(Array([HessTerm(Num(-110.5), Num(1.0)), HessTerm(Num(-283.0), Num(1.0))]))
            == Success(Finite(-393.5))
  {
    var eqs := [HessTerm(Num(-110.5), Num(1.0)), HessTerm(Num(-283.0), Num(1.0))];
    assert HessSum(eqs) == -393.5 by {
      assert eqs[1..][1..] == [];
    }
    assert Pow10(2) == 100.0;
    RoundToExact(-393.5, 2);
  }

  /** NaN passes the type test and propagates; a missing field throws. */
  lemma HessNaNAndMissing()
    ensures HessLawSolver(Array([HessTerm(NaN, Num(1.0))])) == Success(NotANumber)
    ensures HessLawSolver(Array([HessTerm(Num(1.0), NonNumber(false, None)), HessTerm(NaN, Num(1.0))]))
            == Failure(InvalidEquationFormat)
  {
    assert HasNaN(HessTerm(NaN, Num(1.0)));
    assert !NumberTyped([HessTerm(Num(1.0), NonNumber(false, None)), HessTerm(NaN, Num(1.0))][0]);
  }

  // ---------- Equation validation ----------

  /** The argument of validateThermochemicalEquation: a string or a value of another type. */
  datatype EquationArg = Text(text: string) | NotText

  /** The verdict, one alternative per message. */
  datatype Validation =
    | Valid(reactants: string, products: string)  // 'Persamaan valid', with the parsed sides
    | Blank                                       // not a string, or only whitespace
    | MissingArrow                                // neither "->" nor "→" occurs
    | WrongFormat                                 // the split does not give two parts
    | EmptySide                                   // a side is blank

  /** An arrow, "->" or "→" (U+2192), starts at position i. */
  predicate ArrowAt(s: string, i: nat)
  {
    i < |s| && (s[i] == '→' || (s[i] == '-' && i + 1 < |s| && s[i + 1] == '>'))
  }

  predicate ArrowFree(s: string)
  {
    forall i: nat :: i < |s| ==> !ArrowAt(s, i)
  }

  /** `s.split(/->|→/)`: the pieces between the arrows, matched from the left. */
  function SplitOnArrows(s: string): (parts: seq<string>)
    ensures |parts| >= 1
    decreases |s|
  {
    if s == [] then [""]
    else if s[0] == '→' then [""] + SplitOnArrows(s[1..])
    else if |s| >= 2 && s[0] == '-' && s[1] == '>' then [""] + SplitOnArrows(s[2..])
    else
      var rest := SplitOnArrows(s[1..]);
      [[s[0]] + rest[0]] + rest[1..]
  }

  /** `validateThermochemicalEquation(equation)`. */
  function ValidateEquation(equation: EquationArg): (r: Validation)
    ensures r == Blank <==> equation.NotText? || AllWhitespace(equation.text)
    ensures r.Valid? ==> r.reactants != [] && r.products != []
    ensures r.Valid? ==> Trim(r.reactants) == r.reactants && Trim(r.products) == r.products
  {
    if equation.NotText? || Trim(equation.text) == [] then Blank
    else
      var s := equation.text;
      if !(Includes(s, "->") || Includes(s, "→")) then MissingArrow
      else
        var parts := SplitOnArrows(s);
        if |parts| != 2 then WrongFormat
        else
          var reactants, products := Trim(parts[0]), Trim(parts[1]);
          if reactants == [] || products == [] then EmptySide
          else
            TrimIdempotent(parts[0]);
            TrimIdempotent(parts[1]);
            Valid(reactants, products)
  }

  /** The two `includes` tests together hold exactly when the text contains an arrow. */
  lemma HasArrowIff(s: string)
    ensures (Includes(s, "->") || Includes(s, "→")) <==> !ArrowFree(s)
  {
    if Includes(s, "->") {
      var i: nat :| OccursAt(s, "->", i);
      assert s[i..i + 2][0] == s[i] && s[i..i + 2][1] == s[i + 1];
      assert ArrowAt(s, i);
    } else if Includes(s, "→") {
      var i: nat :| OccursAt(s, "→", i);
      assert s[i..i + 1][0] == s[i];
      assert ArrowAt(s, i);
    }
    if !ArrowFree(s) {
      var i: nat :| i < |s| && ArrowAt(s, i);
      if s[i] == '→' {
        assert s[i..i + 1] == "→";
        assert OccursAt(s, "→", i);
      } else {
        assert s[i..i + 2] == "->";
        assert OccursAt(s, "->", i);
      }
    }
  }

  /** Splitting an arrow-free prefix followed by text t: the prefix joins t's first piece
      (t must not begin with '>', or a trailing '-' of the prefix would form an arrow). */
  lemma {:induction false} SplitPrefix(a: string, t: string)
    requires ArrowFree(a) && (t == [] || t[0] != '>')
    ensures SplitOnArrows(a + t) == [a + SplitOnArrows(t)[0]] + SplitOnArrows(t)[1..]
    decreases |a|
  {
    if a == [] {
      assert a + t == t;
      assert a + SplitOnArrows(t)[0] == SplitOnArrows(t)[0];
      assert [SplitOnArrows(t)[0]] + SplitOnArrows(t)[1..] == SplitOnArrows(t);
    } else {
      var s := a + t;
      NoArrowAtFront(a, t);
      assert s[1..] == a[1..] + t;
      ArrowFreeTail(a);
      SplitPrefix(a[1..], t);
      assert [a[0]] + (a[1..] + SplitOnArrows(t)[0]) == a + SplitOnArrows(t)[0];
    }
  }

  /** An arrow-free text followed by text that does not start with '>' does not start with an
      arrow. */
  lemma NoArrowAtFront(a: string, t: string)
    requires a != [] && ArrowFree(a) && (t == [] || t[0] != '>')
    ensures (a + t)[0] != '→' && !(|a + t| >= 2 && (a + t)[0] == '-' && (a + t)[1] == '>')
  {
    var s := a + t;
    assert !ArrowAt(a, 0);
    assert s[0] == a[0];
    if |a| >= 2 {
      assert s[1] == a[1];
    } else if t != [] {
      assert s[1] == t[0];
    }
  }

  lemma ArrowFreeTail(a: string)
    requires a != [] && ArrowFree(a)
    ensures ArrowFree(a[1..])
  {
    forall i: nat | i < |a[1..]| ensures !ArrowAt(a[1..], i) {
      assert !ArrowAt(a, i + 1);
    }
  }

  /** A character that cannot start an arrow, in front of an arrow-free text, keeps it
      arrow-free. */
  lemma ArrowFreeCons(c: char, r: string)
    requires ArrowFree(r) && c != '→' && !(c == '-' && r != [] && r[0] == '>')
    ensures ArrowFree([c] + r)
  {
    var t := [c] + r;
    forall i: nat | i < |t| ensures !ArrowAt(t, i) {
      if i == 0 {
        if r != [] {
          assert t[1] == r[0];
        }
      } else {
        assert t[i] == r[i - 1];
        if i + 1 < |t| {
          assert t[i + 1] == r[i];
        }
        assert !ArrowAt(r, i - 1);
      }
    }
  }

  /** Text without an arrow is a single piece. */
  lemma SplitArrowFree(b: string)
    requires ArrowFree(b)
    ensures SplitOnArrows(b) == [b]
  {
    SplitPrefix(b, []);
    assert b + [] == b;
  }

  /** Two arrow-free pieces joined by one arrow split back into those pieces. */
  lemma SplitAtArrow(a: string, arrow: string, b: string)
    requires ArrowFree(a) && ArrowFree(b) && (arrow == "->" || arrow == "→")
    ensures SplitOnArrows(a + arrow + b) == [a, b]
  {
    var t := arrow + b;
    assert a + arrow + b == a + t;
    if arrow == "->" {
      assert t[2..] == b;
    } else {
      assert t[1..] == b;
    }
    SplitArrowFree(b);
    assert SplitOnArrows(t) == ["", b];
    SplitPrefix(a, t);
    assert a + "" == a;
  }

  /** A single piece means the text had no arrow. */
  lemma {:induction false} SplitOne(t: string)
    requires |SplitOnArrows(t)| == 1
    ensures SplitOnArrows(t) == [t] && ArrowFree(t)
    decreases |t|
  {
    if t != [] {
      assert t[0] != '→';
      assert !(|t| >= 2 && t[0] == '-' && t[1] == '>');
      SplitOne(t[1..]);
      assert [t[0]] + t[1..] == t;
      forall i: nat | i < |t| ensures !ArrowAt(t, i) {
        if i > 0 {
          assert !ArrowAt(t[1..], i - 1);
        }
      }
    }
  }

  /** Two pieces means the text is one arrow between two arrow-free pieces. */
  lemma {:induction false} SplitTwo(s: string)
    requires |SplitOnArrows(s)| == 2
    ensures var parts := SplitOnArrows(s);
            && ArrowFree(parts[0]) && ArrowFree(parts[1])
            && (s == parts[0] + "->" + parts[1] || s == parts[0] + "→" + parts[1])
    decreases |s|
  {
    var parts := SplitOnArrows(s);
    if s[0] == '→' {
      SplitOne(s[1..]);
      assert s == "" + "→" + s[1..];
    } else if |s| >= 2 && s[0] == '-' && s[1] == '>' {
      SplitOne(s[2..]);
      assert s == "" + "->" + s[2..];
    } else {
      var rest := SplitOnArrows(s[1..]);
      SplitTwo(s[1..]);
      var arrow := if s[1..] == rest[0] + "->" + rest[1] then "->" else "→";
      SplitTwoStep(s, arrow, rest[0], rest[1]);
    }
  }

  /** The inductive step of SplitTwo: a first character that starts no arrow joins the
      first piece. */
  lemma SplitTwoStep(s: string, arrow: string, x: string, y: string)
    requires s != [] && s[0] != '→' && !(|s| >= 2 && s[0] == '-' && s[1] == '>')
    requires arrow == "->" || arrow == "→"
    requires ArrowFree(x) && s[1..] == x + arrow + y && SplitOnArrows(s[1..]) == [x, y]
    ensures SplitOnArrows(s) == [[s[0]] + x, y]
    ensures ArrowFree([s[0]] + x) && s == [s[0]] + x + arrow + y
  {
    var rest := SplitOnArrows(s[1..]);
    assert SplitOnArrows(s) == [[s[0]] + rest[0]] + rest[1..];
    assert rest[1..] == [y];
    ConsConcat(s, x + arrow + y);
    ConcatAssoc([s[0]], x, arrow, y);
    if x != [] {
      assert s[1..][0] == x[0];
    }
    ArrowFreeCons(s[0], x);
  }

  lemma ConcatAssoc(c: string, x: string, a: string, y: string)
    ensures c + (x + a + y) == c + x + a + y
  {
    assert c + (x + a + y) == (c + x) + (a + y);
  }

  lemma ConsConcat(s: string, t: string)
    requires s != [] && s[1..] == t
    ensures s == [s[0]] + t
  {
  }

  /** A text containing a non-whitespace character is not blank. */
  lemma NotBlankAt(s: string, i: nat)
    requires i < |s| && !IsWhitespace(s[i])
    ensures Trim(s) != []
  {
  }

  /** Soundness: an accepted equation is exactly one arrow between two arrow-free sides, and the
      parsed sides are those sides trimmed. */
  lemma ValidEquationShape(s: string)
    requires ValidateEquation(Text(s)).Valid?
    ensures var parts := SplitOnArrows(s);
            var v := ValidateEquation(Text(s));
            && |parts| == 2 && ArrowFree(parts[0]) && ArrowFree(parts[1])
            && (s == parts[0] + "->" + parts[1] || s == parts[0] + "→" + parts[1])
            && v.reactants == Trim(parts[0]) && v.products == Trim(parts[1])
            && v.reactants != [] && v.products != []
  {
    SplitTwo(s);
  }

  /** Completeness: two arrow-free, non-blank sides joined by one arrow are accepted. */
  lemma ValidEquationOfShape(a: string, arrow: string, b: string)
    requires ArrowFree(a) && ArrowFree(b) && (arrow == "->" || arrow == "→")
    requires Trim(a) != [] && Trim(b) != []
    ensures ValidateEquation(Text(a + arrow + b)) == Valid(Trim(a), Trim(b))
  {
    ArrowedText(a, arrow, b);
    SplitAtArrow(a, arrow, b);
    ValidateTwoSides(a + arrow + b, a, b);
  }

  /** One arrow with a blank side on either end is reported as an empty side. */
  lemma EmptySideOfShape(a: string, arrow: string, b: string)
    requires ArrowFree(a) && ArrowFree(b) && (arrow == "->" || arrow == "→")
    requires Trim(a) == [] || Trim(b) == []
    ensures ValidateEquation(Text(a + arrow + b)) == EmptySide
  {
    ArrowedText(a, arrow, b);
    SplitAtArrow(a, arrow, b);
    var parts := SplitOnArrows(a + arrow + b);
    assert |parts| == 2 && parts[0] == a && parts[1] == b;
  }

  /** The last steps of the validation: a non-blank text with an arrow that splits into two
      non-blank sides is accepted with those sides trimmed. */
  lemma ValidateTwoSides(s: string, a: string, b: string)
    requires Trim(s) != [] && (Includes(s, "->") || Includes(s, "→"))
    requires SplitOnArrows(s) == [a, b] && Trim(a) != [] && Trim(b) != []
    ensures ValidateEquation(Text(s)) == Valid(Trim(a), Trim(b))
  {
    var parts := SplitOnArrows(s);
    assert |parts| == 2 && parts[0] == a && parts[1] == b;
  }

  /** Text with an arrow in it is neither blank nor missing its arrow. */
  lemma ArrowedText(a: string, arrow: string, b: string)
    requires arrow == "->" || arrow == "→"
    ensures Trim(a + arrow + b) != []
    ensures Includes(a + arrow + b, "->") || Includes(a + arrow + b, "→")
  {
    var s := a + arrow + b;
    assert s[|a|] == arrow[0];
    if arrow == "->" {
      assert s[|a| + 1] == '>';
    }
    NotBlankAt(s, |a|);
    assert ArrowAt(s, |a|);
    HasArrowIff(s);
  }

  /** A non-blank text without an arrow is reported as missing its arrow, and only such a text. */
  lemma MissingArrowIff(s: string)
    ensures ValidateEquation(Text(s)) == MissingArrow <==> !AllWhitespace(s) && ArrowFree(s)
  {
    HasArrowIff(s);
  }

  /** Two arrows give three pieces. */
  lemma SplitTwoArrows(a: string, b: string, c: string)
    requires ArrowFree(a) && ArrowFree(b) && ArrowFree(c)
    ensures SplitOnArrows(a + "->" + b + "->" + c) == [a, b, c]
  {
    var u := b + "->" + c;
    var t := "->" + u;
    assert a + "->" + b + "->" + c == a + t;
    assert t[2..] == u;
    SplitAtArrow(b, "->", c);
    assert SplitOnArrows(t) == ["", b, c];
    SplitPrefix(a, t);
    assert a + "" == a;
  }

  /** More than one arrow is a format error. */
  lemma TwoArrowsRejected(a: string, b: string, c: string)
    requires ArrowFree(a) && ArrowFree(b) && ArrowFree(c)
    ensures ValidateEquation(Text(a + "->" + b + "->" + c)) == WrongFormat
  {
    var s := a + "->" + b + "->" + c;
    SplitTwoArrows(a, b, c);
    assert s[|a|] == '-' && s[|a| + 1] == '>';
    NotBlankAt(s, |a|);
    assert ArrowAt(s, |a|);
    WrongPartCount(s);
  }

  lemma WrongPartCount(s: string)
    requires Trim(s) != [] && !ArrowFree(s) && |SplitOnArrows(s)| != 2
    ensures ValidateEquation(Text(s)) == WrongFormat
  {
    HasArrowIff(s);
  }

  lemma MethaneSidesArrowFree()
    ensures ArrowFree("CH4 + 2O2 ") && ArrowFree(" CO2 + 2H2O")
  {
  }

  lemma MethaneReactantSide()
    ensures Trim("CH4 + 2O2 ") == "CH4 + 2O2"
  {
    assert "" + "CH4 + 2O2" + " " == "CH4 + 2O2 ";
    TrimPadded("", "CH4 + 2O2", " ");
  }

  lemma MethaneProductSide()
    ensures Trim(" CO2 + 2H2O") == "CO2 + 2H2O"
  {
    assert " " + "CO2 + 2H2O" + "" == " CO2 + 2H2O";
    TrimPadded(" ", "CO2 + 2H2O", "");
  }

  /** The example of the source's documentation. */
  lemma ValidateMethaneCombustion()
    ensures ValidateEquation(Text("CH4 + 2O2 -> CO2 + 2H2O")) == Valid("CH4 + 2O2", "CO2 + 2H2O")
  {
    var a, b := "CH4 + 2O2 ", " CO2 + 2H2O";
    assert "CH4 + 2O2 -> CO2 + 2H2O" == a + "->" + b;
    MethaneReactantSide();
    MethaneProductSide();
    MethaneSidesArrowFree();
    ValidEquationOfShape(a, "->", b);
  }

  /** An equation whose product side is left empty is rejected. */
  lemma EmptyProductSide()
    ensures ValidateEquation(Text("CH4 ->")) == EmptySide
  {
    assert "CH4 ->" == "CH4 " + "->" + "";
    assert ArrowFree("CH4 ");
    EmptySideOfShape("CH4 ", "->", "");
  }

  /** Texts without an arrow, blank texts and non-strings are rejected. */
  lemma ValidateRejections()
    ensures ValidateEquation(Text("CH4 + 2O2")) == MissingArrow
    ensures ValidateEquation(Text("   ")) == Blank
    ensures ValidateEquation(NotText) == Blank
  {
    assert ArrowFree("CH4 + 2O2");
    assert !AllWhitespace("CH4 + 2O2") by {
      assert !IsWhitespace("CH4 + 2O2"[0]);
    }
    MissingArrowIff("CH4 + 2O2");
  }

  // ---------- Compound parsing ----------

  predicate IsDigit(c: char)
  {
    '0' <= c <= '9'
  }

  predicate AllDigits(s: string)
  {
    forall i :: 0 <= i < |s| ==> IsDigit(s[i])
  }

  predicate IsUpper(c: char)
  {
    'A' <= c <= 'Z'
  }

  predicate IsLowerLetter(c: char)
  {
    'a' <= c <= 'z'
  }

  /** The language of the coefficient group `\d*\.?\d+`: digits with at most one '.',
      which is not the last character. */
  predicate IsCoefficient(c: string)
  {
    || (|c| > 0 && AllDigits(c))
    || (exists p :: 0 <= p < |c| - 1 && c[p] == '.' && AllDigits(c[..p]) && AllDigits(c[p + 1..]))
  }

  /** The language of `([A-Z][a-z]?\d*)+`: element symbols with optional counts; it begins
      with a capital, uses only letters and digits, and each lower-case letter follows a
      capital. */
  predicate IsFormula(f: string)
  {
    && |f| > 0 && IsUpper(f[0])
    && forall i :: 0 <= i < |f| ==>
         && (IsUpper(f[i]) || IsLowerLetter(f[i]) || IsDigit(f[i]))
         && (IsLowerLetter(f[i]) ==> i > 0 && IsUpper(f[i - 1]))
  }

  /** The whole-string pattern `^(\d*\.?\d+)?([A-Z][a-z]?\d*)+$`, stated as the regular
      expression reads: an optional coefficient, then a formula. */
  predicate MatchesCompoundPattern(t: string)
  {
    exists j :: 0 <= j <= |t| && (j == 0 || IsCoefficient(t[..j])) && IsFormula(t[j..])
  }

  predicate IsNumberChar(c: char)
  {
    IsDigit(c) || c == '.'
  }

  /** The length of the longest prefix of digits and dots (what `/^[\d.]+/` matches). */
  function NumberPrefixLength(s: string): (k: nat)
    ensures k <= |s|
    ensures forall i :: 0 <= i < k ==> IsNumberChar(s[i])
    ensures k < |s| ==> !IsNumberChar(s[k])
  {
    if s == [] || !IsNumberChar(s[0]) then 0
    else 1 + NumberPrefixLength(s[1..])
  }

  /** The value of a run of decimal digits. */
  function DigitsValue(d: string): nat
  {
    if d == [] then 0
    else
      var c := d[|d| - 1];
      DigitsValue(d[..|d| - 1]) * 10 + (if IsDigit(c) then c as int - '0' as int else 0)
  }

  /** The position of the first '.', or the length when there is none. */
  function DotIndex(c: string): (p: nat)
    ensures p <= |c| && (p < |c| ==> c[p] == '.')
    ensures forall i :: 0 <= i < p ==> c[i] != '.'
  {
    if c == [] || c[0] == '.' then 0 else 1 + DotIndex(c[1..])
  }

  /** `parseFloat` of a coefficient: the integer part plus the fraction after the dot. */
  function DecimalValue(c: string): real
  {
    var p := DotIndex(c);
    if p == |c| then DigitsValue(c) as real
    else DigitsValue(c[..p]) as real + DigitsValue(c[p + 1..]) as real / Pow10(|c| - p - 1)
  }

  /** A parsed compound: its coefficient and its formula. */
  datatype Compound = Compound(coefficient: real, formula: string)

  /** The coefficient of a trimmed token: `parseFloat(match[1] || 1)`. */
  function CoefficientOf(t: string): real
  {
    var k := NumberPrefixLength(t);
    if k == 0 then 1.0 else DecimalValue(t[..k])
  }

  /** The pattern test, decided by splitting after the longest run of digits and dots. */
  predicate SplitsAsCompound(t: string)
  {
    var k := NumberPrefixLength(t);
    (k == 0 || IsCoefficient(t[..k])) && IsFormula(t[k..])
  }

  /** `parseCompound(compound)`: the trimmed token is matched, but the formula is what is left
      of the untrimmed argument after its leading run of digits and dots. */
  function ParseCompound(compound: string): (r: Result<Compound, Error>)
    ensures r.Success? <==> MatchesCompoundPattern(Trim(compound))
    ensures r.Failure? ==> r.error == InvalidCompound(compound)
    ensures r.Success? ==> r.value == Compound(CoefficientOf(Trim(compound)),
                                               compound[NumberPrefixLength(compound)..])
  {
    var t := Trim(compound);
    CompoundPatternSplit(t);
    if !SplitsAsCompound(t) then Failure(InvalidCompound(compound))
    else Success(Compound(CoefficientOf(t), compound[NumberPrefixLength(compound)..]))
  }

  /** The regular expression has only one way to match: the coefficient is the whole leading run
      of digits and dots, since a formula begins with a capital. */
  lemma CompoundPatternSplit(t: string)
    ensures MatchesCompoundPattern(t) <==> SplitsAsCompound(t)
  {
    var k := NumberPrefixLength(t);
    if MatchesCompoundPattern(t) {
      var j :| 0 <= j <= |t| && (j == 0 || IsCoefficient(t[..j])) && IsFormula(t[j..]);
      assert t[j..][0] == t[j];
      assert !IsNumberChar(t[j]);
      assert j <= k by {
        if j > 0 {
          CoefficientChars(t[..j]);
          forall i | 0 <= i < j ensures IsNumberChar(t[i]) {
            assert t[i] == t[..j][i];
          }
        }
      }
      assert j == k;
    }
    if SplitsAsCompound(t) {
      assert 0 <= k <= |t| && (k == 0 || IsCoefficient(t[..k])) && IsFormula(t[k..]);
    }
  }

  /** A coefficient consists of digits and dots. */
  lemma CoefficientChars(c: string)
    requires IsCoefficient(c)
    ensures forall i :: 0 <= i < |c| ==> IsNumberChar(c[i])
  {
    if !(|c| > 0 && AllDigits(c)) {
      var p :| 0 <= p < |c| - 1 && c[p] == '.' && AllDigits(c[..p]) && AllDigits(c[p + 1..]);
      forall i | 0 <= i < |c| ensures IsNumberChar(c[i]) {
        if i < p {
          assert c[i] == c[..p][i];
        } else if i > p {
          assert c[i] == c[p + 1..][i - p - 1];
        }
      }
    }
  }

  lemma FormulaWater()
    ensures IsFormula("H2O")
  {
    var f := "H2O";
    assert |f| == 3 && f[0] == 'H' && f[1] == '2' && f[2] == 'O';
    forall i | 0 <= i < |f|
      ensures (IsUpper(f[i]) || IsLowerLetter(f[i]) || IsDigit(f[i]))
              && (IsLowerLetter(f[i]) ==> i > 0 && IsUpper(f[i - 1]))
    {
      assert i == 0 || i == 1 || i == 2;
    }
  }

  /** The leading run of digits and dots of a + b is a, when b does not continue it. */
  lemma {:induction false} NumberPrefixOf(a: string, b: string)
    requires forall i :: 0 <= i < |a| ==> IsNumberChar(a[i])
    requires b == [] || !IsNumberChar(b[0])
    ensures NumberPrefixLength(a + b) == |a|
    decreases |a|
  {
    if a == [] {
      assert a + b == b;
    } else {
      assert (a + b)[0] == a[0];
      assert (a + b)[1..] == a[1..] + b;
      NumberPrefixOf(a[1..], b);
    }
  }

  /** A formula never starts with a digit or a dot, and does not end in whitespace. */
  lemma FormulaEnds(f: string)
    requires IsFormula(f)
    ensures !IsNumberChar(f[0]) && !IsWhitespace(f[0]) && !IsWhitespace(f[|f| - 1])
  {
  }

  /** Digits followed by a formula parse back into that count and that formula. */
  lemma ParseCountedFormula(d: string, f: string)
    requires d != [] && AllDigits(d) && IsFormula(f)
    ensures ParseCompound(d + f) == Success(Compound(DigitsValue(d) as real, f))
  {
    var t := d + f;
    FormulaEnds(f);
    assert t[0] == d[0] && t[|t| - 1] == f[|f| - 1];
    TrimToken(t);
    NumberPrefixOf(d, f);
    assert t[..|d|] == d && t[|d|..] == f;
    assert IsCoefficient(d);
    assert DotIndex(d) == |d|;
    CompoundPatternSplit(t);
  }

  /** A formula without a coefficient has coefficient 1. */
  lemma ParseBareFormula(f: string)
    requires IsFormula(f)
    ensures ParseCompound(f) == Success(Compound(1.0, f))
  {
    FormulaEnds(f);
    TrimToken(f);
    assert NumberPrefixLength(f) == 0;
    assert f[0..] == f;
    CompoundPatternSplit(f);
  }

  /** The examples of the source's documentation: "2H2O" and "H2O". */
  lemma ParseCompoundWater()
    ensures ParseCompound("2H2O") == Success(Compound(2.0, "H2O"))
    ensures ParseCompound("H2O") == Success(Compound(1.0, "H2O"))
  {
    ParseTwoWater();
    FormulaWater();
    ParseBareFormula("H2O");
  }

  lemma CoefficientHalf()
    ensures IsCoefficient("0.5") && DecimalValue("0.5") == 0.5
  {
    assert "0.5"[..1] == "0" && "0.5"[2..] == "5";
    assert DotIndex("0.5") == 1;
    assert Pow10(1) == 10.0;
  }

  lemma SplitsHalfOxygen()
    ensures SplitsAsCompound("0.5O2") && CoefficientOf("0.5O2") == 0.5
    ensures NumberPrefixLength("0.5O2") == 3 && "0.5O2"[3..] == "O2"
  {
    PrefixHalfOxygen();
    assert "0.5O2"[..3] == "0.5" && "0.5O2"[3..] == "O2";
    CoefficientHalf();
    FormulaOxygen();
  }

  lemma PrefixHalfOxygen()
    ensures NumberPrefixLength("0.5O2") == 3
  {
    assert NumberPrefixLength("O2") == 0;
    assert "5O2"[1..] == "O2";
    assert NumberPrefixLength("5O2") == 1;
    assert ".5O2"[1..] == "5O2";
    assert NumberPrefixLength(".5O2") == 2;
    assert "0.5O2"[1..] == ".5O2";
  }

  lemma FormulaOxygen()
    ensures IsFormula("O2")
  {
    var f := "O2";
    assert |f| == 2 && f[0] == 'O' && f[1] == '2';
    forall i | 0 <= i < |f|
      ensures (IsUpper(f[i]) || IsLowerLetter(f[i]) || IsDigit(f[i]))
              && (IsLowerLetter(f[i]) ==> i > 0 && IsUpper(f[i - 1]))
    {
      assert i == 0 || i == 1;
    }
  }

  /** A fractional coefficient. */
  lemma ParseCompoundHalfOxygen()
    ensures ParseCompound("0.5O2") == Success(Compound(0.5, "O2"))
  {
    TrimToken("0.5O2");
    SplitsHalfOxygen();
    CompoundPatternSplit("0.5O2");
  }

  /** A state suffix and lower-case symbols do not match. */
  lemma ParseCompoundRejections()
    ensures ParseCompound("H2O(l)") == Failure(InvalidCompound("H2O(l)"))
    ensures ParseCompound("2h2o") == Failure(InvalidCompound("2h2o"))
  {
    RejectStateSuffix();
    RejectLowerCase();
  }

  lemma RejectStateSuffix()
    ensures ParseCompound("H2O(l)") == Failure(InvalidCompound("H2O(l)"))
  {
    var t := "H2O(l)";
    assert t[0] == 'H' && t[5] == ')';
    TrimToken(t);
    assert NumberPrefixLength(t) == 0;
    assert t[0..] == t;
    assert !IsFormula(t) by {
      assert t[3] == '(';
    }
    assert !SplitsAsCompound(t);
  }

  lemma RejectLowerCase()
    ensures ParseCompound("2h2o") == Failure(InvalidCompound("2h2o"))
  {
    var t := "2h2o";
    assert t[0] == '2' && t[3] == 'o';
    TrimToken(t);
    assert t[1..] == "h2o";
    assert NumberPrefixLength("h2o") == 0;
    assert NumberPrefixLength(t) == 1;
    assert !IsFormula("h2o") by {
      assert "h2o"[0] == 'h';
    }
    assert !SplitsAsCompound(t);
  }

  /** Only the trimmed token is matched, so a leading space survives into the formula, and the
      coefficient after it is not removed: " 2H2O" gives coefficient 2 and formula " 2H2O". */
  lemma ParseCompoundKeepsPadding(t: string)
    requires ParseCompound(t).Success? && Trim(t) == t
    ensures ParseCompound(" " + t) == Success(Compound(ParseCompound(t).value.coefficient, " " + t))
    ensures !IsFormula(" " + t)
  {
    ParsedTokenEnds(t);
    TrimLeadingSpace(t);
    LeadingSpace(t);
    ParsePaddedWhole(" " + t, t);
  }

  /** A leading space is neither part of a coefficient nor the start of a formula. */
  lemma LeadingSpace(t: string)
    ensures NumberPrefixLength(" " + t) == 0 && !IsFormula(" " + t)
  {
    assert (" " + t)[0] == ' ';
  }

  lemma ParsePaddedWhole(c: string, t: string)
    requires Trim(c) == t && Trim(t) == t && ParseCompound(t).Success? && NumberPrefixLength(c) == 0
    ensures ParseCompound(c) == Success(Compound(ParseCompound(t).value.coefficient, c))
  {
    assert c[0..] == c;
    ParsePadded(c, t);
  }

  /** A trimmed token that parses is non-empty, so neither of its ends is whitespace. */
  lemma ParsedTokenEnds(t: string)
    requires ParseCompound(t).Success? && Trim(t) == t
    ensures t != [] && !IsWhitespace(t[0]) && !IsWhitespace(t[|t| - 1])
  {
    CompoundPatternSplit(t);
    assert t[NumberPrefixLength(t)..] != [];
  }

  lemma TrimLeadingSpace(t: string)
    requires t != [] && !IsWhitespace(t[0]) && !IsWhitespace(t[|t| - 1])
    ensures Trim(" " + t) == t
  {
    assert AllWhitespace(" ") && AllWhitespace("");
    assert " " + t + "" == " " + t;
    TrimPadded(" ", t, "");
  }

  /** A padded token parses to the coefficient of its trimmed form, but keeps the padding in
      its formula. */
  lemma ParsePadded(c: string, t: string)
    requires Trim(c) == t && Trim(t) == t && ParseCompound(t).Success?
    ensures ParseCompound(c) == Success(Compound(ParseCompound(t).value.coefficient,
                                                 c[NumberPrefixLength(c)..]))
  {
  }

  lemma ParseTwoWater()
    ensures ParseCompound("2H2O") == Success(Compound(2.0, "H2O"))
  {
    FormulaWater();
    assert "2H2O" == "2" + "H2O";
    assert DigitsValue("2") == 2 by {
      assert "2"[..0] == "";
    }
    ParseCountedFormula("2", "H2O");
  }

  /** parseCompound taking the formula from the trimmed token, the token it matched. */
  function ParseCompoundCorrected(compound: string): (r: Result<Compound, Error>)
    ensures r.Success? <==> MatchesCompoundPattern(Trim(compound))
    ensures r.Failure? ==> r.error == InvalidCompound(compound)
    ensures r.Success? ==> IsFormula(r.value.formula) && r.value.coefficient == CoefficientOf(Trim(compound))
  {
    var t := Trim(compound);
    CompoundPatternSplit(t);
    if !SplitsAsCompound(t) then Failure(InvalidCompound(compound))
    else Success(Compound(CoefficientOf(t), t[NumberPrefixLength(t)..]))
  }

  /** The corrected parse depends only on the trimmed token. */
  lemma ParseCompoundCorrectedTrimInvariant(compound: string)
    requires ParseCompoundCorrected(compound).Success?
    ensures ParseCompoundCorrected(Trim(compound)) == ParseCompoundCorrected(compound)
  {
    var t := Trim(compound);
    TrimIdempotent(compound);
    assert Trim(t) == t;
  }

  /** On a token without surrounding whitespace the corrected parse is the source's. */
  lemma ParseCompoundCorrectedAgrees(compound: string)
    requires Trim(compound) == compound
    ensures ParseCompoundCorrected(compound) == ParseCompound(compound)
  {
  }

  // ---------- Moles and mass ----------

  /** `calculateMol(mass, Mr)`: mass / Mr to four decimals; a zero Mr throws, NaN propagates. */
  function CalculateMol(mass: JsValue, mr: JsValue): (r: Result<JsNumber, Error>)
    ensures r.Failure? <==> mass.NonNumber? || mr.NonNumber? || mr == Num(0.0)
    ensures r.Failure? ==> r.error == InvalidInput
    ensures r.Success? && (mass.NaN? || mr.NaN?) ==> r.value == NotANumber
    ensures r.Success? && mass.Num? && mr.Num? ==>
              r.value.Finite? && Abs(r.value.value - mass.value / mr.value) <= 0.00005
  {
    if mass.NonNumber? || mr.NonNumber? || mr == Num(0.0) then Failure(InvalidInput)
    else if mass.NaN? || mr.NaN? then Success(NotANumber)
    else
      assert Pow10(4) == 10000.0;
      Success(RoundNumber(JsDivide(mass.value, mr.value), 4))
  }

  /** `calculateMass(mol, Mr)`: mol * Mr to two decimals; NaN propagates. */
  function CalculateMass(mol: JsValue, mr: JsValue): (r: Result<JsNumber, Error>)
    ensures r.Failure? <==> mol.NonNumber? || mr.NonNumber?
    ensures r.Failure? ==> r.error == InvalidInput
    ensures r.Success? && (mol.NaN? || mr.NaN?) ==> r.value == NotANumber
    ensures r.Success? && mol.Num? && mr.Num? ==>
              r.value.Finite? && Abs(r.value.value - mol.value * mr.value) <= 0.005
  {
    if mol.NonNumber? || mr.NonNumber? then Failure(InvalidInput)
    else if mol.NaN? || mr.NaN? then Success(NotANumber)
    else
      assert Pow10(2) == 100.0;
      Success(RoundNumber(Finite(mol.value * mr.value), 2))
  }

  /** Converting a mass to moles and back loses at most the two roundings:
      |mass' - mass| <= |Mr| / 20000 + 0.005. */
  lemma MassMolRoundTrip(mass: real, mr: real)
    requires mr != 0.0
    ensures CalculateMol(Num(mass), Num(mr)).Success?
    ensures CalculateMol(Num(mass), Num(mr)).value.Finite?
    ensures CalculateMass(Num(CalculateMol(Num(mass), Num(mr)).value.value), Num(mr)).Success?
    ensures Abs(CalculateMass(Num(CalculateMol(Num(mass), Num(mr)).value.value), Num(mr)).value.value - mass)
            <= Abs(mr) * 0.00005 + 0.005
  {
    var mol := MolOf(mass, mr);
    var back := MassOf(mol, mr);
    MolError(mass, mr, mol);
    Triangle(back, mol * mr, mass, 0.005, Abs(mr) * 0.00005);
  }

  lemma MolOf(mass: real, mr: real) returns (mol: real)
    requires mr != 0.0
    ensures CalculateMol(Num(mass), Num(mr)) == Success(Finite(mol))
    ensures Abs(mol - mass / mr) <= 0.00005
  {
    mol := CalculateMol(Num(mass), Num(mr)).value.value;
  }

  lemma MassOf(mol: real, mr: real) returns (mass: real)
    ensures CalculateMass(Num(mol), Num(mr)) == Success(Finite(mass))
    ensures Abs(mass - mol * mr) <= 0.005
  {
    mass := CalculateMass(Num(mol), Num(mr)).value.value;
  }

  lemma Triangle(x: real, y: real, z: real, a: real, b: real)
    requires Abs(x - y) <= a && Abs(y - z) <= b
    ensures Abs(x - z) <= b + a
  {
  }

  /** A quotient known to within b, multiplied back, is known to within |m| b. */
  lemma MolError(mass: real, mr: real, mol: real)
    requires mr != 0.0 && Abs(mol - mass / mr) <= 0.00005
    ensures Abs(mol * mr - mass) <= Abs(mr) * 0.00005
  {
    var e := mol - mass / mr;
    assert (mass / mr) * mr == mass;
    assert mol * mr - mass == e * mr;
    ProductBound(e, mr, 0.00005);
  }

  lemma ProductBound(e: real, m: real, b: real)
    requires Abs(e) <= b
    ensures Abs(e * m) <= Abs(m) * b
  {
    if e >= 0.0 && m >= 0.0 {
      assert e * m <= b * m;
    } else if e >= 0.0 {
      assert e * (-m) <= b * (-m);
    } else if m >= 0.0 {
      assert (-e) * m <= b * m;
    } else {
      assert (-e) * (-m) <= b * (-m);
    }
  }

  /** A zero molar mass is rejected by calculateMol but not by calculateMass. */
  lemma ZeroMolarMass(x: real)
    ensures CalculateMol(Num(x), Num(0.0)) == Failure(InvalidInput)
    ensures CalculateMass(Num(x), Num(0.0)) == Success(Finite(0.0))
  {
    assert x * 0.0 == 0.0;
    RoundToExact(0.0, 2);
  }
}
