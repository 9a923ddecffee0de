/** The reference tables (setup-project/src/utils/ThermochemistryData.js) and their lookups:
    standard formation enthalpies in kJ/mol, average bond energies in kJ/mol and specific heats
    in J/(g °C). Each lookup is `Array.prototype.find`: the first entry that matches, or null. */
module ThermochemistryData {
  import opened Wrappers
  import opened JsStrings

  datatype Phase = Gas | Liquid | Aqueous | Solid

  datatype FormationRecord = FormationRecord(formula: string, name: string, hf: real, state: Phase)

  datatype BondRecord = BondRecord(bond: string, energy: real)

  datatype SpecificHeatRecord = SpecificHeatRecord(substance: string, c: real, state: Phase, common: bool)

  /** Standard formation enthalpies at 25 °C and 1 atm. */
  const ENTHALPY_FORMATION: seq<FormationRecord> := [
    FormationRecord("H2O(g)", "Uap air", -241.8, Gas),
    FormationRecord("CO2(g)", "Karbon dioksida", -393.5, Gas),
    FormationRecord("CO(g)", "Karbon monoksida", -110.5, Gas),
    FormationRecord("NH3(g)", "Amonia", -46.1, Gas),
    FormationRecord("NO(g)", "Nitrogen monoksida", 90.3, Gas),
    FormationRecord("NO2(g)", "Nitrogen dioksida", 33.2, Gas),
    FormationRecord("SO2(g)", "Sulfur dioksida", -296.8, Gas),
    FormationRecord("SO3(g)", "Sulfur trioksida", -395.7, Gas),
    FormationRecord("H2S(g)", "Hidrogen sulfida", -20.6, Gas),
    FormationRecord("HCl(g)", "Hidrogen klorida", -92.3, Gas),
    FormationRecord("HBr(g)", "Hidrogen bromida", -36.4, Gas),
    FormationRecord("HI(g)", "Hidrogen iodida", 26.5, Gas),
    FormationRecord("CH4(g)", "Metana", -74.8, Gas),
    FormationRecord("C2H6(g)", "Etana", -84.7, Gas),
    FormationRecord("C3H8(g)", "Propana", -103.8, Gas),
    FormationRecord("C2H4(g)", "Etena", 52.3, Gas),
    FormationRecord("C2H2(g)", "Etuna (asetilena)", 226.7, Gas),
    FormationRecord("H2O(l)", "Air", -285.8, Liquid),
    FormationRecord("CH3OH(l)", "Metanol", -238.7, Liquid),
    FormationRecord("C2H5OH(l)", "Etanol", -277.7, Liquid),
    FormationRecord("C6H6(l)", "Benzena", 49.0, Liquid),
    FormationRecord("CCl4(l)", "Karbon tetraklorida", -135.4, Liquid),
    FormationRecord("CHCl3(l)", "Kloroform", -134.5, Liquid),
    FormationRecord("HCl(aq)", "Asam klorida", -167.2, Aqueous),
    FormationRecord("HNO3(aq)", "Asam nitrat", -207.4, Aqueous),
    FormationRecord("H2SO4(aq)", "Asam sulfat", -909.3, Aqueous),
    FormationRecord("NaOH(aq)", "Natrium hidroksida", -470.1, Aqueous),
    FormationRecord("CaCO3(s)", "Kalsium karbonat", -1206.9, Solid),
    FormationRecord("CaO(s)", "Kalsium oksida", -635.1, Solid),
    FormationRecord("Fe2O3(s)", "Besi(III) oksida", -824.2, Solid),
    FormationRecord("Al2O3(s)", "Aluminium oksida", -1675.7, Solid),
    FormationRecord("NaCl(s)", "Natrium klorida", -411.2, Solid),
    FormationRecord("MgO(s)", "Magnesium oksida", -601.7, Solid)
  ]

  /** Average bond energies; C=O is listed twice, first for ketones, then for CO2. */
  const BOND_ENERGIES: seq<BondRecord> := [
    BondRecord("H-H", 436.0), BondRecord("C-H", 413.0), BondRecord("C-C", 348.0),
    BondRecord("C=C", 614.0), BondRecord("C≡C", 839.0), BondRecord("C-O", 358.0),
    BondRecord("C=O", 799.0), BondRecord("C=O", 745.0), BondRecord("O-H", 463.0),
    BondRecord("O=O", 495.0), BondRecord("N-H", 391.0), BondRecord("N≡N", 941.0),
    BondRecord("Cl-Cl", 243.0), BondRecord("Br-Br", 193.0), BondRecord("I-I", 151.0),
    BondRecord("H-Cl", 431.0), BondRecord("H-Br", 366.0), BondRecord("H-I", 298.0),
    BondRecord("S-H", 339.0), BondRecord("S=O", 523.0)
  ]

  /** Specific heats. */
  const SPECIFIC_HEATS: seq<SpecificHeatRecord> := [
    SpecificHeatRecord("Air (H2O)", 4.18, Liquid, true),
    SpecificHeatRecord("Es (H2O)", 2.09, Solid, true),
    SpecificHeatRecord("Uap air (H2O)", 2.01, Gas, false),
    SpecificHeatRecord("Aluminium (Al)", 0.897, Solid, true),
    SpecificHeatRecord("Tembaga (Cu)", 0.385, Solid, true),
    SpecificHeatRecord("Besi (Fe)", 0.449, Solid, true),
    SpecificHeatRecord("Emas (Au)", 0.129, Solid, false),
    SpecificHeatRecord("Perak (Ag)", 0.235, Solid, false),
    SpecificHeatRecord("Timbal (Pb)", 0.128, Solid, false),
    SpecificHeatRecord("Kaca", 0.84, Solid, true),
    SpecificHeatRecord("Beton", 0.88, Solid, false),
    SpecificHeatRecord("Kayu", 1.76, Solid, false),
    SpecificHeatRecord("Etanol (C2H5OH)", 2.44, Liquid, true),
    SpecificHeatRecord("Minyak zaitun", 2.0, Liquid, false),
    SpecificHeatRecord("Udara", 1.01, Gas, true)
  ]

  /** The position `Array.prototype.find` stops at: the first entry satisfying p, if any. */
  function FindIndex<T>(s: seq<T>, p: T -> bool): (r: Option<nat>)
    ensures r.None? <==> forall j :: 0 <= j < |s| ==> !p(s[j])
    ensures r.Some? ==> r.value < |s| && p(s[r.value]) && forall j :: 0 <= j < r.value ==> !p(s[j])
  {
    if s == [] then None
    else if p(s[0]) then Some(0)
    else match FindIndex(s[1..], p)
      case None => None
      case Some(i) =>
        assert forall j :: 1 <= j <= i + 1 ==> s[j] == s[1..][j - 1];
        Some(i + 1)
  }

  /** The first record of a table with exactly that formula. */
  function FindFormationIn(table: seq<FormationRecord>, formula: string): (r: Option<FormationRecord>)
    ensures r.None? <==> forall j :: 0 <= j < |table| ==> table[j].formula != formula
    ensures r.Some? ==> r.value.formula == formula
    ensures r.Some? ==>
              (exists i :: 0 <= i < |table| && table[i] == r.value &&
                 forall j :: 0 <= j < i ==> table[j].formula != formula)
  {
    match FindIndex(table, (rec: FormationRecord) => rec.formula == formula)
    case None => None
    case Some(i) => Some(table[i])
  }

  /** `findEnthalpyFormation(formula)`. */
  function FindEnthalpyFormation(formula: string): (r: Option<FormationRecord>)
    ensures r.None? <==> forall j :: 0 <= j < |ENTHALPY_FORMATION| ==> ENTHALPY_FORMATION[j].formula != formula
    ensures r.Some? ==> r.value in ENTHALPY_FORMATION && r.value.formula == formula
  {
    FindFormationIn(ENTHALPY_FORMATION, formula)
  }

  /** The energy of the first entry of a table with exactly that key. */
  function FindBondIn(table: seq<BondRecord>, bondType: string): (r: Option<real>)
    ensures r.None? <==> forall j :: 0 <= j < |table| ==> table[j].bond != bondType
    ensures r.Some? ==>
              (exists i :: 0 <= i < |table| && table[i].bond == bondType && table[i].energy == r.value &&
                 forall j :: 0 <= j < i ==> table[j].bond != bondType)
  {
    match FindIndex(table, (rec: BondRecord) => rec.bond == bondType)
    case None => None
    case Some(i) => Some(table[i].energy)
  }

  /** `findBondEnergy(bondType)`. */
  function FindBondEnergy(bondType: string): (r: Option<real>)
    ensures r.None? <==> forall j :: 0 <= j < |BOND_ENERGIES| ==> BOND_ENERGIES[j].bond != bondType
    ensures r.Some? ==> exists i :: 0 <= i < |BOND_ENERGIES| && BOND_ENERGIES[i].bond == bondType
                                    && BOND_ENERGIES[i].energy == r.value
  {
    FindBondIn(BOND_ENERGIES, bondType)
  }

  /** The specific-heat search criterion: the lower-cased name contains the lower-cased query. */
  predicate NameMatches(rec: SpecificHeatRecord, substance: string)
  {
    Includes(Lower(rec.substance), Lower(substance))
  }

  /** c of the first entry of a table whose name contains the query, ignoring case. */
  function FindSpecificHeatIn(table: seq<SpecificHeatRecord>, substance: string): (r: Option<real>)
    ensures r.None? <==> forall j :: 0 <= j < |table| ==> !NameMatches(table[j], substance)
    ensures r.Some? ==>
              (exists i :: 0 <= i < |table| && NameMatches(table[i], substance) && table[i].c == r.value &&
                 forall j :: 0 <= j < i ==> !NameMatches(table[j], substance))
  {
    match FindIndex(table, (rec: SpecificHeatRecord) => NameMatches(rec, substance))
    case None => None
    case Some(i) => Some(table[i].c)
  }

  /** `findSpecificHeat(substance)`. */
  function FindSpecificHeat(substance: string): (r: Option<real>)
    ensures r.None? <==> forall j :: 0 <= j < |SPECIFIC_HEATS| ==> !NameMatches(SPECIFIC_HEATS[j], substance)
    ensures r.Some? ==> exists i :: 0 <= i < |SPECIFIC_HEATS| && NameMatches(SPECIFIC_HEATS[i], substance)
                                    && SPECIFIC_HEATS[i].c == r.value
  {
    FindSpecificHeatIn(SPECIFIC_HEATS, substance)
  }

  /** The search does not depend on the letter case of the query. */
  lemma SpecificHeatIgnoresCase(table: seq<SpecificHeatRecord>, q1: string, q2: string)
    requires Lower(q1) == Lower(q2)
    ensures FindSpecificHeatIn(table, q1) == FindSpecificHeatIn(table, q2)
  {
    var r1, r2 := FindSpecificHeatIn(table, q1), FindSpecificHeatIn(table, q2);
    assert forall rec :: NameMatches(rec, q1) == NameMatches(rec, q2);
    if r1.Some? {
      var i1 :| 0 <= i1 < |table| && NameMatches(table[i1], q1) && table[i1].c == r1.value &&
                forall j :: 0 <= j < i1 ==> !NameMatches(table[j], q1);
      var i2 :| 0 <= i2 < |table| && NameMatches(table[i2], q2) && table[i2].c == r2.value &&
                forall j :: 0 <= j < i2 ==> !NameMatches(table[j], q2);
      assert i1 == i2;
    }
  }

  /** In particular, a query and its lower-cased form give the same result. */
  lemma SpecificHeatLowerQuery(q: string)
    ensures FindSpecificHeat(Lower(q)) == FindSpecificHeat(q)
  {
    LowerIdempotent(q);
    SpecificHeatIgnoresCase(SPECIFIC_HEATS, Lower(q), q);
  }

  /** A lookup returns the entry at the first position that matches. */
  lemma FormationFirstAt(table: seq<FormationRecord>, formula: string, i: nat)
    requires i < |table| && table[i].formula == formula
    requires forall j :: 0 <= j < i ==> table[j].formula != formula
    ensures FindFormationIn(table, formula) == Some(table[i])
  {
    var r := FindFormationIn(table, formula);
    var k :| 0 <= k < |table| && table[k] == r.value &&
             forall j :: 0 <= j < k ==> table[j].formula != formula;
    assert k == i;
  }

  lemma BondFirstAt(table: seq<BondRecord>, bondType: string, i: nat)
    requires i < |table| && table[i].bond == bondType
    requires forall j :: 0 <= j < i ==> table[j].bond != bondType
    ensures FindBondIn(table, bondType) == Some(table[i].energy)
  {
    var r := FindBondIn(table, bondType);
    var k :| 0 <= k < |table| && table[k].bond == bondType && table[k].energy == r.value &&
             forall j :: 0 <= j < k ==> table[j].bond != bondType;
    assert k == i;
  }

  lemma SpecificHeatFirstAt(table: seq<SpecificHeatRecord>, substance: string, i: nat)
    requires i < |table| && NameMatches(table[i], substance)
    requires forall j :: 0 <= j < i ==> !NameMatches(table[j], substance)
    ensures FindSpecificHeatIn(table, substance) == Some(table[i].c)
  {
    var r := FindSpecificHeatIn(table, substance);
    var k :| 0 <= k < |table| && NameMatches(table[k], substance) && table[k].c == r.value &&
             forall j :: 0 <= j < k ==> !NameMatches(table[j], substance);
    assert k == i;
  }

  /** Methane's formation enthalpy is found at CH4(g). */
  lemma FormationMethane()
    ensures FindEnthalpyFormation("CH4(g)") == Some(FormationRecord("CH4(g)", "Metana", -74.8, Gas))
  {
    assert forall j :: 0 <= j < 12 ==> ENTHALPY_FORMATION[j].formula != "CH4(g)";
    FormationFirstAt(ENTHALPY_FORMATION, "CH4(g)", 12);
  }

  /** Every formula of the formation table ends with its phase in parentheses. */
  lemma FormationPhaseSuffix()
    ensures forall j :: 0 <= j < |ENTHALPY_FORMATION| ==>
      |ENTHALPY_FORMATION[j].formula| > 0 &&
      ENTHALPY_FORMATION[j].formula[|ENTHALPY_FORMATION[j].formula| - 1] == ')'
  {
  }

  /** A formula written without its phase, such as "H2O", matches no record. */
  lemma FormationNeedsPhase(formula: string)
    requires formula == [] || formula[|formula| - 1] != ')'
    ensures FindEnthalpyFormation(formula) == None
  {
    FormationPhaseSuffix();
  }

  lemma FormationWaterWithoutPhase()
    ensures FindEnthalpyFormation("H2O") == None
  {
    FormationNeedsPhase("H2O");
  }

  /** The first of the two C=O entries wins. */
  lemma BondCarbonylExample()
    ensures FindBondEnergy("C=O") == Some(799.0)
  {
    assert forall j :: 0 <= j < 6 ==> BOND_ENERGIES[j].bond != "C=O";
    BondFirstAt(BOND_ENERGIES, "C=O", 6);
  }

  /** "air" is found in "Air (H2O)", the first entry, although "Uap air (H2O)" matches too. */
  lemma SpecificHeatAirExample()
    ensures FindSpecificHeat("air") == Some(4.18)
    ensures NameMatches(SPECIFIC_HEATS[2], "air")
  {
    AirInFirstName();
    SpecificHeatFirstAt(SPECIFIC_HEATS, "air", 0);
    AirInVapourName();
  }

  lemma AirInFirstName()
    ensures NameMatches(SPECIFIC_HEATS[0], "air")
  {
    var n := SPECIFIC_HEATS[0].substance;
    assert n == "Air (H2O)";
    assert n[0..3] == "Air";
    AirInName(n, 0, "Air");
  }

  lemma AirInVapourName()
    ensures NameMatches(SPECIFIC_HEATS[2], "air")
  {
    var n := SPECIFIC_HEATS[2].substance;
    assert n == "Uap air (H2O)";
    assert n[4..7] == "air";
    AirInName(n, 4, "air");
  }

  /** "air" occurs in the lower-cased name at position i. */
  lemma AirInName(name: string, i: nat, w: string)
    requires i + 3 <= |name| && name[i..i + 3] == w && (w == "Air" || w == "air")
    ensures Includes(Lower(name), Lower("air"))
  {
    assert Lower("air") == "air";
    assert Lower(w) == "air";
    assert Lower(name)[i..i + 3] == Lower(w);
    assert OccursAt(Lower(name), "air", i);
  }

  /** The empty query is contained in every name, so it returns the first entry. */
  lemma SpecificHeatEmptyQuery()
    ensures FindSpecificHeat("") == Some(4.18)
  {
    assert Lower("") == "";
    assert OccursAt(Lower("Air (H2O)"), "", 0);
    SpecificHeatFirstAt(SPECIFIC_HEATS, "", 0);
  }
}
