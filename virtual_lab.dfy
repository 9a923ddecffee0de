/** The virtual calorimetry bench: pick an experiment, add both chemicals, start the run and
    watch the temperature ramp for 60 seconds, then save trials of the heat released or
    absorbed. The clock is kept in whole tenths of a second. */
module VirtualLab {
  import opened Wrappers
  import opened Numerics
  import EnthalpyCalculations

  datatype ExperimentKind = Neutralization | Endothermic | Exothermic | Combustion

  /** `type` of an experiment: "eksoterm" or "endoterm". */
  datatype Nature = Exo | Endo

  datatype Experiment = Experiment(name: string, chem1: string, chem2: string,
                                   deltaT: real, deltaH: real, nature: Nature)

  // Subscripts two, three, four and five.
  const SUB2: string := "\U{2082}"
  const SUB3: string := "\U{2083}"
  const SUB4: string := "\U{2084}"
  const SUB5: string := "\U{2085}"

  function ExperimentOf(k: ExperimentKind): Experiment
  {
    match k
    case Neutralization => Experiment("Netralisasi Asam-Basa", "HCl 1M", "NaOH 1M", 6.5, -57.1, Exo)
    case Endothermic =>
      Experiment("Pelarutan NH" + SUB4 + "NO" + SUB3, "NH" + SUB4 + "NO" + SUB3, "Air", -5.2, 25.7, Endo)
    case Exothermic => Experiment("Pelarutan CaCl" + SUB2, "CaCl" + SUB2, "Air", 8.3, -82.8, Exo)
    case Combustion =>
      Experiment("Pembakaran Etanol", "C" + SUB2 + "H" + SUB5 + "OH", "Air", 12.5, -1367.0, Exo)
  }

  /** The data is consistent: an experiment is exothermic iff it warms the calorimeter iff
      its enthalpy change is negative. */
  lemma NatureMatchesSigns(k: ExperimentKind)
    ensures ExperimentOf(k).nature == Exo <==> ExperimentOf(k).deltaT > 0.0
    ensures ExperimentOf(k).nature == Exo <==> ExperimentOf(k).deltaH < 0.0
  {
  }

  // ---------------------------------------------------------------- run constants and the ramp

  /** 60 seconds, in tenths. */
  const RUN_END: nat := 600
  /** The temperature reaches its end value after 30 seconds. */
  const RAMP_END: nat := 300
  /** The specific heat the lab uses for the mixture, J/(g °C). */
  const WATER_C: real := 4.18

  /** `initialTemp + deltaT * Math.min((t / 60) * 2, 1)` at t = k tenths of a second. */
  function Ramp(initialTemp: real, deltaT: real, k: nat): (temp: real)
    ensures k == 0 ==> temp == initialTemp
    ensures k >= RAMP_END ==> temp == initialTemp + deltaT
  {
    var f := Fraction(k);
    initialTemp + deltaT * f
  }

  function Fraction(k: nat): (f: real)
    ensures 0.0 <= f <= 1.0
    ensures k >= RAMP_END ==> f == 1.0
  {
    var f := Min(k as real / RAMP_END as real, 1.0);
    assert k >= RAMP_END ==> k as real / RAMP_END as real >= 1.0;
    f
  }

  /** The ramp starts at the initial temperature. */
  lemma RampStart(initialTemp: real, deltaT: real)
    ensures Ramp(initialTemp, deltaT, 0) == initialTemp
  {
  }

  /** The temperature stays between the initial and the end value, whichever sign deltaT has. */
  lemma RampBetween(initialTemp: real, deltaT: real, k: nat)
    ensures Min(initialTemp, initialTemp + deltaT) <= Ramp(initialTemp, deltaT, k)
                                                  <= Max(initialTemp, initialTemp + deltaT)
  {
    var f := Fraction(k);
    assert Ramp(initialTemp, deltaT, k) == initialTemp + deltaT * f;
    if deltaT >= 0.0 {
      assert 0.0 <= deltaT * f <= deltaT;
    } else {
      assert deltaT <= deltaT * f <= 0.0;
    }
  }

  /** From 30 seconds on the temperature is the end value. */
  lemma RampSettled(initialTemp: real, deltaT: real, k: nat)
    requires k >= RAMP_END
    ensures Ramp(initialTemp, deltaT, k) == initialTemp + deltaT
  {
    var f := Fraction(k);
    assert f == 1.0;
  }

  lemma FractionMonotone(k1: nat, k2: nat)
    requires k1 <= k2
    ensures Fraction(k1) <= Fraction(k2)
  {
    assert k1 as real / RAMP_END as real <= k2 as real / RAMP_END as real;
  }

  lemma NonNegativeProduct(a: real, b: real)
    ensures a >= 0.0 && b >= 0.0 ==> a * b >= 0.0
  {
  }

  /** A warming run never cools and a cooling run never warms. */
  lemma RampMonotone(initialTemp: real, deltaT: real, k1: nat, k2: nat)
    requires k1 <= k2
    ensures deltaT >= 0.0 ==> Ramp(initialTemp, deltaT, k1) <= Ramp(initialTemp, deltaT, k2)
    ensures deltaT <= 0.0 ==> Ramp(initialTemp, deltaT, k1) >= Ramp(initialTemp, deltaT, k2)
  {
    FractionMonotone(k1, k2);
    var g := Fraction(k2) - Fraction(k1);
    RampDifference(initialTemp, deltaT, k1, k2);
    ProductSign(deltaT, g);
  }

  /** How far the ramp moves between two instants. */
  lemma RampDifference(initialTemp: real, deltaT: real, k1: nat, k2: nat)
    ensures Ramp(initialTemp, deltaT, k2) - Ramp(initialTemp, deltaT, k1)
            == deltaT * (Fraction(k2) - Fraction(k1))
  {
    var f1, f2 := Fraction(k1), Fraction(k2);
    assert deltaT * (f2 - f1) == deltaT * f2 - deltaT * f1;
  }

  lemma ProductSign(c: real, g: real)
    requires g >= 0.0
    ensures c >= 0.0 ==> c * g >= 0.0
    ensures c <= 0.0 ==> c * g <= 0.0
  {
  }

  // ---------------------------------------------------------------- recorded series and trials

  /** A point of `tempData`; the time is k tenths of a second. */
  datatype Point = Point(tenths: int, temp: real)

  /** The series a run has recorded after n ticks. */
  function Series(initialTemp: real, deltaT: real, n: nat): (s: seq<Point>)
    ensures |s| == n + 1
  {
    seq(n + 1, k requires 0 <= k <= n => Point(k, Ramp(initialTemp, deltaT, k)))
  }

  /** One more tick appends exactly one point and keeps the earlier ones. */
  lemma SeriesSnoc(initialTemp: real, deltaT: real, n: nat)
    ensures Series(initialTemp, deltaT, n + 1)
         == Series(initialTemp, deltaT, n) + [Point(n + 1, Ramp(initialTemp, deltaT, n + 1))]
  {
    var a := Series(initialTemp, deltaT, n + 1);
    var b := Series(initialTemp, deltaT, n) + [Point(n + 1, Ramp(initialTemp, deltaT, n + 1))];
    forall k | 0 <= k <= n + 1
      ensures a[k] == b[k]
    {
      if k <= n {
        assert b[k] == Series(initialTemp, deltaT, n)[k];
      }
    }
  }

  /** A full run records 601 points, the first at the initial temperature and the last at
      the end value. */
  lemma FullRun(initialTemp: real, deltaT: real)
    ensures |Series(initialTemp, deltaT, RUN_END)| == RUN_END + 1
    ensures Series(initialTemp, deltaT, RUN_END)[0].temp == initialTemp
    ensures Series(initialTemp, deltaT, RUN_END)[RUN_END].temp == initialTemp + deltaT
  {
    RampSettled(initialTemp, deltaT, RUN_END);
  }

  /** `(mass1 + mass2) * 4.18 * Math.abs(deltaT)`. */
  function TrialHeat(mass1: real, mass2: real, deltaT: real): (q: real)
    ensures mass1 >= 0.0 && mass2 >= 0.0 ==> q >= 0.0
    ensures deltaT == 0.0 ==> q == 0.0
  {
    NonNegativeProduct(mass1 + mass2, WATER_C);
    NonNegativeProduct((mass1 + mass2) * WATER_C, Abs(deltaT));
    (mass1 + mass2) * WATER_C * Abs(deltaT)
  }

  /** The heat of a trial is never negative for non-negative masses, whatever the sign of
      the temperature change. */
  lemma TrialHeatNonNegative(mass1: real, mass2: real, deltaT: real)
    requires mass1 >= 0.0 && mass2 >= 0.0
    ensures TrialHeat(mass1, mass2, deltaT) >= 0.0
    ensures RoundTo(TrialHeat(mass1, mass2, deltaT), 2) >= 0.0
  {
    var m := mass1 + mass2;
    assert m * WATER_C >= 0.0;
    assert TrialHeat(mass1, mass2, deltaT) == (m * WATER_C) * Abs(deltaT);
    RoundToNonNegative(TrialHeat(mass1, mass2, deltaT), 2);
  }

  /** The stored heat is the joule figure `calculateHeat` reports for the total mass, the
      lab's specific heat and the magnitude of the temperature change. */
  lemma TrialHeatIsCalculateHeat(mass1: real, mass2: real, deltaT: real)
    ensures EnthalpyCalculations.CalculateHeat(EnthalpyCalculations.Num(mass1 + mass2),
                                               EnthalpyCalculations.Num(WATER_C),
                                               EnthalpyCalculations.Num(Abs(deltaT)))
            == Success(EnthalpyCalculations.HeatFromJoules(TrialHeat(mass1, mass2, deltaT)))
    ensures EnthalpyCalculations.HeatFromJoules(TrialHeat(mass1, mass2, deltaT)).joules
            == RoundTo(TrialHeat(mass1, mass2, deltaT), 2)
  {
    var q := TrialHeat(mass1, mass2, deltaT);
    assert EnthalpyCalculations.Joules(mass1 + mass2, WATER_C, Abs(deltaT)) == q;
    var r := EnthalpyCalculations.CalculateHeat(EnthalpyCalculations.Num(mass1 + mass2),
                                                EnthalpyCalculations.Num(WATER_C),
                                                EnthalpyCalculations.Num(Abs(deltaT)));
    assert r.Success? && r.value == EnthalpyCalculations.HeatFromJoules(q);
  }

  /** A saved trial; `q` is the value of its two-decimal text. */
  datatype Trial = Trial(experiment: string, mass1: real, mass2: real, initialTemp: real,
                         finalTemp: real, deltaT: real, q: real)

  // ---------------------------------------------------------------- the bench

  class Lab {
    var experiment: ExperimentKind
    var isRunning: bool
    var tenths: int
    var temperature: real
    var initialTemp: real
    var mass1: real
    var mass2: real
    var selected1: bool
    var selected2: bool
    var mixing: bool
    var tempData: seq<Point>
    var trials: seq<Trial>
    /** The initial temperature of the run `tempData` belongs to. */
    ghost var runStart: real

    function DeltaT(): real
      reads this
    {
      ExperimentOf(experiment).deltaT
    }

    /** The clock stays within the run; a running bench is mixing and has not reached the
        end; the series is the ramp of the current run up to the clock and ends at the
        displayed temperature. */
    ghost predicate Valid()
      reads this
    {
      && 0 <= tenths <= RUN_END
      && (isRunning ==> tenths < RUN_END && mixing && tempData != [] && initialTemp == runStart)
      && (tempData == [] ==> tenths == 0)
      && (tempData != [] ==> tempData == Series(runStart, DeltaT(), tenths)
                             && temperature == tempData[|tempData| - 1].temp)
    }

    constructor ()
      ensures experiment == Neutralization && !isRunning && tenths == 0
      ensures temperature == 25.0 && initialTemp == 25.0 && mass1 == 50.0 && mass2 == 50.0
      ensures !selected1 && !selected2 && !mixing && tempData == [] && trials == []
      ensures Valid()
    {
      experiment := Neutralization;
      isRunning := false;
      tenths := 0;
      temperature := 25.0;
      initialTemp := 25.0;
      mass1 := 50.0;
      mass2 := 50.0;
      selected1 := false;
      selected2 := false;
      mixing := false;
      tempData := [];
      trials := [];
      runStart := 25.0;
    }

    /** One 100 ms interval: advance the clock, set and record the ramp temperature and
        stop on reaching 60 seconds. */
    method Tick()
      requires Valid()
      modifies this
      ensures Valid()
      ensures old(isRunning && tenths < RUN_END) ==>
        && tenths == old(tenths) + 1
        && temperature == Ramp(initialTemp, DeltaT(), tenths)
        && tempData == old(tempData) + [Point(tenths, temperature)]
        && isRunning == (tenths < RUN_END)
      ensures !old(isRunning && tenths < RUN_END) ==>
        tenths == old(tenths) && temperature == old(temperature) && tempData == old(tempData)
        && isRunning == old(isRunning)
      ensures experiment == old(experiment) && initialTemp == old(initialTemp)
      ensures mass1 == old(mass1) && mass2 == old(mass2) && trials == old(trials)
      ensures selected1 == old(selected1) && selected2 == old(selected2) && mixing == old(mixing)
    {
      if isRunning && tenths < RUN_END {
        var next := tenths + 1;
        var temp := Ramp(initialTemp, DeltaT(), next);
        SeriesSnoc(runStart, DeltaT(), tenths);
        temperature := temp;
        tempData := tempData + [Point(next, temp)];
        if next >= RUN_END {
          isRunning := false;
          tenths := RUN_END;
        } else {
          tenths := next;
        }
      }
    }

    /** `startExperiment`, reachable while the bench is idle: nothing happens until both
        chemicals are in. */
    method Start()
      requires Valid()
      modifies this
      ensures Valid()
      ensures old(!isRunning && selected1 && selected2) ==>
        && isRunning && mixing && tenths == 0 && temperature == initialTemp
        && tempData == [Point(0, initialTemp)]
      ensures !old(!isRunning && selected1 && selected2) ==>
        isRunning == old(isRunning) && mixing == old(mixing) && tenths == old(tenths)
        && temperature == old(temperature) && tempData == old(tempData)
      ensures experiment == old(experiment) && initialTemp == old(initialTemp)
      ensures mass1 == old(mass1) && mass2 == old(mass2) && trials == old(trials)
      ensures selected1 == old(selected1) && selected2 == old(selected2)
    {
      if !isRunning && selected1 && selected2 {
        isRunning := true;
        mixing := true;
        tenths := 0;
        temperature := initialTemp;
        tempData := [Point(0, initialTemp)];
        runStart := initialTemp;
        RampStart(initialTemp, DeltaT());
        assert tempData == Series(runStart, DeltaT(), 0);
      }
    }

    /** `resetExperiment`: clears the run and the selections, keeps trials, masses and the
        initial temperature. */
    method Reset()
      modifies this
      ensures Valid()
      ensures !isRunning && tenths == 0 && temperature == initialTemp && !mixing && tempData == []
      ensures !selected1 && !selected2
      ensures experiment == old(experiment) && initialTemp == old(initialTemp)
      ensures mass1 == old(mass1) && mass2 == old(mass2) && trials == old(trials)
    {
      isRunning := false;
      tenths := 0;
      temperature := initialTemp;
      mixing := false;
      tempData := [];
      selected1 := false;
      selected2 := false;
    }

    /** The experiment buttons switch the experiment and always reset. */
    method SelectExperiment(k: ExperimentKind)
      requires Valid()
      modifies this
      ensures Valid()
      ensures experiment == k
      ensures !isRunning && tenths == 0 && temperature == initialTemp && !mixing && tempData == []
      ensures !selected1 && !selected2
      ensures initialTemp == old(initialTemp) && mass1 == old(mass1) && mass2 == old(mass2)
      ensures trials == old(trials)
    {
      experiment := k;
      Reset();
    }

    /** `saveTrial`, offered once the clock has moved: appends one trial and keeps the
        earlier ones. */
    method SaveTrial()
      requires Valid()
      modifies this
      ensures Valid()
      ensures old(tenths) > 0 ==> trials == old(trials) + [Trial(ExperimentOf(experiment).name, mass1, mass2,
        initialTemp, temperature, DeltaT(), RoundTo(TrialHeat(mass1, mass2, DeltaT()), 2))]
      ensures old(tenths) == 0 ==> trials == old(trials)
      ensures experiment == old(experiment) && isRunning == old(isRunning) && tenths == old(tenths)
      ensures temperature == old(temperature) && initialTemp == old(initialTemp)
      ensures mass1 == old(mass1) && mass2 == old(mass2) && tempData == old(tempData)
      ensures selected1 == old(selected1) && selected2 == old(selected2) && mixing == old(mixing)
    {
      if tenths > 0 {
        var q := TrialHeat(mass1, mass2, DeltaT());
        var trial := Trial(ExperimentOf(experiment).name, mass1, mass2, initialTemp, temperature,
                           DeltaT(), RoundTo(q, 2));
        trials := trials + [trial];
      }
    }

    /** Clicking a chemical card adds it. */
    method SelectChemical(first: bool)
      requires Valid()
      modifies this
      ensures Valid()
      ensures selected1 == (old(selected1) || first) && selected2 == (old(selected2) || !first)
      ensures experiment == old(experiment) && isRunning == old(isRunning) && tenths == old(tenths)
      ensures temperature == old(temperature) && initialTemp == old(initialTemp)
      ensures mass1 == old(mass1) && mass2 == old(mass2) && tempData == old(tempData)
      ensures trials == old(trials) && mixing == old(mixing)
    {
      if first {
        selected1 := true;
      } else {
        selected2 := true;
      }
    }

    /** The first mass input, in grams; disabled while the bench runs. */
    method SetMass1(value: real)
      requires Valid()
      modifies this
      ensures Valid()
      ensures mass1 == (if old(isRunning) then old(mass1) else value)
      ensures mass2 == old(mass2) && initialTemp == old(initialTemp)
      ensures experiment == old(experiment) && isRunning == old(isRunning) && tenths == old(tenths)
      ensures temperature == old(temperature) && tempData == old(tempData) && trials == old(trials)
      ensures selected1 == old(selected1) && selected2 == old(selected2) && mixing == old(mixing)
    {
      if !isRunning {
        mass1 := value;
      }
    }

    /** The second mass input, in grams; disabled while the bench runs. */
    method SetMass2(value: real)
      requires Valid()
      modifies this
      ensures Valid()
      ensures mass2 == (if old(isRunning) then old(mass2) else value)
      ensures mass1 == old(mass1) && initialTemp == old(initialTemp)
      ensures experiment == old(experiment) && isRunning == old(isRunning) && tenths == old(tenths)
      ensures temperature == old(temperature) && tempData == old(tempData) && trials == old(trials)
      ensures selected1 == old(selected1) && selected2 == old(selected2) && mixing == old(mixing)
    {
      if !isRunning {
        mass2 := value;
      }
    }

    /** The initial temperature input, in °C; disabled while the bench runs. The displayed
        temperature is left as it is until the next start or reset. */
    method SetInitialTemp(value: real)
      requires Valid()
      modifies this
      ensures Valid()
      ensures initialTemp == (if old(isRunning) then old(initialTemp) else value)
      ensures mass1 == old(mass1) && mass2 == old(mass2)
      ensures experiment == old(experiment) && isRunning == old(isRunning) && tenths == old(tenths)
      ensures temperature == old(temperature) && tempData == old(tempData) && trials == old(trials)
      ensures selected1 == old(selected1) && selected2 == old(selected2) && mixing == old(mixing)
    {
      if !isRunning {
        initialTemp := value;
      }
    }
  }

  /** Once a run has been recorded, the displayed temperature lies between that run's
      initial temperature and its end value. */
  lemma TemperatureWithinRun(lab: Lab)
    requires lab.Valid() && lab.tempData != []
    ensures Min(lab.runStart, lab.runStart + lab.DeltaT()) <= lab.temperature
                                                          <= Max(lab.runStart, lab.runStart + lab.DeltaT())
  {
    RampBetween(lab.runStart, lab.DeltaT(), lab.tenths);
  }

  /** A run whose clock reached 60 seconds has stopped and shows the end temperature, and
      its series holds all 601 points. */
  lemma EndOfRun(lab: Lab)
    requires lab.Valid() && lab.tempData != [] && lab.tenths == RUN_END
    ensures !lab.isRunning
    ensures lab.temperature == lab.runStart + lab.DeltaT()
    ensures |lab.tempData| == RUN_END + 1
  {
    RampSettled(lab.runStart, lab.DeltaT(), RUN_END);
  }
}
