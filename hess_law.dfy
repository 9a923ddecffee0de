/** The Hess's-law workspace: a list of reaction steps the student flips and scales until
    their enthalpies add up to the target reaction's. */
module HessLaw {
  import opened Numerics
  import EnthalpyCalculations

  /** One reaction of the list. `dH` is the enthalpy as currently flipped and scaled;
      `coef` is the accumulated multiplier. */
  datatype Step = Step(id: int, equation: string, dH: real, coef: real, flipped: bool)

  datatype Mode = Guided | Practice | Challenge

  datatype Example = Example(target: string, targetDH: real, reactions: seq<Step>)

  // Subscript two and three, one half and the arrow.
  const SUB2: string := "\U{2082}"
  const SUB3: string := "\U{2083}"
  const HALF: string := "\U{00BD}"
  const ARROW: string := " \U{2192} "

  const CARBON_TARGET: string := "C(s) + O" + SUB2 + "(g)" + ARROW + "CO" + SUB2 + "(g)"

  /** The worked examples; every step starts unscaled and unflipped. */
  function ExampleFor(m: Mode): Example
  {
    match m
    case Guided =>
      Example(CARBON_TARGET, -393.5, [
        Step(1, "C(s) + " + HALF + "O" + SUB2 + "(g)" + ARROW + "CO(g)", -110.5, 1.0, false),
        Step(2, "CO(g) + " + HALF + "O" + SUB2 + "(g)" + ARROW + "CO" + SUB2 + "(g)", -283.0, 1.0, false)])
    case Practice =>
      Example(CARBON_TARGET, -393.5, [
        Step(1, "C(s) + " + HALF + "O" + SUB2 + "(g)" + ARROW + "CO(g)", -110.5, 1.0, false),
        Step(2, "CO" + SUB2 + "(g)" + ARROW + "CO(g) + " + HALF + "O" + SUB2 + "(g)", 283.0, 1.0, false)])
    case Challenge =>
      Example(HALF + "N" + SUB2 + "(g) + 3/2H" + SUB2 + "(g)" + ARROW + "NH" + SUB3 + "(g)", -46.1, [
        Step(1, "N" + SUB2 + "(g) + 3H" + SUB2 + "(g)" + ARROW + "2NH" + SUB3 + "(g)", -92.2, 1.0, false),
        Step(2, "H" + SUB2 + "(g) + " + HALF + "O" + SUB2 + "(g)" + ARROW + "H" + SUB2 + "O(l)", -285.8, 1.0, false)])
  }

  /** Each example lists two unscaled, unflipped steps with ids 1 and 2. */
  lemma ExampleShape(m: Mode)
    ensures |ExampleFor(m).reactions| == 2
    ensures ExampleFor(m).reactions[0].id == 1 && ExampleFor(m).reactions[1].id == 2
    ensures forall i :: 0 <= i < 2 ==> ExampleFor(m).reactions[i].coef == 1.0 && !ExampleFor(m).reactions[i].flipped
  {
  }

  // ---------------------------------------------------------------- step operations

  function FlipStep(r: Step, id: int): Step
  {
    if r.id == id then r.(dH := -r.dH, flipped := !r.flipped) else r
  }

  function MultiplyStep(r: Step, id: int, factor: real): Step
  {
    if r.id == id then r.(dH := r.dH * factor, coef := r.coef * factor) else r
  }

  /** `reactions.map(...)` of `flipReaction(id)`. */
  function Flip(rs: seq<Step>, id: int): (r: seq<Step>)
    ensures |r| == |rs|
  {
    seq(|rs|, i requires 0 <= i < |rs| => FlipStep(rs[i], id))
  }

  /** `reactions.map(...)` of `multiplyReaction(id, factor)`. */
  function Multiply(rs: seq<Step>, id: int, factor: real): (r: seq<Step>)
    ensures |r| == |rs|
  {
    seq(|rs|, i requires 0 <= i < |rs| => MultiplyStep(rs[i], id, factor))
  }

  /** Flipping negates `dH` and toggles `flipped` on the matching steps only; `coef`,
      `id` and the equation stay. */
  lemma FlipOnlyMatching(rs: seq<Step>, id: int, i: nat)
    requires i < |rs|
    ensures rs[i].id != id ==> Flip(rs, id)[i] == rs[i]
    ensures rs[i].id == id ==>
      && Flip(rs, id)[i].dH == -rs[i].dH
      && Flip(rs, id)[i].flipped == !rs[i].flipped
      && Flip(rs, id)[i].coef == rs[i].coef
      && Flip(rs, id)[i].id == rs[i].id
      && Flip(rs, id)[i].equation == rs[i].equation
  {
  }

  /** Scaling multiplies `dH` and `coef` by the same factor on the matching steps only and
      leaves `flipped` alone. */
  lemma MultiplyOnlyMatching(rs: seq<Step>, id: int, factor: real, i: nat)
    requires i < |rs|
    ensures rs[i].id != id ==> Multiply(rs, id, factor)[i] == rs[i]
    ensures rs[i].id == id ==>
      && Multiply(rs, id, factor)[i].dH == rs[i].dH * factor
      && Multiply(rs, id, factor)[i].coef == rs[i].coef * factor
      && Multiply(rs, id, factor)[i].flipped == rs[i].flipped
      && Multiply(rs, id, factor)[i].id == rs[i].id
      && Multiply(rs, id, factor)[i].equation == rs[i].equation
  {
  }

  /** Flipping twice is the identity. */
  lemma FlipTwice(rs: seq<Step>, id: int)
    ensures Flip(Flip(rs, id), id) == rs
  {
    var twice := Flip(Flip(rs, id), id);
    forall i | 0 <= i < |rs|
      ensures twice[i] == rs[i]
    {
      assert twice[i] == FlipStep(FlipStep(rs[i], id), id);
    }
  }

  /** The ×2 button followed by the ×½ button restores the list. */
  lemma DoubleThenHalve(rs: seq<Step>, id: int)
    ensures Multiply(Multiply(rs, id, 2.0), id, 0.5) == rs
  {
    var back := Multiply(Multiply(rs, id, 2.0), id, 0.5);
    forall i | 0 <= i < |rs|
      ensures back[i] == rs[i]
    {
      assert back[i] == MultiplyStep(MultiplyStep(rs[i], id, 2.0), id, 0.5);
    }
  }

  /** Flipping and scaling commute, on the same step or on different ones. */
  lemma FlipMultiplyCommute(rs: seq<Step>, flipId: int, scaleId: int, factor: real)
    ensures Flip(Multiply(rs, scaleId, factor), flipId) == Multiply(Flip(rs, flipId), scaleId, factor)
  {
    var a := Flip(Multiply(rs, scaleId, factor), flipId);
    var b := Multiply(Flip(rs, flipId), scaleId, factor);
    forall i | 0 <= i < |rs|
      ensures a[i] == b[i]
    {
      assert a[i] == FlipStep(MultiplyStep(rs[i], scaleId, factor), flipId);
      assert b[i] == MultiplyStep(FlipStep(rs[i], flipId), scaleId, factor);
      assert (-rs[i].dH) * factor == -(rs[i].dH * factor);
    }
  }

  // ---------------------------------------------------------------- derivation invariant

  function Sign(flipped: bool): real
  {
    if flipped then -1.0 else 1.0
  }

  /** A step derives from its example step b (unscaled, unflipped):
      `dH = (flipped ? -1 : 1) * coef * dH0`. */
  predicate Derived(r: Step, b: Step)
  {
    r.id == b.id && r.equation == b.equation && r.dH == Sign(r.flipped) * r.coef * b.dH
  }

  predicate DerivedAll(rs: seq<Step>, base: seq<Step>)
  {
    |rs| == |base| && forall i :: 0 <= i < |rs| ==> Derived(rs[i], base[i])
  }

  /** An example's own list derives from itself. */
  lemma ExampleDerived(m: Mode)
    ensures DerivedAll(ExampleFor(m).reactions, ExampleFor(m).reactions)
  {
    ExampleShape(m);
  }

  lemma FlipKeepsDerived(rs: seq<Step>, base: seq<Step>, id: int)
    requires DerivedAll(rs, base)
    ensures DerivedAll(Flip(rs, id), base)
  {
    forall i | 0 <= i < |rs|
      ensures Derived(Flip(rs, id)[i], base[i])
    {
      var r := rs[i];
      if r.id == id {
        assert Flip(rs, id)[i] == r.(dH := -r.dH, flipped := !r.flipped);
        assert -(Sign(r.flipped) * r.coef * base[i].dH) == Sign(!r.flipped) * r.coef * base[i].dH;
      }
    }
  }

  lemma MultiplyKeepsDerived(rs: seq<Step>, base: seq<Step>, id: int, factor: real)
    requires DerivedAll(rs, base)
    ensures DerivedAll(Multiply(rs, id, factor), base)
  {
    forall i | 0 <= i < |rs|
      ensures Derived(Multiply(rs, id, factor)[i], base[i])
    {
      var r := rs[i];
      if r.id == id {
        assert Multiply(rs, id, factor)[i] == r.(dH := r.dH * factor, coef := r.coef * factor);
        assert (Sign(r.flipped) * r.coef * base[i].dH) * factor == Sign(r.flipped) * (r.coef * factor) * base[i].dH;
      }
    }
  }

  // ---------------------------------------------------------------- total and check

  /** Σ dH over every step, flipped or not. */
  function SumDH(rs: seq<Step>): real
  {
    if rs == [] then 0.0 else rs[0].dH + SumDH(rs[1..])
  }

  /** `parseFloat(calculateTotal())`: the sum rounded to one decimal. */
  function Total(rs: seq<Step>): (t: real)
    ensures Abs(t - SumDH(rs)) <= 0.05
  {
    RoundTo1Near(SumDH(rs));
    RoundTo(SumDH(rs), 1)
  }

  datatype Feedback = NoFeedback | Correct(total: real) | NotYet

  /** The comparison of `checkAnswer`. */
  function Verdict(total: real, targetDH: real): (f: Feedback)
    ensures f.Correct? <==> targetDH - 0.5 < total < targetDH + 0.5
    ensures f.Correct? ==> f.total == total
    ensures !f.NoFeedback?
  {
    if Abs(total - targetDH) < 0.5 then Correct(total) else NotYet
  }

  /** The check accepts exactly the open interval of half a kilojoule around the target. */
  lemma VerdictStrict(total: real, targetDH: real)
    ensures Verdict(total, targetDH).Correct? <==> targetDH - 0.5 < total < targetDH + 0.5
    ensures Verdict(-393.0, -393.5) == NotYet && Verdict(-393.1, -393.5) == Correct(-393.1)
  {
  }

  /** The equations `hessLawSolver` would be given for a derived list: each step's original
      dH with its signed coefficient. */
  function HessTerms(rs: seq<Step>, base: seq<Step>): (ts: seq<EnthalpyCalculations.HessTerm>)
    requires |rs| == |base|
    ensures |ts| == |rs|
  {
    if rs == [] then []
    else [EnthalpyCalculations.HessTerm(EnthalpyCalculations.Num(base[0].dH),
                                        EnthalpyCalculations.Num(Sign(rs[0].flipped) * rs[0].coef))]
         + HessTerms(rs[1..], base[1..])
  }

  /** On a derived list the total is the Hess sum Σ dH0 · (±coef) that `hessLawSolver`
      evaluates. */
  lemma {:induction false} TotalIsHessSum(rs: seq<Step>, base: seq<Step>)
    requires DerivedAll(rs, base)
    ensures SumDH(rs) == EnthalpyCalculations.HessSum(HessTerms(rs, base))
  {
    if rs != [] {
      assert DerivedAll(rs[1..], base[1..]) by {
        forall i | 0 <= i < |rs| - 1
          ensures Derived(rs[1..][i], base[1..][i])
        {
          assert rs[1..][i] == rs[i + 1] && base[1..][i] == base[i + 1];
        }
      }
      TotalIsHessSum(rs[1..], base[1..]);
      var ts := HessTerms(rs, base);
      assert ts[1..] == HessTerms(rs[1..], base[1..]);
      assert EnthalpyCalculations.HessProduct(ts[0]) == base[0].dH * (Sign(rs[0].flipped) * rs[0].coef);
      assert Derived(rs[0], base[0]);
      assert rs[0].dH == Sign(rs[0].flipped) * rs[0].coef * base[0].dH;
    }
  }

  lemma OneDecimal(x: real, k: int)
    requires x * 10.0 == k as real
    ensures RoundTo(x, 1) == x
  {
    assert Pow10(1) == 10.0;
    RoundToExact(x, 1);
  }

  lemma SumOfTwo(rs: seq<Step>)
    requires |rs| == 2
    ensures SumDH(rs) == rs[0].dH + rs[1].dH
  {
    assert rs[1..][1..] == [];
    assert SumDH(rs[1..][1..]) == 0.0;
    assert SumDH(rs[1..]) == rs[1].dH;
  }

  /** The guided example adds up to -393.5 as given and is accepted. */
  lemma GuidedTotal()
    ensures Total(ExampleFor(Guided).reactions) == -393.5
    ensures Verdict(Total(ExampleFor(Guided).reactions), ExampleFor(Guided).targetDH) == Correct(-393.5)
  {
    SumOfTwo(ExampleFor(Guided).reactions);
    OneDecimal(-393.5, -3935);
  }

  /** The practice example starts at +172.5 and is accepted once step 2 is flipped. */
  lemma PracticeNeedsFlip()
    ensures Total(ExampleFor(Practice).reactions) == 172.5
    ensures Verdict(Total(ExampleFor(Practice).reactions), -393.5) == NotYet
    ensures Total(Flip(ExampleFor(Practice).reactions, 2)) == -393.5
    ensures Verdict(Total(Flip(ExampleFor(Practice).reactions, 2)), -393.5) == Correct(-393.5)
  {
    var rs := ExampleFor(Practice).reactions;
    SumOfTwo(rs);
    OneDecimal(172.5, 1725);
    var flipped := Flip(rs, 2);
    assert flipped[0].dH == -110.5 && flipped[1].dH == -283.0;
    SumOfTwo(flipped);
    OneDecimal(-393.5, -3935);
  }

  /** Halving step 1 of the challenge, as its explanation suggests, still leaves step 2 in
      the total: -331.9, which the check rejects. */
  lemma ChallengeHalfStill()
    ensures Total(Multiply(ExampleFor(Challenge).reactions, 1, 0.5)) == -331.9
    ensures Verdict(Total(Multiply(ExampleFor(Challenge).reactions, 1, 0.5)), -46.1) == NotYet
  {
    var halved := Multiply(ExampleFor(Challenge).reactions, 1, 0.5);
    assert halved[0].dH == -46.1 && halved[1].dH == -285.8;
    SumOfTwo(halved);
    OneDecimal(-331.9, -3319);
  }

  // ---------------------------------------------------------------- the workspace

  class Workspace {
    var mode: Mode
    var current: Example
    var reactions: seq<Step>
    var feedback: Feedback
    var showHint: bool
    var showExplanation: bool

    /** The current example is the mode's, and every step derives from its example step. */
    ghost predicate Valid()
      reads this
    {
      current == ExampleFor(mode) && DerivedAll(reactions, current.reactions)
    }

    constructor ()
      ensures mode == Guided && current == ExampleFor(Guided) && reactions == current.reactions
      ensures feedback == NoFeedback && !showHint && !showExplanation
      ensures Valid()
    {
      mode := Guided;
      current := ExampleFor(Guided);
      reactions := ExampleFor(Guided).reactions;
      feedback := NoFeedback;
      showHint := false;
      showExplanation := false;
      ExampleDerived(Guided);
    }

    method FlipReaction(id: int)
      requires Valid()
      modifies this
      ensures reactions == Flip(old(reactions), id)
      ensures mode == old(mode) && current == old(current) && feedback == old(feedback)
      ensures showHint == old(showHint) && showExplanation == old(showExplanation)
      ensures Valid()
    {
      FlipKeepsDerived(reactions, current.reactions, id);
      reactions := Flip(reactions, id);
    }

    method MultiplyReaction(id: int, factor: real)
      requires Valid()
      modifies this
      ensures reactions == Multiply(old(reactions), id, factor)
      ensures mode == old(mode) && current == old(current) && feedback == old(feedback)
      ensures showHint == old(showHint) && showExplanation == old(showExplanation)
      ensures Valid()
    {
      MultiplyKeepsDerived(reactions, current.reactions, id, factor);
      reactions := Multiply(reactions, id, factor);
    }

    method CheckAnswer()
      requires Valid()
      modifies this
      ensures feedback == Verdict(Total(reactions), current.targetDH)
      ensures mode == old(mode) && current == old(current) && reactions == old(reactions)
      ensures showHint == old(showHint) && showExplanation == old(showExplanation)
      ensures Valid()
    {
      feedback := Verdict(Total(reactions), current.targetDH);
    }

    method ResetSimulation()
      requires Valid()
      modifies this
      ensures reactions == ExampleFor(mode).reactions
      ensures feedback == NoFeedback && !showHint && !showExplanation
      ensures mode == old(mode) && current == old(current)
      ensures Valid()
    {
      reactions := current.reactions;
      feedback := NoFeedback;
      showHint := false;
      showExplanation := false;
      ExampleDerived(mode);
    }

    method ChangeMode(newMode: Mode)
      modifies this
      ensures mode == newMode && current == ExampleFor(newMode) && reactions == ExampleFor(newMode).reactions
      ensures feedback == NoFeedback && !showHint && !showExplanation
      ensures Valid()
    {
      mode := newMode;
      current := ExampleFor(newMode);
      reactions := ExampleFor(newMode).reactions;
      feedback := NoFeedback;
      showHint := false;
      showExplanation := false;
      ExampleDerived(newMode);
    }
  }
}
