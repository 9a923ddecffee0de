/** The thermochemistry assessment: the question bank, grading of a submitted
    answer sheet (per-item correctness, score, topic tallies, badge, radar data) and the
    exam session whose fields the page updates step by step. */
module AssessmentModule {
  import opened Wrappers
  import opened Numerics

  // ---------------------------------------------------------------- topics

  /** The keys of `TOPICS`, in declaration order. */
  datatype Topic = System | ReactionType | Equation | Calculation | Hess | Calorimetry | StandardEnthalpy

  const TOPICS: seq<Topic> := [System, ReactionType, Equation, Calculation, Hess, Calorimetry, StandardEnthalpy]

  /** The display label the page uses as the dictionary key of a topic. */
  function TopicLabel(t: Topic): string
  {
    match t
    case System => "Sistem & Lingkungan"
    case ReactionType => "Eksoterm/Endoterm"
    case Equation => "Persamaan Termokimia"
    case Calculation => "Perhitungan \U{0394}H"
    case Hess => "Hukum Hess"
    case Calorimetry => "Kalorimetri"
    case StandardEnthalpy => "Jenis \U{0394}H Standar"
  }

  /** Position of a topic in `TOPICS`. */
  function TopicIndex(t: Topic): (i: nat)
    ensures i < |TOPICS| && TOPICS[i] == t
  {
    match t
    case System => 0
    case ReactionType => 1
    case Equation => 2
    case Calculation => 3
    case Hess => 4
    case Calorimetry => 5
    case StandardEnthalpy => 6
  }

  /** Tallies keyed by label keep the topics apart: no two topics share a label. */
  lemma LabelsDistinct(t1: Topic, t2: Topic)
    ensures TopicLabel(t1) == TopicLabel(t2) ==> t1 == t2
  {
    if t1 != t2 {
      assert TopicLabel(t1)[..4] != TopicLabel(t2)[..4] || TopicLabel(t1)[5..] != TopicLabel(t2)[5..];
    }
  }

  /** Every topic occurs exactly once in `TOPICS`. */
  function Occurrences(ts: seq<Topic>, t: Topic): nat
  {
    if ts == [] then 0 else (if ts[0] == t then 1 else 0) + Occurrences(ts[1..], t)
  }

  lemma TopicsOnce(t: Topic)
    ensures Occurrences(TOPICS, t) == 1
  {
  }

  // ---------------------------------------------------------------- questions

  /** The answer key of an item; its constructor is the item type
      (`mcq`, `tf`, `numeric`, `diagram`). */
  datatype Key =
    | Choice(index: int)
    | Truth(truth: bool)
    | Numeric(target: real, tolerance: Option<real>)
    | Label(text: string)

  datatype Question = Question(id: int, topic: Topic, key: Key)

  /** What the page stores for an answer: an option index, a boolean, the entered number
      (already parsed; None when `parseFloat` gives NaN) or a diagram label. */
  datatype Answer = Picked(index: int) | Judged(verdict: bool) | Entered(number: Option<real>) | Labelled(text: string)

  const LABEL_D: string := "D (Selisih Awal-Akhir)"

  const QUESTIONS: seq<Question> := [
    Question(1, System, Choice(0)),
    Question(2, ReactionType, Choice(1)),
    Question(3, Hess, Choice(3)),
    Question(11, StandardEnthalpy, Truth(true)),
    Question(12, Calorimetry, Truth(false)),
    Question(16, Calorimetry, Numeric(672.0, Some(5.0))),
    Question(21, ReactionType, Label(LABEL_D))
  ]

  /** Answers are stored by question id, so the ids must be distinct. */
  lemma QuestionIdsDistinct(i: nat, j: nat)
    requires i < |QUESTIONS| && j < |QUESTIONS|
    ensures QUESTIONS[i].id == QUESTIONS[j].id ==> i == j
  {
  }

  /** `answers[q.id]`, None standing for `undefined`. */
  function Lookup(answers: map<int, Answer>, id: int): Option<Answer>
  {
    if id in answers then Some(answers[id]) else None
  }

  /** `parseFloat` of a stored answer: a number parses to itself, a boolean to NaN;
      every label of the bank begins with a letter and parses to NaN as well. */
  function NumberOf(a: Answer): Option<real>
  {
    match a
    case Picked(i) => Some(i as real)
    case Judged(_) => None
    case Entered(n) => n
    case Labelled(_) => None
  }

  /** `q.tolerance || 0`. */
  function ToleranceOf(tolerance: Option<real>): real
  {
    match tolerance
    case Some(t) => t
    case None => 0.0
  }

  /** `userAns === q.correctAnswer` for a non-numeric key. */
  predicate StrictlyEqual(a: Answer, k: Key)
  {
    match k
    case Choice(i) => a == Picked(i)
    case Truth(b) => a == Judged(b)
    case Numeric(v, _) => false
    case Label(s) => a == Labelled(s)
  }

  /** The per-item check of `calculateResults`. */
  predicate IsCorrect(q: Question, answer: Option<Answer>)
    ensures IsCorrect(q, answer) ==> answer.Some?
    ensures IsCorrect(q, answer) && q.key.Numeric? ==>
      NumberOf(answer.value).Some? &&
      q.key.target - ToleranceOf(q.key.tolerance) <= NumberOf(answer.value).value
                                                 <= q.key.target + ToleranceOf(q.key.tolerance)
    ensures IsCorrect(q, answer) && !q.key.Numeric? ==> StrictlyEqual(answer.value, q.key)
  {
    match q.key
    case Numeric(v, tol) =>
      answer.Some? && NumberOf(answer.value).Some? && Abs(NumberOf(answer.value).value - v) <= ToleranceOf(tol)
    case _ => answer.Some? && StrictlyEqual(answer.value, q.key)
  }

  /** An unanswered item is wrong, whatever its type. */
  lemma UnansweredIsWrong(q: Question)
    ensures !IsCorrect(q, None)
  {
  }

  /** A numeric item accepts exactly the closed interval around its key. */
  lemma NumericInterval(id: int, t: Topic, v: real, tol: Option<real>, x: real)
    ensures IsCorrect(Question(id, t, Numeric(v, tol)), Some(Entered(Some(x))))
        <==> v - ToleranceOf(tol) <= x <= v + ToleranceOf(tol)
  {
  }

  /** An answer that does not parse is wrong on a numeric item. */
  lemma NumericNaNIsWrong(id: int, t: Topic, v: real, tol: Option<real>)
    ensures !IsCorrect(Question(id, t, Numeric(v, tol)), Some(Entered(None)))
  {
  }

  /** A multiple-choice, true/false or diagram item accepts exactly its own key. */
  lemma ExactKeyIff(q: Question, a: Answer)
    requires !q.key.Numeric?
    ensures IsCorrect(q, Some(a)) <==>
      (match q.key
       case Choice(i) => a == Picked(i)
       case Truth(b) => a == Judged(b)
       case Label(s) => a == Labelled(s)
       case Numeric(_, _) => false)
  {
  }

  /** Item 16 (key 672, tolerance 5): 667 and 677 are right, 666.9 and 677.1 are wrong. */
  lemma ToleranceBoundary()
    ensures IsCorrect(QUESTIONS[5], Some(Entered(Some(667.0))))
    ensures IsCorrect(QUESTIONS[5], Some(Entered(Some(677.0))))
    ensures !IsCorrect(QUESTIONS[5], Some(Entered(Some(666.9))))
    ensures !IsCorrect(QUESTIONS[5], Some(Entered(Some(677.1))))
  {
    NumericInterval(16, Calorimetry, 672.0, Some(5.0), 667.0);
    NumericInterval(16, Calorimetry, 672.0, Some(5.0), 677.0);
    NumericInterval(16, Calorimetry, 672.0, Some(5.0), 666.9);
    NumericInterval(16, Calorimetry, 672.0, Some(5.0), 677.1);
  }

  /** Answering 1 (a number) on the true/false item is not `true`: strict equality. */
  lemma StrictEqualityExamples()
    ensures IsCorrect(QUESTIONS[3], Some(Judged(true)))
    ensures !IsCorrect(QUESTIONS[3], Some(Picked(1)))
    ensures IsCorrect(QUESTIONS[6], Some(Labelled(LABEL_D)))
    ensures !IsCorrect(QUESTIONS[0], Some(Judged(false)))
  {
  }

  // ---------------------------------------------------------------- tallies (specification)

  function Last<T>(s: seq<T>): T
    requires s != []
  {
    s[|s| - 1]
  }

  function Init<T>(s: seq<T>): seq<T>
    requires s != []
  {
    s[..|s| - 1]
  }

  function Indicator(b: bool): nat
  {
    if b then 1 else 0
  }

  /** Number of correctly answered items. */
  function CorrectCount(qs: seq<Question>, answers: map<int, Answer>): (n: nat)
    ensures n <= |qs|
  {
    if qs == [] then 0
    else CorrectCount(Init(qs), answers) + Indicator(IsCorrect(Last(qs), Lookup(answers, Last(qs).id)))
  }

  /** Number of items on topic t. */
  function TopicCount(qs: seq<Question>, t: Topic): (n: nat)
    ensures n <= |qs|
  {
    if qs == [] then 0 else TopicCount(Init(qs), t) + Indicator(Last(qs).topic == t)
  }

  /** Number of correctly answered items on topic t. */
  function TopicScore(qs: seq<Question>, answers: map<int, Answer>, t: Topic): (n: nat)
    ensures n <= TopicCount(qs, t)
  {
    if qs == [] then 0
    else
      TopicScore(Init(qs), answers, t)
      + Indicator(Last(qs).topic == t && IsCorrect(Last(qs), Lookup(answers, Last(qs).id)))
  }

  function SumCounts(ts: seq<Topic>, qs: seq<Question>): nat
  {
    if ts == [] then 0 else TopicCount(qs, ts[0]) + SumCounts(ts[1..], qs)
  }

  function SumScores(ts: seq<Topic>, qs: seq<Question>, answers: map<int, Answer>): nat
  {
    if ts == [] then 0 else TopicScore(qs, answers, ts[0]) + SumScores(ts[1..], qs, answers)
  }

  /** Appending an item adds its contribution to each tally. */
  lemma TalliesSnoc(qs: seq<Question>, answers: map<int, Answer>, q: Question)
    ensures CorrectCount(qs + [q], answers) == CorrectCount(qs, answers) + Indicator(IsCorrect(q, Lookup(answers, q.id)))
    ensures forall t :: TopicCount(qs + [q], t) == TopicCount(qs, t) + Indicator(q.topic == t)
    ensures forall t :: TopicScore(qs + [q], answers, t)
                     == TopicScore(qs, answers, t) + Indicator(q.topic == t && IsCorrect(q, Lookup(answers, q.id)))
  {
    assert Init(qs + [q]) == qs && Last(qs + [q]) == q;
  }

  lemma {:induction false} SumsEmpty(ts: seq<Topic>, answers: map<int, Answer>)
    ensures SumCounts(ts, []) == 0 && SumScores(ts, [], answers) == 0
  {
    if ts != [] {
      SumsEmpty(ts[1..], answers);
    }
  }

  lemma {:induction false} SumCountsSnoc(ts: seq<Topic>, qs: seq<Question>, q: Question)
    ensures SumCounts(ts, qs + [q]) == SumCounts(ts, qs) + Occurrences(ts, q.topic)
  {
    if ts != [] {
      TalliesSnoc(qs, map[], q);
      SumCountsSnoc(ts[1..], qs, q);
    }
  }

  lemma {:induction false} SumScoresSnoc(ts: seq<Topic>, qs: seq<Question>, answers: map<int, Answer>, q: Question)
    ensures SumScores(ts, qs + [q], answers) ==
      SumScores(ts, qs, answers) + Indicator(IsCorrect(q, Lookup(answers, q.id))) * Occurrences(ts, q.topic)
  {
    if ts != [] {
      TalliesSnoc(qs, answers, q);
      SumScoresSnoc(ts[1..], qs, answers, q);
    }
  }

  /** Every item is counted under exactly one topic: the topic counts add up to the
      number of items. */
  lemma {:induction false} CountsAddUp(qs: seq<Question>)
    ensures SumCounts(TOPICS, qs) == |qs|
  {
    if qs == [] {
      SumsEmpty(TOPICS, map[]);
    } else {
      assert qs == Init(qs) + [Last(qs)];
      CountsAddUp(Init(qs));
      SumCountsSnoc(TOPICS, Init(qs), Last(qs));
      TopicsOnce(Last(qs).topic);
    }
  }

  /** The topic scores add up to the number of correct items. */
  lemma {:induction false} ScoresAddUp(qs: seq<Question>, answers: map<int, Answer>)
    ensures SumScores(TOPICS, qs, answers) == CorrectCount(qs, answers)
  {
    if qs == [] {
      SumsEmpty(TOPICS, answers);
    } else {
      assert qs == Init(qs) + [Last(qs)];
      ScoresAddUp(Init(qs), answers);
      SumScoresSnoc(TOPICS, Init(qs), answers, Last(qs));
      TalliesSnoc(Init(qs), answers, Last(qs));
      TopicsOnce(Last(qs).topic);
    }
  }

  // ---------------------------------------------------------------- tallies (the loop)

  /** The dictionaries hold exactly the tallies of qs: an entry for each topic met, with its
      count and its score. */
  predicate TalliedAs(qs: seq<Question>, answers: map<int, Answer>,
                      topicScores: map<Topic, nat>, topicCounts: map<Topic, nat>)
  {
    && (forall t :: t in topicCounts <==> TopicCount(qs, t) > 0)
    && (forall t :: t in topicCounts ==> topicCounts[t] == TopicCount(qs, t))
    && topicScores.Keys == topicCounts.Keys
    && (forall t :: t in topicScores ==> topicScores[t] == TopicScore(qs, answers, t))
  }

  function Get(m: map<Topic, nat>, t: Topic): nat
  {
    if t in m then m[t] else 0
  }

  /** One pass of the loop body keeps the dictionaries equal to the tallies. */
  lemma TalliedStep(qs: seq<Question>, answers: map<int, Answer>, q: Question,
                    topicScores: map<Topic, nat>, topicCounts: map<Topic, nat>)
    requires TalliedAs(qs, answers, topicScores, topicCounts)
    ensures TalliedAs(qs + [q], answers,
                      topicScores[q.topic := Get(topicScores, q.topic) + Indicator(IsCorrect(q, Lookup(answers, q.id)))],
                      topicCounts[q.topic := Get(topicCounts, q.topic) + 1])
  {
    TalliesSnoc(qs, answers, q);
    CountsStep(qs, q, topicCounts);
    ScoresStep(qs, answers, q, topicScores, topicCounts);
  }

  lemma CountsStep(qs: seq<Question>, q: Question, topicCounts: map<Topic, nat>)
    requires forall t :: t in topicCounts <==> TopicCount(qs, t) > 0
    requires forall t :: t in topicCounts ==> topicCounts[t] == TopicCount(qs, t)
    requires forall t :: TopicCount(qs + [q], t) == TopicCount(qs, t) + Indicator(q.topic == t)
    ensures var counts := topicCounts[q.topic := Get(topicCounts, q.topic) + 1];
            && (forall t :: t in counts <==> TopicCount(qs + [q], t) > 0)
            && (forall t :: t in counts ==> counts[t] == TopicCount(qs + [q], t))
  {
  }

  lemma ScoresStep(qs: seq<Question>, answers: map<int, Answer>, q: Question,
                   topicScores: map<Topic, nat>, topicCounts: map<Topic, nat>)
    requires forall t :: t in topicCounts <==> TopicCount(qs, t) > 0
    requires topicScores.Keys == topicCounts.Keys
    requires forall t :: t in topicScores ==> topicScores[t] == TopicScore(qs, answers, t)
    requires forall t :: TopicScore(qs + [q], answers, t)
                     == TopicScore(qs, answers, t) + Indicator(q.topic == t && IsCorrect(q, Lookup(answers, q.id)))
    ensures var scores := topicScores[q.topic := Get(topicScores, q.topic)
                                                 + Indicator(IsCorrect(q, Lookup(answers, q.id)))];
            && scores.Keys == topicCounts[q.topic := Get(topicCounts, q.topic) + 1].Keys
            && (forall t :: t in scores ==> scores[t] == TopicScore(qs + [q], answers, t))
  {
    var t := q.topic;
    if t !in topicScores {
      assert TopicScore(qs, answers, t) <= TopicCount(qs, t) == 0;
    }
  }

  /** The body of the loop for one item: create the topic's entries when the topic is first
      met, then count the item and, when it is answered correctly, score it. */
  method Record(t: Topic, isCorrect: bool, topicScores: map<Topic, nat>, topicCounts: map<Topic, nat>)
    returns (scores: map<Topic, nat>, counts: map<Topic, nat>)
    requires topicScores.Keys == topicCounts.Keys
    ensures scores == topicScores[t := Get(topicScores, t) + Indicator(isCorrect)]
    ensures counts == topicCounts[t := Get(topicCounts, t) + 1]
  {
    scores, counts := topicScores, topicCounts;
    if t !in scores {
      scores := scores[t := 0];
      counts := counts[t := 0];
    }
    counts := counts[t := counts[t] + 1];
    if isCorrect {
      scores := scores[t := scores[t] + 1];
    }
  }

  /** The loop body, on the prefix of the items it has seen. */
  lemma LoopStep(qs: seq<Question>, answers: map<int, Answer>, i: nat,
                 topicScores: map<Topic, nat>, topicCounts: map<Topic, nat>,
                 scores: map<Topic, nat>, counts: map<Topic, nat>)
    requires i < |qs| && TalliedAs(qs[..i], answers, topicScores, topicCounts)
    requires scores == topicScores[qs[i].topic := Get(topicScores, qs[i].topic)
                                                 + Indicator(IsCorrect(qs[i], Lookup(answers, qs[i].id)))]
    requires counts == topicCounts[qs[i].topic := Get(topicCounts, qs[i].topic) + 1]
    ensures CorrectCount(qs[..i + 1], answers)
         == CorrectCount(qs[..i], answers) + Indicator(IsCorrect(qs[i], Lookup(answers, qs[i].id)))
    ensures TalliedAs(qs[..i + 1], answers, scores, counts)
  {
    assert qs[..i + 1] == qs[..i] + [qs[i]];
    TalliesSnoc(qs[..i], answers, qs[i]);
    TalliedStep(qs[..i], answers, qs[i], topicScores, topicCounts);
  }

  /** The `forEach` loop of `calculateResults`, with the topic entry created when the
      topic is first met. */
  method Tally(qs: seq<Question>, answers: map<int, Answer>)
    returns (correctCount: nat, topicScores: map<Topic, nat>, topicCounts: map<Topic, nat>)
    ensures correctCount == CorrectCount(qs, answers)
    ensures TalliedAs(qs, answers, topicScores, topicCounts)
  {
    correctCount := 0;
    topicScores := map[];
    topicCounts := map[];
    var i := 0;
    while i < |qs|
      invariant 0 <= i <= |qs|
      invariant correctCount == CorrectCount(qs[..i], answers)
      invariant TalliedAs(qs[..i], answers, topicScores, topicCounts)
    {
      correctCount, topicScores, topicCounts := Visit(qs, answers, i, correctCount, topicScores, topicCounts);
      i := i + 1;
    }
    assert qs[..|qs|] == qs;
  }

  /** One pass of the loop: item i is scored and its topic entry updated. */
  method Visit(qs: seq<Question>, answers: map<int, Answer>, i: nat,
               correctCount: nat, topicScores: map<Topic, nat>, topicCounts: map<Topic, nat>)
    returns (correct: nat, scores: map<Topic, nat>, counts: map<Topic, nat>)
    requires i < |qs|
    requires correctCount == CorrectCount(qs[..i], answers)
    requires TalliedAs(qs[..i], answers, topicScores, topicCounts)
    ensures correct == CorrectCount(qs[..i + 1], answers)
    ensures TalliedAs(qs[..i + 1], answers, scores, counts)
  {
    var q := qs[i];
    var isCorrect := IsCorrect(q, Lookup(answers, q.id));
    correct := correctCount;
    if isCorrect {
      correct := correct + 1;
    }
    scores, counts := Record(q.topic, isCorrect, topicScores, topicCounts);
    LoopStep(qs, answers, i, topicScores, topicCounts, scores, counts);
  }

  // ---------------------------------------------------------------- tallies as written

  datatype Tallies = Tallies(scores: map<Topic, int>, counts: map<Topic, int>)

  function CountOr0(m: map<Topic, int>, t: Topic): int
  {
    if t in m then m[t] else 0
  }

  /** One pass of the loop as the source writes it: the entry is (re)initialised whenever
      `!topicScores[q.topic]`, which also holds while the score is 0. */
  function TallyStepAsWritten(tl: Tallies, q: Question, isCorrect: bool): Tallies
  {
    var reset := q.topic !in tl.scores || tl.scores[q.topic] == 0;
    var t0 := if reset then Tallies(tl.scores[q.topic := 0], tl.counts[q.topic := 0]) else tl;
    var t1 := t0.(counts := t0.counts[q.topic := CountOr0(t0.counts, q.topic) + 1]);
    if isCorrect then t1.(scores := t1.scores[q.topic := CountOr0(t1.scores, q.topic) + 1]) else t1
  }

  function TalliesAsWritten(qs: seq<Question>, answers: map<int, Answer>): Tallies
  {
    if qs == [] then Tallies(map[], map[])
    else TallyStepAsWritten(TalliesAsWritten(Init(qs), answers), Last(qs),
                            IsCorrect(Last(qs), Lookup(answers, Last(qs).id)))
  }

  /** Items 2 and 21 are both on reaction types. With item 2 wrong and item 21 right the
      tally as written counts one reaction-type item instead of two, and reports that topic
      at 100 percent. */
  lemma TalliesAsWrittenDropWrongItems()
    ensures var qs := [QUESTIONS[1], QUESTIONS[6]];
            var answers := map[2 := Picked(0), 21 := Labelled(LABEL_D)];
            TalliesAsWritten(qs, answers).counts[ReactionType] == 1
            && TalliesAsWritten(qs, answers).scores[ReactionType] == 1
            && TopicCount(qs, ReactionType) == 2
            && TopicScore(qs, answers, ReactionType) == 1
  {
    var q2 := Question(2, ReactionType, Choice(1));
    var q21 := Question(21, ReactionType, Label(LABEL_D));
    assert QUESTIONS[1] == q2 && QUESTIONS[6] == q21;
    var answers := map[2 := Picked(0), 21 := Labelled(LABEL_D)];
    assert Lookup(answers, 2) == Some(Picked(0));
    assert Lookup(answers, 21) == Some(Labelled(LABEL_D));
    assert !IsCorrect(q2, Lookup(answers, 2));
    assert IsCorrect(q21, Lookup(answers, 21));
    TalliesSnoc([], answers, q2);
    TalliesSnoc([q2], answers, q21);
    assert [] + [q2] == [q2] && [q2] + [q21] == [q2, q21];
    assert Init([q2]) == [] && Last([q2]) == q2;
    assert Init([q2, q21]) == [q2] && Last([q2, q21]) == q21;
    var empty := Tallies(map[], map[]);
    assert TalliesAsWritten([], answers) == empty;
    var first := TallyStepAsWritten(empty, q2, false);
    assert first.scores[ReactionType] == 0 && first.counts[ReactionType] == 1;
    assert TalliesAsWritten([q2], answers) == first;
    var second := TallyStepAsWritten(first, q21, true);
    assert second.scores[ReactionType] == 1 && second.counts[ReactionType] == 1;
    assert TalliesAsWritten([q2, q21], answers) == second;
  }

  // ---------------------------------------------------------------- score, badge, radar

  /** `Math.round((correctCount / questions.length) * 100)`; None is the NaN of an empty bank. */
  function ScoreOf(correct: nat, total: nat): (s: Option<int>)
    ensures s.None? <==> total == 0
    ensures s.Some? ==> Abs(s.value as real - 100.0 * (correct as real / total as real)) <= 0.5
    ensures s.Some? && correct <= total ==> 0 <= s.value <= 100
  {
    if total == 0 then None
    else
      var ratio := correct as real / total as real;
      assert correct <= total ==> ratio <= 1.0 by {
        if correct <= total {
          assert ratio * total as real == correct as real;
        }
      }
      Some(MathRound(ratio * 100.0))
  }

  /** The badge ladder, lowest first. */
  datatype Badge = Participant | HeatPractitioner | EnthalpyExpert | GrandMaster

  function BadgeLabel(b: Badge): string
  {
    match b
    case Participant => "Participant"
    case HeatPractitioner => "Praktisi Kalor"
    case EnthalpyExpert => "Ahli Entalpi"
    case GrandMaster => "Grand Master Termokimia"
  }

  function Rank(b: Badge): nat
  {
    match b
    case Participant => 0
    case HeatPractitioner => 1
    case EnthalpyExpert => 2
    case GrandMaster => 3
  }

  /** Thresholds tested from the top: 90, 75, 50; a NaN score fails every test. */
  function BadgeFor(score: Option<int>): (b: Badge)
    ensures score.None? ==> b == Participant
    ensures score.Some? ==> (b == GrandMaster <==> 90 <= score.value)
    ensures score.Some? ==> (b == EnthalpyExpert <==> 75 <= score.value < 90)
    ensures score.Some? ==> (b == HeatPractitioner <==> 50 <= score.value < 75)
    ensures score.Some? ==> (b == Participant <==> score.value < 50)
  {
    match score
    case None => Participant
    case Some(s) =>
      if s >= 90 then GrandMaster
      else if s >= 75 then EnthalpyExpert
      else if s >= 50 then HeatPractitioner
      else Participant
  }

  /** The band each badge covers. */
  lemma BadgeBands(s: int)
    ensures BadgeFor(Some(s)) == GrandMaster <==> 90 <= s
    ensures BadgeFor(Some(s)) == EnthalpyExpert <==> 75 <= s < 90
    ensures BadgeFor(Some(s)) == HeatPractitioner <==> 50 <= s < 75
    ensures BadgeFor(Some(s)) == Participant <==> s < 50
  {
  }

  /** A higher score never earns a lower badge. */
  lemma BadgeMonotone(s1: int, s2: int)
    requires s1 <= s2
    ensures Rank(BadgeFor(Some(s1))) <= Rank(BadgeFor(Some(s2)))
  {
  }

  datatype RadarEntry = RadarEntry(subject: Topic, a: int, fullMark: int)

  /** The entry the `map` over `TOPICS` builds: `total = topicCounts[t] || 1`,
      `correct = topicScores[t] || 0`. */
  function RadarPoint(t: Topic, counts: map<Topic, nat>, scores: map<Topic, nat>): RadarEntry
  {
    var total := if t in counts && counts[t] != 0 then counts[t] else 1;
    var correct := Get(scores, t);
    RadarEntry(t, MathRound((correct as real / total as real) * 100.0), 100)
  }

  /** The filter `topicCounts[d.subject] > 0`. */
  predicate Shown(t: Topic, counts: map<Topic, nat>)
  {
    t in counts && counts[t] > 0
  }

  /** Scores never exceed counts (true of `Tally`'s result by `TopicScore`'s contract). */
  predicate ScoresWithinCounts(counts: map<Topic, nat>, scores: map<Topic, nat>)
  {
    forall t :: t in scores ==> t in counts && scores[t] <= counts[t]
  }

  lemma PercentBound(c: nat, n: nat)
    requires 0 < n && c <= n
    ensures 0 <= MathRound((c as real / n as real) * 100.0) <= 100
  {
    var ratio := c as real / n as real;
    assert ratio * n as real == c as real;
  }

  /** `TopicIndex` inverts indexing into `TOPICS`. */
  lemma IndexOfTopicAt(k: nat)
    requires k < |TOPICS|
    ensures TopicIndex(TOPICS[k]) == k
  {
  }

  /** `radarData` from the k-th topic on: the shown topics, in `TOPICS` order, each with its
      entry. */
  function RadarFrom(k: nat, counts: map<Topic, nat>, scores: map<Topic, nat>): (r: seq<RadarEntry>)
    requires k <= |TOPICS|
    ensures forall i :: 0 <= i < |r| ==> k <= TopicIndex(r[i].subject) && Shown(r[i].subject, counts)
    ensures forall i, j :: 0 <= i < j < |r| ==> TopicIndex(r[i].subject) < TopicIndex(r[j].subject)
    ensures forall i :: 0 <= i < |r| ==> r[i] == RadarPoint(r[i].subject, counts, scores)
    decreases |TOPICS| - k
  {
    if k == |TOPICS| then []
    else
      var rest := RadarFrom(k + 1, counts, scores);
      var t := TOPICS[k];
      IndexOfTopicAt(k);
      if Shown(t, counts) then [RadarPoint(t, counts, scores)] + rest else rest
  }

  /** A shown k-th topic heads the entries from k on. */
  lemma RadarHead(k: nat, counts: map<Topic, nat>, scores: map<Topic, nat>)
    requires k < |TOPICS| && Shown(TOPICS[k], counts)
    ensures RadarFrom(k, counts, scores) != [] && RadarFrom(k, counts, scores)[0].subject == TOPICS[k]
  {
  }

  /** The entries from k on contain those from k + 1 on, one place further when the k-th
      topic is shown. */
  lemma RadarTail(k: nat, counts: map<Topic, nat>, scores: map<Topic, nat>, j: nat)
    requires k < |TOPICS| && j < |RadarFrom(k + 1, counts, scores)|
    ensures var i := if Shown(TOPICS[k], counts) then j + 1 else j;
            i < |RadarFrom(k, counts, scores)| && RadarFrom(k, counts, scores)[i] == RadarFrom(k + 1, counts, scores)[j]
  {
    var r := RadarFrom(k, counts, scores);
    var rest := RadarFrom(k + 1, counts, scores);
    if Shown(TOPICS[k], counts) {
      assert r == [RadarPoint(TOPICS[k], counts, scores)] + rest;
      assert r[j + 1] == rest[j];
    } else {
      assert r == rest;
      assert r[j] == rest[j];
    }
  }

  /** Every shown topic from the k-th on has its entry. */
  lemma {:induction false} RadarComplete(k: nat, counts: map<Topic, nat>, scores: map<Topic, nat>, t: Topic)
    requires k <= TopicIndex(t) && Shown(t, counts)
    ensures exists i :: 0 <= i < |RadarFrom(k, counts, scores)| && RadarFrom(k, counts, scores)[i].subject == t
    decreases |TOPICS| - k
  {
    if TopicIndex(t) == k {
      RadarHead(k, counts, scores);
    } else {
      RadarComplete(k + 1, counts, scores, t);
      var rest := RadarFrom(k + 1, counts, scores);
      var j :| 0 <= j < |rest| && rest[j].subject == t;
      RadarTail(k, counts, scores, j);
      var i := if Shown(TOPICS[k], counts) then j + 1 else j;
      assert RadarFrom(k, counts, scores)[i].subject == t;
    }
  }

  /** When no score exceeds its count, every radar value is a percentage. */
  lemma RadarBounded(counts: map<Topic, nat>, scores: map<Topic, nat>, i: nat)
    requires ScoresWithinCounts(counts, scores) && i < |RadarFrom(0, counts, scores)|
    ensures 0 <= RadarFrom(0, counts, scores)[i].a <= 100
  {
    var t := RadarFrom(0, counts, scores)[i].subject;
    assert Shown(t, counts);
    PercentBound(Get(scores, t), counts[t]);
  }

  /** The tallies of `Tally` never score a topic above its count. */
  lemma TallyScoresWithinCounts(qs: seq<Question>, answers: map<int, Answer>,
                                counts: map<Topic, nat>, scores: map<Topic, nat>)
    requires forall u :: u in counts ==> counts[u] == TopicCount(qs, u)
    requires scores.Keys == counts.Keys
    requires forall u :: u in scores ==> scores[u] == TopicScore(qs, answers, u)
    ensures ScoresWithinCounts(counts, scores)
  {
    forall u | u in scores
      ensures u in counts && scores[u] <= counts[u]
    {
      assert scores[u] == TopicScore(qs, answers, u);
    }
  }

  /** A topic has a radar entry iff it is shown. */
  lemma RadarShownIff(counts: map<Topic, nat>, scores: map<Topic, nat>, t: Topic)
    ensures (exists i :: 0 <= i < |RadarFrom(0, counts, scores)| && RadarFrom(0, counts, scores)[i].subject == t)
        <==> Shown(t, counts)
  {
    if Shown(t, counts) {
      RadarComplete(0, counts, scores, t);
    }
  }

  /** On the tallies of `Tally`, a topic has a radar entry iff some item is on it, and the
      entry is the rounded percentage of that topic's items answered correctly. */
  lemma RadarOfTally(qs: seq<Question>, answers: map<int, Answer>,
                     counts: map<Topic, nat>, scores: map<Topic, nat>, t: Topic)
    requires TalliedAs(qs, answers, scores, counts)
    ensures (exists i :: 0 <= i < |RadarFrom(0, counts, scores)| && RadarFrom(0, counts, scores)[i].subject == t)
        <==> TopicCount(qs, t) > 0
    ensures TopicCount(qs, t) > 0 ==>
      RadarPoint(t, counts, scores).a == MathRound((TopicScore(qs, answers, t) as real / TopicCount(qs, t) as real) * 100.0)
  {
    RadarShownIff(counts, scores, t);
    TalliedShown(qs, answers, counts, scores, t);
    if TopicCount(qs, t) > 0 {
      TalliedPoint(qs, answers, counts, scores, t);
    }
  }

  lemma TalliedShown(qs: seq<Question>, answers: map<int, Answer>,
                     counts: map<Topic, nat>, scores: map<Topic, nat>, t: Topic)
    requires TalliedAs(qs, answers, scores, counts)
    ensures Shown(t, counts) <==> TopicCount(qs, t) > 0
  {
    if t in counts {
      assert counts[t] == TopicCount(qs, t);
    }
  }

  lemma TalliedPoint(qs: seq<Question>, answers: map<int, Answer>,
                     counts: map<Topic, nat>, scores: map<Topic, nat>, t: Topic)
    requires TalliedAs(qs, answers, scores, counts) && TopicCount(qs, t) > 0
    ensures RadarPoint(t, counts, scores).a
            == MathRound((TopicScore(qs, answers, t) as real / TopicCount(qs, t) as real) * 100.0)
  {
    assert t in counts && t in scores;
    assert counts[t] == TopicCount(qs, t);
    assert scores[t] == TopicScore(qs, answers, t);
  }

  // ---------------------------------------------------------------- results

  datatype Report = Report(score: Option<int>, correctCount: nat, total: nat, radar: seq<RadarEntry>,
                           badge: Badge, topicScores: map<Topic, nat>, topicCounts: map<Topic, nat>)

  /** `calculateResults` on a submitted sheet. */
  method Grade(qs: seq<Question>, answers: map<int, Answer>) returns (r: Report)
    ensures r.total == |qs| && r.correctCount == CorrectCount(qs, answers)
    ensures forall t :: t in r.topicCounts <==> TopicCount(qs, t) > 0
    ensures forall t :: t in r.topicCounts ==> r.topicCounts[t] == TopicCount(qs, t)
    ensures r.topicScores.Keys == r.topicCounts.Keys
    ensures forall t :: t in r.topicScores ==> r.topicScores[t] == TopicScore(qs, answers, t)
    ensures r.score == ScoreOf(r.correctCount, |qs|)
    ensures qs != [] ==> r.score.Some? && 0 <= r.score.value <= 100
    ensures r.badge == BadgeFor(r.score)
    ensures r.radar == RadarFrom(0, r.topicCounts, r.topicScores)
    ensures forall i :: 0 <= i < |r.radar| ==> 0 <= r.radar[i].a <= 100
  {
    var correctCount, topicScores, topicCounts := Tally(qs, answers);
    var score := ScoreOf(correctCount, |qs|);
    TallyScoresWithinCounts(qs, answers, topicCounts, topicScores);
    var radar := RadarFrom(0, topicCounts, topicScores);
    forall i | 0 <= i < |radar|
      ensures 0 <= radar[i].a <= 100
    {
      RadarBounded(topicCounts, topicScores, i);
    }
    r := Report(score, correctCount, |qs|, radar, BadgeFor(score), topicScores, topicCounts);
  }

  // ---------------------------------------------------------------- session

  const EXAM_SECONDS: nat := 30 * 60

  datatype SessionState = SessionState(
    currentIndex: int,
    answers: map<int, Answer>,
    flagged: set<int>,
    examMode: bool,
    timer: int,
    timerActive: bool,
    submitted: bool,
    showConfirm: bool)

  /** The state the page mounts with. */
  const INITIAL: SessionState := SessionState(0, map[], {}, false, EXAM_SECONDS, false, false, false)

  /** The index and the timer stay in range. */
  predicate ValidState(s: SessionState)
  {
    0 <= s.currentIndex < |QUESTIONS| && 0 <= s.timer <= EXAM_SECONDS
  }

  /** What the user (or the clock) can do. */
  datatype Event =
    | Start(exam: bool)       // a button of the start overlay
    | Tick                    // one second of the interval, then the effect re-run
    | AnswerCurrent(a: Answer)
    | ToggleFlag
    | OpenConfirm             // the sidebar "Submit Assessment" or the last item's "Finish"
    | CancelConfirm
    | ConfirmSubmit
    | Prev
    | Next
    | GoTo(index: int)        // a button of the question grid

  function CurrentId(s: SessionState): int
    requires ValidState(s)
  {
    QUESTIONS[s.currentIndex].id
  }

  /** The start overlay is on screen. */
  predicate StartScreen(s: SessionState)
  {
    !s.timerActive && !s.submitted && s.timer == EXAM_SECONDS
  }

  /** `handleStart`: both modes run the same 30-minute timer. */
  function Started(s: SessionState, exam: bool): SessionState
  {
    s.(examMode := exam, timer := EXAM_SECONDS, timerActive := true, answers := map[],
       flagged := {}, submitted := false, currentIndex := 0)
  }

  /** `handleSubmit`. */
  function Submitted(s: SessionState): SessionState
  {
    s.(timerActive := false, submitted := true, showConfirm := false, currentIndex := 0)
  }

  /** The interval decrements while the clock runs; the effect then submits at 0. */
  function Ticked(s: SessionState): SessionState
  {
    var s1 := if s.timerActive && s.timer > 0 && !s.submitted then s.(timer := s.timer - 1) else s;
    if s1.timer == 0 && !s1.submitted then Submitted(s1) else s1
  }

  function Toggled(flagged: set<int>, id: int): set<int>
  {
    if id in flagged then flagged - {id} else flagged + {id}
  }

  /** The effect of one event; answer, flag and submit controls are disabled or hidden
      once the sheet is submitted. */
  function Step(s: SessionState, e: Event): (r: SessionState)
    requires ValidState(s)
    ensures ValidState(r)
  {
    match e
    case Start(exam) => if StartScreen(s) then Started(s, exam) else s
    case Tick => Ticked(s)
    case AnswerCurrent(a) => if s.submitted then s else s.(answers := s.answers[CurrentId(s) := a])
    case ToggleFlag => if s.submitted then s else s.(flagged := Toggled(s.flagged, CurrentId(s)))
    case OpenConfirm => if s.submitted then s else s.(showConfirm := true)
    case CancelConfirm => s.(showConfirm := false)
    case ConfirmSubmit => if s.showConfirm then Submitted(s) else s
    case Prev => if s.currentIndex > 0 then s.(currentIndex := s.currentIndex - 1) else s
    case Next => if s.currentIndex < |QUESTIONS| - 1 then s.(currentIndex := s.currentIndex + 1) else s
    case GoTo(i) => if 0 <= i < |QUESTIONS| then s.(currentIndex := i) else s
  }

  function Run(s: SessionState, es: seq<Event>): SessionState
    requires ValidState(s)
    decreases |es|
  {
    if es == [] then s else Run(Step(s, es[0]), es[1..])
  }

  lemma {:induction false} RunValid(s: SessionState, es: seq<Event>)
    requires ValidState(s)
    ensures ValidState(Run(s, es))
    decreases |es|
  {
    if es != [] {
      RunValid(Step(s, es[0]), es[1..]);
    }
  }

  /** Submitting twice is submitting once. */
  lemma SubmitIdempotent(s: SessionState)
    ensures Submitted(Submitted(s)) == Submitted(s)
  {
  }

  /** Toggling the flag twice restores the flag set. */
  lemma ToggleTwice(flagged: set<int>, id: int)
    ensures Toggled(Toggled(flagged, id), id) == flagged
  {
    if id in flagged {
      assert flagged - {id} + {id} == flagged;
    } else {
      assert flagged + {id} - {id} == flagged;
    }
  }

  /** Toggling changes the current item's flag and no other. */
  lemma ToggleOnlyCurrent(flagged: set<int>, id: int, other: int)
    ensures other in Toggled(flagged, id) <==> (if other == id then other !in flagged else other in flagged)
  {
  }

  /** Answering records the answer for the current item and leaves every other item's
      answer, and so its grade, as it was. */
  lemma AnswerOnlyCurrent(s: SessionState, a: Answer, j: nat)
    requires ValidState(s) && !s.submitted && j < |QUESTIONS|
    ensures Lookup(Step(s, AnswerCurrent(a)).answers, CurrentId(s)) == Some(a)
    ensures j != s.currentIndex ==>
      Lookup(Step(s, AnswerCurrent(a)).answers, QUESTIONS[j].id) == Lookup(s.answers, QUESTIONS[j].id)
  {
    QuestionIdsDistinct(j, s.currentIndex);
  }

  /** Once submitted, no event changes the answers or the flags, or reopens the sheet. */
  lemma StepFrozen(s: SessionState, e: Event)
    requires ValidState(s) && s.submitted
    ensures Step(s, e).submitted && Step(s, e).answers == s.answers && Step(s, e).flagged == s.flagged
  {
  }

  lemma {:induction false} RunFrozen(s: SessionState, es: seq<Event>)
    requires ValidState(s) && s.submitted
    ensures Run(s, es).submitted && Run(s, es).answers == s.answers && Run(s, es).flagged == s.flagged
    decreases |es|
  {
    if es != [] {
      StepFrozen(s, es[0]);
      RunFrozen(Step(s, es[0]), es[1..]);
    }
  }

  function Ticks(k: nat): (es: seq<Event>)
    ensures |es| == k && forall i :: 0 <= i < k ==> es[i] == Tick
  {
    seq(k, _ => Tick)
  }

  /** A running clock counts down one second per tick and submits on reaching 0. */
  lemma {:induction false} CountDown(s: SessionState, k: nat)
    requires ValidState(s) && s.timerActive && !s.submitted && k <= s.timer
    ensures k < s.timer ==> Run(s, Ticks(k)) == s.(timer := s.timer - k)
    ensures k == s.timer && k > 0 ==> Run(s, Ticks(k)) == Submitted(s.(timer := 0))
    decreases k
  {
    if k > 0 {
      var s1 := Step(s, Tick);
      assert Ticks(k)[0] == Tick && Ticks(k)[1..] == Ticks(k - 1);
      if k < s.timer || s.timer > 1 {
        assert s1 == s.(timer := s.timer - 1);
        CountDown(s1, k - 1);
      } else {
        assert s1 == Submitted(s.(timer := 0));
        RunFrozen(s1, Ticks(k - 1));
        assert Ticks(k - 1) == [];
      }
    }
  }

  /** After the start the sheet is still open for 1799 ticks and submitted at the 1800th. */
  lemma ExamExpires(s: SessionState, exam: bool)
    requires ValidState(s) && StartScreen(s)
    ensures !Run(Step(s, Start(exam)), Ticks(EXAM_SECONDS - 1)).submitted
    ensures Run(Step(s, Start(exam)), Ticks(EXAM_SECONDS)).submitted
    ensures Run(Step(s, Start(exam)), Ticks(EXAM_SECONDS)).timer == 0
  {
    var s0 := Step(s, Start(exam));
    CountDown(s0, EXAM_SECONDS - 1);
    CountDown(s0, EXAM_SECONDS);
  }

  /** The start overlay resets the session. */
  lemma StartResets(s: SessionState, exam: bool)
    requires ValidState(s) && StartScreen(s)
    ensures var s1 := Step(s, Start(exam));
            s1.answers == map[] && s1.flagged == {} && s1.timer == EXAM_SECONDS && s1.timerActive
            && !s1.submitted && s1.currentIndex == 0 && s1.examMode == exam
  {
  }

  /** The exam page: the fields the handlers update. */
  class Session {
    var currentIndex: int
    var answers: map<int, Answer>
    var flagged: set<int>
    var examMode: bool
    var timer: int
    var timerActive: bool
    var submitted: bool
    var showConfirm: bool

    function State(): SessionState
      reads this
    {
      SessionState(currentIndex, answers, flagged, examMode, timer, timerActive, submitted, showConfirm)
    }

    ghost predicate Valid()
      reads this
    {
      ValidState(State())
    }

    constructor ()
      ensures State() == INITIAL && Valid()
    {
      currentIndex := 0;
      answers := map[];
      flagged := {};
      examMode := false;
      timer := EXAM_SECONDS;
      timerActive := false;
      submitted := false;
      showConfirm := false;
    }

    method HandleSubmit()
      requires Valid()
      modifies this
      ensures State() == Submitted(old(State())) && Valid()
    {
      timerActive := false;
      submitted := true;
      showConfirm := false;
      currentIndex := 0;
    }

    method HandleStart(exam: bool)
      requires Valid() && StartScreen(State())
      modifies this
      ensures State() == Step(old(State()), Start(exam)) && Valid()
    {
      examMode := exam;
      timer := EXAM_SECONDS;
      timerActive := true;
      answers := map[];
      flagged := {};
      submitted := false;
      currentIndex := 0;
    }

    method Tick()
      requires Valid()
      modifies this
      ensures State() == Step(old(State()), Event.Tick) && Valid()
    {
      if timerActive && timer > 0 && !submitted {
        timer := timer - 1;
      }
      if timer == 0 && !submitted {
        HandleSubmit();
      }
    }

    method HandleAnswer(a: Answer)
      requires Valid()
      modifies this
      ensures State() == Step(old(State()), AnswerCurrent(a)) && Valid()
    {
      if !submitted {
        answers := answers[QUESTIONS[currentIndex].id := a];
      }
    }

    method ToggleFlag()
      requires Valid()
      modifies this
      ensures State() == Step(old(State()), Event.ToggleFlag) && Valid()
    {
      if !submitted {
        var id := QUESTIONS[currentIndex].id;
        if id in flagged {
          flagged := flagged - {id};
        } else {
          flagged := flagged + {id};
        }
      }
    }

    method OpenConfirm()
      requires Valid()
      modifies this
      ensures State() == Step(old(State()), Event.OpenConfirm) && Valid()
    {
      if !submitted {
        showConfirm := true;
      }
    }

    method CancelConfirm()
      requires Valid()
      modifies this
      ensures State() == Step(old(State()), Event.CancelConfirm) && Valid()
    {
      showConfirm := false;
    }

    method ConfirmSubmit()
      requires Valid()
      modifies this
      ensures State() == Step(old(State()), Event.ConfirmSubmit) && Valid()
    {
      if showConfirm {
        HandleSubmit();
      }
    }

    method Prev()
      requires Valid()
      modifies this
      ensures State() == Step(old(State()), Event.Prev) && Valid()
    {
      if currentIndex > 0 {
        currentIndex := currentIndex - 1;
      }
    }

    method Next()
      requires Valid()
      modifies this
      ensures State() == Step(old(State()), Event.Next) && Valid()
    {
      if currentIndex < |QUESTIONS| - 1 {
        currentIndex := currentIndex + 1;
      }
    }

    method GoTo(i: int)
      requires Valid()
      modifies this
      ensures State() == Step(old(State()), Event.GoTo(i)) && Valid()
    {
      if 0 <= i < |QUESTIONS| {
        currentIndex := i;
      }
    }

    /** `calculateResults`: nothing before submission, the graded sheet after. */
    method Results() returns (r: Option<Report>)
      ensures r.None? <==> !submitted
      ensures r.Some? ==> r.value.total == |QUESTIONS| && r.value.correctCount == CorrectCount(QUESTIONS, answers)
      ensures r.Some? ==> r.value.score == ScoreOf(r.value.correctCount, |QUESTIONS|)
      ensures r.Some? ==> r.value.score.Some? && 0 <= r.value.score.value <= 100 && r.value.badge == BadgeFor(r.value.score)
      ensures r.Some? ==> forall t :: t in r.value.topicCounts <==> TopicCount(QUESTIONS, t) > 0
      ensures r.Some? ==> forall t :: t in r.value.topicCounts ==> r.value.topicCounts[t] == TopicCount(QUESTIONS, t)
      ensures r.Some? ==> r.value.topicScores.Keys == r.value.topicCounts.Keys
      ensures r.Some? ==> forall t :: t in r.value.topicScores ==> r.value.topicScores[t] == TopicScore(QUESTIONS, answers, t)
      ensures r.Some? ==> r.value.radar == RadarFrom(0, r.value.topicCounts, r.value.topicScores)
      ensures r.Some? ==> forall i :: 0 <= i < |r.value.radar| ==> 0 <= r.value.radar[i].a <= 100
    {
      if !submitted {
        return None;
      }
      var report := Grade(QUESTIONS, answers);
      r := Some(report);
    }
  }
}
