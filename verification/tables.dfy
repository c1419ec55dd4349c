/** The fixed vocabularies of the survey: the Likert agreement scale, the
    overall-effectiveness scale and the closed list of rated questions. */
module Tables {

  /** Agreement answer to score. */
  const LikertMap: map<string, int> := map[
    "Strongly Agree" := 5,
    "Agree" := 4,
    "Uncertain" := 3,
    "Disagree" := 2,
    "Strongly Disagree" := 1
  ]

  /** Overall-effectiveness answer to score. The scale has no "Poor" entry:
      its lowest category is "Very Poor". */
  const EffectivenessMap: map<string, int> := map[
    "Excellent" := 5,
    "Very Good" := 4,
    "Good" := 3,
    "Fair" := 2,
    "Very Poor" := 1
  ]

  /** A rated question: one constructor per entry of the question table. The
      table's dictionary keys and values are the question's text and short
      label; both are recovered by the functions below. */
  datatype Label =
    | OutcomesStated
    | OutcomesAddressed
    | Interactions
    | Accessible
    | ReceivedFeedback
    | Challenged
    | Interest

  /** The question text searched for in column names. */
  function QuestionText(l: Label): string {
    match l
    case OutcomesStated => "Learning outcomes for the course were clearly stated"
    case OutcomesAddressed => "The learning outcomes were effectively addressed in the course"
    case Interactions => "There were constructive interactions between the instructor and the students"
    case Accessible => "The instructor was accessible for discussions about the course"
    case ReceivedFeedback => "I received feedback that improved my learning in this course"
    case Challenged => "The course challenged me to do my best work"
    case Interest => "My experience in the course increased my interest in the subject matter"
  }

  /** The short label the question's scores are reported and keyed under. */
  function Name(l: Label): string {
    match l
    case OutcomesStated => "Outcomes Stated"
    case OutcomesAddressed => "Outcomes Addressed"
    case Interactions => "Interactions"
    case Accessible => "Accessible"
    case ReceivedFeedback => "Feedback"
    case Challenged => "Challenged"
    case Interest => "Interest"
  }

  /** The rated questions in the table's declared order. */
  const Questions: seq<Label> :=
    [OutcomesStated, OutcomesAddressed, Interactions, Accessible, ReceivedFeedback, Challenged, Interest]

  /** Every score of either scale lies in [1,5]. */
  predicate IsScore(x: int) {
    1 <= x <= 5
  }

  /** Both scales send their answers into 1..5 and take every score there,
      and no answer belongs to both, so a single answer never feeds both
      series. */
  lemma ScalesAreFivePoint()
    ensures forall v :: v in LikertMap ==> IsScore(LikertMap[v])
    ensures forall v :: v in EffectivenessMap ==> IsScore(EffectivenessMap[v])
    ensures forall x :: IsScore(x) ==> x in LikertMap.Values && x in EffectivenessMap.Values
    ensures LikertMap.Keys !! EffectivenessMap.Keys
  {
    LikertIsFivePoint();
    EffectivenessIsFivePoint();
  }

  /** Every agreement answer is a score, and the scale takes every score. */
  lemma LikertIsFivePoint()
    ensures forall v :: v in LikertMap ==> IsScore(LikertMap[v])
    ensures forall x :: IsScore(x) ==> x in LikertMap.Values
  {
    assert LikertMap["Strongly Disagree"] == 1 && LikertMap["Disagree"] == 2;
    assert LikertMap["Uncertain"] == 3 && LikertMap["Agree"] == 4;
    assert LikertMap["Strongly Agree"] == 5;
  }

  /** Every effectiveness answer is a score, and the scale takes every
      score. */
  lemma EffectivenessIsFivePoint()
    ensures forall v :: v in EffectivenessMap ==> IsScore(EffectivenessMap[v])
    ensures forall x :: IsScore(x) ==> x in EffectivenessMap.Values
  {
    assert EffectivenessMap["Very Poor"] == 1 && EffectivenessMap["Fair"] == 2;
    assert EffectivenessMap["Good"] == 3 && EffectivenessMap["Very Good"] == 4;
    assert EffectivenessMap["Excellent"] == 5;
  }

  /** Question `i` in declared order. */
  predicate IsQuestionIndex(i: int) {
    0 <= i < |Questions|
  }

  /** The table lists every question; `QuestionsDistinct` shows it lists
      none twice. */
  lemma QuestionsListed(l: Label)
    ensures exists i :: IsQuestionIndex(i) && Questions[i] == l
  {
    match l
    case OutcomesStated => assert Questions[0] == l;
    case OutcomesAddressed => assert Questions[1] == l;
    case Interactions => assert Questions[2] == l;
    case Accessible => assert Questions[3] == l;
    case ReceivedFeedback => assert Questions[4] == l;
    case Challenged => assert Questions[5] == l;
    case Interest => assert Questions[6] == l;
  }

  /** Where a question sits in the declared order. */
  function Position(l: Label): (i: nat)
    ensures IsQuestionIndex(i) && Questions[i] == l
  {
    match l
    case OutcomesStated => 0
    case OutcomesAddressed => 1
    case Interactions => 2
    case Accessible => 3
    case ReceivedFeedback => 4
    case Challenged => 5
    case Interest => 6
  }

  lemma PositionOf(i: int)
    requires IsQuestionIndex(i)
    ensures Position(Questions[i]) == i
  {
    if Position(Questions[i]) != i {
      QuestionsDistinct(Position(Questions[i]), i);
    }
  }

  lemma QuestionsDistinct(i: int, j: int)
    requires IsQuestionIndex(i) && IsQuestionIndex(j) && i != j
    ensures Questions[i] != Questions[j]
  {
  }

  /** Labels are pairwise distinct: a label string names exactly one
      question, so keying by `Label` is keying by the string. */
  lemma NamesDistinct(l: Label, m: Label)
    requires l != m
    ensures Name(l) != Name(m)
  {
  }

  /** The entry behind `[k for k, v in QUESTION_LABELS.items() if v == label][0]`:
      the first question, in declared order, whose label is `name`. */
  function LabelFor(name: string): (r: Label)
    requires exists l :: Name(l) == name
    ensures Name(r) == name
  {
    var l :| Name(l) == name;
    QuestionsListed(l);
    FirstLabelFor(name, 0)
  }

  function FirstLabelFor(name: string, from: nat): (r: Label)
    requires exists i :: from <= i < |Questions| && Name(Questions[i]) == name
    ensures Name(r) == name
    decreases |Questions| - from
  {
    if Name(Questions[from]) == name then Questions[from] else FirstLabelFor(name, from + 1)
  }

  /** Looking up a question's label gives back that question, hence its full
      text. */
  lemma LabelForRoundTrip(l: Label)
    ensures LabelFor(Name(l)) == l
  {
    var m := LabelFor(Name(l));
    if m != l {
      NamesDistinct(l, m);
    }
  }
}
