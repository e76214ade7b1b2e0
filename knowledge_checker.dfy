/** The student knowledge checker `checkStudentKnowledge`: compares a student's
    answers with the correct ones. An answer object is modelled as its list of
    (question, answer) pairs in the object's property enumeration order, and the
    comparison is positional: the same pairs enumerated in a different order do
    not match. */
module KnowledgeChecker {

  /** An answer as the tests write them: text, a number, `null` or `undefined`. */
  datatype Value = Str(s: string) | Num(n: int) | Null | Undefined

  /** An answer object: its (question, answer) pairs in property enumeration order
      (insertion order for question keys such as "q1"). */
  type Answers = seq<(string, Value)>

  /** Strict equality (`===`): values of different kinds are never equal. */
  predicate StrictEquals(a: Value, b: Value)
    ensures StrictEquals(a, b) <==> a == b
  {
    match (a, b)
    case (Str(x), Str(y)) => x == y
    case (Num(x), Num(y)) => x == y
    case (Null, Null) => true
    case (Undefined, Undefined) => true
    case _ => false
  }

  /** True when both objects list the same questions, in the same order, with
      strictly equal answers. */
  function CheckStudentKnowledge(student: Answers, correct: Answers): (r: bool)
    ensures r <==> student == correct
  {
    if |student| != |correct| then false
    else if student == [] then true
    else
      && student[0].0 == correct[0].0
      && StrictEquals(student[0].1, correct[0].1)
      && CheckStudentKnowledge(student[1..], correct[1..])
  }

  lemma CheckIsReflexive(answers: Answers)
    ensures CheckStudentKnowledge(answers, answers)
  {
  }

  /** Two empty objects match. */
  lemma EmptyAnswersMatch()
    ensures CheckStudentKnowledge([], [])
  {
  }

  /** A student who answered fewer questions fails. */
  lemma MissingAnswerFails(student: Answers, correct: Answers)
    requires |student| < |correct|
    ensures !CheckStudentKnowledge(student, correct)
  {
  }

  /** One answer that is not strictly equal to the correct one fails the check,
      whatever kinds of values the two are (`null`, `undefined`, text, number). */
  lemma WrongAnswerFails(student: Answers, correct: Answers, i: nat)
    requires i < |student| && i < |correct|
    requires !StrictEquals(student[i].1, correct[i].1)
    ensures !CheckStudentKnowledge(student, correct)
  {
  }

  /** The object built by evaluating the pairs in order onto `m`: a later pair for
      the same question overwrites an earlier one. */
  function AddAll(m: map<string, Value>, answers: Answers): map<string, Value>
    decreases |answers|
  {
    if answers == [] then m else AddAll(m[answers[0].0 := answers[0].1], answers[1..])
  }

  /** The key/value content of an answer object, ignoring enumeration order. */
  function ToMap(answers: Answers): map<string, Value> {
    AddAll(map[], answers)
  }

  /** `answers` with its entries at `i` and `i + 1` exchanged. */
  function SwapAdjacent(answers: Answers, i: nat): (r: Answers)
    requires i + 1 < |answers|
    ensures |r| == |answers| && r[i] == answers[i + 1] && r[i + 1] == answers[i]
    ensures forall k :: 0 <= k < |answers| && k != i && k != i + 1 ==> r[k] == answers[k]
  {
    answers[..i] + [answers[i + 1], answers[i]] + answers[i + 2..]
  }

  lemma {:induction false} AddAllSwapAdjacent(m: map<string, Value>, answers: Answers, i: nat)
    requires i + 1 < |answers| && answers[i].0 != answers[i + 1].0
    ensures AddAll(m, SwapAdjacent(answers, i)) == AddAll(m, answers)
    decreases i
  {
    var swapped := SwapAdjacent(answers, i);
    if i == 0 {
      var (k0, v0) := answers[0];
      var (k1, v1) := answers[1];
      assert m[k0 := v0][k1 := v1] == m[k1 := v1][k0 := v0];
      assert swapped[2..] == answers[2..];
    } else {
      assert swapped[0] == answers[0];
      assert swapped[1..] == SwapAdjacent(answers[1..], i - 1);
      AddAllSwapAdjacent(m[answers[0].0 := answers[0].1], answers[1..], i - 1);
    }
  }

  /** Exchanging two neighbouring questions in the enumeration keeps every
      question's answer the same, yet the check fails: question order matters. */
  lemma ReorderedAnswersFail(correct: Answers, i: nat)
    requires i + 1 < |correct| && correct[i].0 != correct[i + 1].0
    ensures ToMap(SwapAdjacent(correct, i)) == ToMap(correct)
    ensures !CheckStudentKnowledge(SwapAdjacent(correct, i), correct)
  {
    AddAllSwapAdjacent(map[], correct, i);
    assert SwapAdjacent(correct, i)[i] != correct[i];
  }

  /** A passing check implies the two objects have the same questions and answers. */
  lemma CheckImpliesSameContent(student: Answers, correct: Answers)
    requires CheckStudentKnowledge(student, correct)
    ensures ToMap(student) == ToMap(correct)
  {
  }

  /** The cases of the tests: a null or undefined answer never matches text. */
  lemma NullAndUndefinedNeverMatchText(s: string)
    ensures !StrictEquals(Null, Str(s)) && !StrictEquals(Str(s), Null)
    ensures !StrictEquals(Undefined, Str(s))
  {
  }

  lemma TestCases()
    ensures CheckStudentKnowledge([("q1", Str("A")), ("q2", Num(42))], [("q1", Str("A")), ("q2", Num(42))])
    ensures !CheckStudentKnowledge([("q1", Str("A")), ("q2", Null)], [("q1", Str("A")), ("q2", Str("B"))])
    ensures !CheckStudentKnowledge(
      [("q1", Str("A")), ("q2", Str("B")), ("q3", Str("C"))],
      [("q1", Str("A")), ("q3", Str("C")), ("q2", Str("B"))])
  {
  }
}
