/**
 A run in which a student answers the one question of the paper right and is graded zero, for good: the
 grading scan breaks before it delivers the answer, and the code takes that for the end of the result.
 */
module LostRow {
  import opened RoomSchema
  import opened Grading
  import opened RoomSpec
  import opened RoomRuns
  import opened RoomGrades
  import opened SecondPaper

  function Answering(): Event {
    Event(Call.SubmitExam(1, [(1, "A")], 25), {GradeRow(1, 1)})
  }

  lemma AnswerIsTaken()
    ensures SubmitSucceeds(FirstGiven(), Answering().call, Answering().faults)
  {
    assert SavedFrom(1, Answering().faults, 0) == 1;
  }

  /** Whatever was saved before, the answer in the last list is right. */
  lemma AnswerIsRight(earlier: Choices)
    ensures 1 in Right(Filled(earlier + [(1, "A")]), TwoQuestions())
  {
    var list := earlier + [(1, "A")];
    FilledOverrides(list);
    assert LastChoice(list, 1).Some? && LastChoice(list, 1).value == "A";
  }

  /** Call k submits, succeeds, and stores a grade that is not that of all the answers saved for the exam. */
  ghost predicate LosesTheAnswer(bank: Bank, states: seq<Db>, events: seq<Event>, k: nat) {
    && Run(bank, states, events) && k < |events|
    && events[k].call.SubmitExam? && SubmitSucceeds(states[k], events[k].call, events[k].faults)
    && var c := events[k].call;
    && c.exam in states[k + 1].exams
    && states[k + 1].exams[c.exam] !=
         Graded(states[k].exams[c.exam], Marks(Filled(History(states, events, c.exam, k) + c.list), bank, |c.list|), c.now)
  }

  lemma AnsweringLosesIt(states: seq<Db>, events: seq<Event>, k: nat)
    requires Run(TwoQuestions(), states, events) && k < |events|
    requires states[k] == FirstGiven() && events[k] == Answering()
    ensures LosesTheAnswer(TwoQuestions(), states, events, k)
  {
    AnswerIsTaken();
    AnswerIsRight(History(states, events, 1, k));
    LosingARightRowShows(TwoQuestions(), states, events, k, 1);
  }

  lemma GradeWithoutTheAnswer()
    ensures exists states: seq<Db>, events: seq<Event>, k: nat :: LosesTheAnswer(TwoQuestions(), states, events, k)
  {
    var states, events := OpenedRun(TwoQuestions(), OneEasy());
    FirstIsPlausible();
    FirstIsGiven();
    states, events := RunSnoc(TwoQuestions(), states, events, Event(GetPaper(1, 9, 20, [1], false), {}));
    states, events := RunSnoc(TwoQuestions(), states, events, Answering());
    AnsweringLosesIt(states, events, 4);
  }
}
