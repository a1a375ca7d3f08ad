/**
 A run in which a student is graded before being handed the paper: the first get_exam_paper fails at its
 COMMIT, the empty exam it leaves behind is submitted, and the second get_exam_paper succeeds.
 */
module LatePaper {
  import opened Wrappers
  import opened RoomSchema
  import opened Grading
  import opened RoomSpec
  import opened RoomInvariant
  import opened RoomMoves
  import opened RoomRuns
  import opened SecondPaper

  function Failing(): Event {
    Event(GetPaper(1, 9, 20, [1], false), {Commit})
  }

  function Submitting(): Event {
    Event(Call.SubmitExam(1, [], 25), {})
  }

  function Succeeding(): Event {
    Event(GetPaper(1, 9, 30, [1], false), {})
  }

  /** The student's exam: nothing answered, nothing asked, and graded. */
  function Submitted(): Db {
    FirstEmpty().(exams := map[1 := Exam(1, 9, 20, 80, 0, Some(Grade(25, 0, 0.0)))])
  }

  lemma FailingRow()
    ensures MayAsk(Before(), 1, 9, {Commit}) && Before().rooms[1].duration == 60
    ensures EnsureExam(Before(), 1, 9, 20, 80, {Commit}) == (FirstEmpty(), Some(1))
  {
    assert !HasExam(Before(), 1, 9);
  }

  lemma FailingOpens()
    ensures Opening(Before(), TwoQuestions(), GetPaper(1, 9, 20, [1], false), {Commit}) == (FirstEmpty(), Some(1))
  {
    FailingRow();
    assert OnPaper(FirstEmpty(), TwoQuestions(), 1) == {};
  }

  lemma FailingLeavesTheExam()
    ensures Next(Before(), TwoQuestions(), Failing()) == FirstEmpty()
  {
    FailingOpens();
  }

  lemma FailingIsPlausible()
    ensures Plausible(Before(), TwoQuestions(), Failing())
  {
    OneIsPicked(1, {Commit});
    PickIsPlausible(Before(), TwoQuestions(), Failing(), OneEasy());
  }

  lemma NothingIsMarked(answers: map<(int, int), string>, exam: int, bank: Bank)
    requires answers == map[]
    ensures Marks(Delivered(SheetOf(answers, exam), exam, {}), bank, 0) == (0, 0, 0.0)
  {
    var sheet := Delivered(SheetOf(answers, exam), exam, {});
    assert sheet == map[];
    assert Counted(sheet, bank) == {} && Right(sheet, bank) == {};
  }

  lemma EmptyIsGraded()
    ensures Next(FirstEmpty(), TwoQuestions(), Submitting()) == Submitted()
  {
    var s := FirstEmpty();
    NothingIsMarked(s.answers, 1, TwoQuestions());
    SubmitEffect(s, TwoQuestions(), Submitting().call, {});
    assert SubmitMarks(s, TwoQuestions(), Submitting().call, {}) == (0, 0, 0.0);
    assert s.exams[1 := Graded(s.exams[1], (0, 0, 0.0), 25)] == Submitted().exams;
  }

  lemma LateRow()
    ensures MayAsk(Submitted(), 1, 9, {}) && Submitted().rooms[1].duration == 60
    ensures EnsureExam(Submitted(), 1, 9, 30, 90, {}) == (Submitted(), Some(1))
  {
    assert IsExamOf(Submitted(), 1, 1, 9);
    assert ExamId(Submitted(), 1, 9) == 1;
  }

  lemma LateOpens()
    ensures Opening(Submitted(), TwoQuestions(), GetPaper(1, 9, 30, [1], false), {}) == (Submitted(), Some(1))
  {
    LateRow();
    assert OnPaper(Submitted(), TwoQuestions(), 1) == {};
  }

  lemma LateIsPlausible()
    ensures Plausible(Submitted(), TwoQuestions(), Succeeding())
  {
    OneIsPicked(1, {});
    PickIsPlausible(Submitted(), TwoQuestions(), Succeeding(), OneEasy());
  }

  lemma LateIsGiven()
    ensures Issues(Submitted(), TwoQuestions(), Succeeding()) && IssuedExam(Submitted(), TwoQuestions(), Succeeding()) == 1
  {
    LateOpens();
    SavesOne(Submitted().papers, 1, 1, {});
  }

  lemma LateRewrites()
    ensures var x := Next(Submitted(), TwoQuestions(), Succeeding()).exams;
            1 in x && x[1] == Submitted().exams[1].(total := 1)
  {
    LateOpens();
    LateIsGiven();
    GetPaperEffect(Submitted(), TwoQuestions(), Succeeding().call, {});
  }

  /** The last call hands out a paper for a graded exam, rewrites its question count, and returns times that are not stored. */
  ghost predicate GivesLate(bank: Bank, states: seq<Db>, events: seq<Event>) {
    && Run(bank, states, events) && |events| == 6
    && Issues(states[5], bank, events[5]) && IssuedExam(states[5], bank, events[5]) == 1
    && 1 in states[5].exams && states[5].exams[1].grade.Some?
    && 1 in states[6].exams && states[6].exams[1].total != states[5].exams[1].total
    && states[6].exams[1].startAt != events[5].call.now
  }

  /** Both happen in a run: a graded exam is changed, and a paper carries times that are not the stored ones. */
  lemma PaperAfterGrading()
    ensures exists states: seq<Db>, events: seq<Event> :: GivesLate(TwoQuestions(), states, events)
  {
    var states, events := OpenedRun(TwoQuestions(), OneEasy());
    FailingIsPlausible();
    FailingLeavesTheExam();
    states, events := RunSnoc(TwoQuestions(), states, events, Failing());
    EmptyIsGraded();
    states, events := RunSnoc(TwoQuestions(), states, events, Submitting());
    LateIsPlausible();
    LateIsGiven();
    LateRewrites();
    states, events := RunSnoc(TwoQuestions(), states, events, Succeeding());
    assert GivesLate(TwoQuestions(), states, events);
  }
}
