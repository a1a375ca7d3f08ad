/**
 What a grade is, said from the rows of the answers table and the questions of the bank: how many answers are
 right, how many count, and that the score is ten times their quotient.
 */
module RoomMarks {
  import opened Wrappers
  import opened RoomSchema
  import opened Grading
  import opened RoomSpec
  import opened RoomMoves
  import opened RoomRuns
  import opened RoomGrades

  lemma SubmitSavesAll(s: Db, bank: Bank, c: Call, faults: Faults)
    requires c.SubmitExam? && SubmitSucceeds(s, c, faults)
    ensures AfterSubmit(s, bank, c, faults).answers == Upsert(s.answers, c.exam, c.list)
  {
    assert Saved(c.list, faults) == c.list;
  }

  /**
   Whenever an exam is graded in a run, by submit_exam or by the sweep, the row stored then has the marks of the
   answers stored then; and submitted_at is the time of the call.
   */
  lemma StoredGradeIsOverTen(bank: Bank, states: seq<Db>, events: seq<Event>, k: nat, id: int)
    requires Run(bank, states, events) && k < |events|
    requires id in states[k].exams && states[k].exams[id].grade.None?
    requires id in states[k + 1].exams && states[k + 1].exams[id].grade.Some?
    ensures var x, c, faults := states[k + 1].exams[id], events[k].call, events[k].faults;
            && (c.SubmitExam? || c.AutoSubmit?)
            && x.grade.value.submittedAt == c.now
            && OverTen(states[k + 1].answers, bank, id, faults, x.grade.value.correct, x.total, x.grade.value.score,
                       if c.SubmitExam? then |c.list| else if SelectTotal(id) in faults then 0 else states[k].exams[id].total)
  {
    var s, e := states[k], events[k];
    StepMoves(bank, states, events, k);
    assert StepAt(bank, states, events, k);
    GradesOfMove(s, bank, e, states[k + 1], id);
    if e.call.SubmitExam? {
      NextIsSubmit(s, bank, e);
      SubmitGives(s, bank, e.call, e.faults);
      SubmitSavesAll(s, bank, e.call, e.faults);
      MarksAreOverTen(states[k + 1].answers, bank, id, e.faults, |e.call.list|);
    } else {
      AnswersWritten(s, bank, e, states[k + 1]);
      SweepGives(s, bank, e, id);
      MarksAreOverTen(states[k + 1].answers, bank, id, e.faults, if SelectTotal(id) in e.faults then 0 else s.exams[id].total);
    }
  }
}
