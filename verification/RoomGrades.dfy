/** Grades over runs: given once, never changed, and those of the last choices. */
module RoomGrades {
  import opened Wrappers
  import opened RoomSchema
  import opened QuestionPicker
  import opened Grading
  import opened RoomSpec
  import opened RoomInvariant
  import opened RoomMoves
  import opened RoomRuns
  import opened RoomPapers

  // ---------- graded once ----------

  ghost predicate Grades(s: Db, bank: Bank, e: Event, id: int) {
    && id in s.exams && s.exams[id].grade.None?
    && id in Next(s, bank, e).exams && Next(s, bank, e).exams[id].grade.Some?
  }

  /** Only two calls give a grade: a submit that succeeds, and a sweep that reaches the exam. A submit that fails leaves every exams row as it is. */
  lemma GradesExactly(s: Db, bank: Bank, e: Event, id: int)
    requires Inv(s)
    ensures Grades(s, bank, e, id) <==>
            || (e.call.SubmitExam? && e.call.exam == id && SubmitSucceeds(s, e.call, e.faults))
            || (e.call.AutoSubmit? && SweepRuns(e.faults) && id in Swept(s, e.call.now, e.faults))
    ensures e.call.SubmitExam? && !SubmitSucceeds(s, e.call, e.faults) ==> Next(s, bank, e).exams == s.exams
  {
    if e.call.SubmitExam? {
      NextIsSubmit(s, bank, e);
      SubmitEffect(s, bank, e.call, e.faults);
    }
    NextMoves(s, bank, e);
    GradesOfMove(s, bank, e, Next(s, bank, e), id);
  }

  lemma GradesOfMove(s: Db, bank: Bank, e: Event, s': Db, id: int)
    requires Moves(s, bank, e, s')
    ensures id in s.exams && s.exams[id].grade.None? && id in s'.exams && s'.exams[id].grade.Some? <==> GivesGrade(s, e, id)
  {
  }

  /** Once graded, a grade stays; the question count changes only if a paper is issued for the exam afterwards. */
  lemma GradeStays(s: Db, bank: Bank, e: Event, s': Db, id: int)
    requires Moves(s, bank, e, s') && id in s.exams && s.exams[id].grade.Some?
    ensures id in s'.exams && s'.exams[id].grade == s.exams[id].grade
    ensures s'.exams[id] == s.exams[id] <==>
              (Issues(s, bank, e) && IssuedExam(s, bank, e) == id && UpdateTotal !in e.faults ==>
                 |e.call.drawn| == s.exams[id].total)
  {
    assert !GivesGrade(s, e, id);
  }

  lemma GradeStaysAt(bank: Bank, states: seq<Db>, events: seq<Event>, k: nat, id: int)
    requires Run(bank, states, events) && k < |events| && id in states[k].exams && states[k].exams[id].grade.Some?
    ensures id in states[k + 1].exams && states[k + 1].exams[id].grade == states[k].exams[id].grade
  {
    StepMoves(bank, states, events, k);
    GradeStays(states[k], bank, events[k], states[k + 1], id);
  }

  lemma {:induction false} GradeIsFinal(bank: Bank, states: seq<Db>, events: seq<Event>, i: nat, j: nat, id: int)
    requires Run(bank, states, events) && i <= j < |states|
    requires id in states[i].exams && states[i].exams[id].grade.Some?
    ensures id in states[j].exams && states[j].exams[id].grade == states[i].exams[id].grade
    decreases j
  {
    if i < j {
      GradeIsFinal(bank, states, events, i, j - 1, id);
      GradeStaysAt(bank, states, events, j - 1, id);
    }
  }

  /** At most one call of a run grades an exam. */
  lemma GradedOnce(bank: Bank, states: seq<Db>, events: seq<Event>, i: nat, j: nat, id: int)
    requires Run(bank, states, events) && i < |events| && j < |events|
    requires Grades(states[i], bank, events[i], id) && Grades(states[j], bank, events[j], id)
    ensures i == j
  {
    assert StepAt(bank, states, events, i) && StepAt(bank, states, events, j);
    if i < j {
      GradeIsFinal(bank, states, events, i + 1, j, id);
    } else if j < i {
      GradeIsFinal(bank, states, events, j + 1, i, id);
    }
  }

  /** A graded exam whose paper has been saved never changes again, as long as the loading SELECT works. */
  lemma {:induction false} GradedWithPaperIsFrozen(bank: Bank, states: seq<Db>, events: seq<Event>, i: nat, j: nat, id: int)
    requires Run(bank, states, events) && i <= j < |states|
    requires id in states[i].exams && states[i].exams[id].grade.Some? && OnPaper(states[i], bank, id) != {}
    requires forall k :: i <= k < j ==> LoadPaper !in events[k].faults
    ensures id in states[j].exams && states[j].exams[id] == states[i].exams[id]
    ensures OnPaper(states[j], bank, id) != {}
    decreases j
  {
    if i < j {
      GradedWithPaperIsFrozen(bank, states, events, i, j - 1, id);
      RunKeepsPapersInv(bank, states, events, j - 1);
      StepMoves(bank, states, events, j - 1);
      FrozenStep(states[j - 1], bank, events[j - 1], states[j], id);
    }
  }

  lemma FrozenStep(s: Db, bank: Bank, e: Event, s': Db, id: int)
    requires PapersInv(s, bank) && Plausible(s, bank, e) && Moves(s, bank, e, s') && LoadPaper !in e.faults
    requires id in s.exams && s.exams[id].grade.Some? && OnPaper(s, bank, id) != {}
    ensures id in s'.exams && s'.exams[id] == s.exams[id]
    ensures OnPaper(s', bank, id) != {}
  {
    GradeStays(s, bank, e, s', id);
    MovesKeepPapersInv(s, bank, e, s');
    Inhabited(OnPaper(s, bank, id));
    var q :| q in OnPaper(s, bank, id);
    assert (id, q) in s.papers;
    assert q in OnPaper(s', bank, id);
    if Issues(s, bank, e) { IssuingEffect(s, bank, e); }
  }

  /** Without a paper the condition matters: the first paper issued after grading rewrites the question count. */
  lemma PaperAfterGradingRewritesTotal(s: Db, bank: Bank, e: Event)
    requires Inv(s) && PapersInv(s, bank) && e.faults == {} && e.call.GetPaper? && Plausible(s, bank, e)
    requires !s.open && !e.call.thrown
    requires MayAsk(s, e.call.room, e.call.user, {}) && HasExam(s, e.call.room, e.call.user)
    requires var id := ExamId(s, e.call.room, e.call.user); s.exams[id].grade.Some? && OnPaper(s, bank, id) == {}
    requires bank != map[]
    ensures var id := ExamId(s, e.call.room, e.call.user);
            var x := Next(s, bank, e).exams[id];
            x.grade == s.exams[id].grade && x.total == |e.call.drawn| > 0
  {
    var id := ExamId(s, e.call.room, e.call.user);
    assert Opening(s, bank, e.call, e.faults) == (s, Some(id));
    PaperSizeIsExact(bank, s.rooms[e.call.room].settings, e.call.drawn);
    forall q | q in e.call.drawn ensures (id, q) !in s.papers {
      assert q in Ids(e.call.drawn);
      assert q in bank && ((id, q) in s.papers <==> q in OnPaper(s, bank, id));
    }
  }

  /**
   In a run, a graded exam changes at a call only when that call issues a paper for it, and then either
   that call could not load the student's paper or an earlier get_exam_paper of the student had failed.
   */
  lemma RewriteNeedsAFailure(bank: Bank, states: seq<Db>, events: seq<Event>, k: nat, id: int)
    requires Run(bank, states, events) && k < |events| && id in states[k].exams && states[k].exams[id].grade.Some?
    ensures id in states[k + 1].exams
    ensures states[k + 1].exams[id] != states[k].exams[id] ==>
              && Issues(states[k], bank, events[k]) && IssuedExam(states[k], bank, events[k]) == id
              && (LoadPaper in events[k].faults || FailedBefore(bank, states, events, k, states[k].exams[id].room, states[k].exams[id].user))
  {
    StepMoves(bank, states, events, k);
    GradeStays(states[k], bank, events[k], states[k + 1], id);
    if states[k + 1].exams[id] != states[k].exams[id] && LoadPaper !in events[k].faults {
      FreshIssue(states[k], bank, events[k]);
      NoPaperNeedsAFailure(bank, states, events, k, id);
    }
  }

  // ---------- last choice wins ----------

  /** The part of a submit_answers list that is saved is a prefix: all of it exactly when the call succeeds. */
  lemma SavedIsAPrefix(s: Db, bank: Bank, e: Event, n: nat)
    requires e.call.SubmitAnswers? && n == |Saved(e.call.list, e.faults)|
    ensures Saved(e.call.list, e.faults) == e.call.list[..n]
    ensures AnswersSucceed(e.call.list, e.faults) ==> n == |e.call.list|
    ensures !AnswersSucceed(e.call.list, e.faults) && n == |e.call.list| ==> e.faults * {OpenDb, PrepareAnswers} != {}
    ensures Next(s, bank, e) == Next(s, bank, Event(Call.SubmitAnswers(e.call.exam, e.call.list[..n]), {}))
  {
    var part := e.call.list[..n];
    assert Saved(part, {}) == part;
  }

  /** What an event saves for one exam. */
  function SavedBy(s: Db, e: Event, exam: int): Choices {
    if Written(s, e).0 == exam then Written(s, e).1 else []
  }

  /** All that was saved for an exam before state k, one list after the other. */
  function History(states: seq<Db>, events: seq<Event>, exam: int, k: nat): Choices
    requires |states| == |events| + 1 && k < |states|
  {
    if k == 0 then [] else History(states, events, exam, k - 1) + SavedBy(states[k - 1], events[k - 1], exam)
  }

  lemma AnswersAfter(s: Db, bank: Bank, e: Event, s': Db, exam: int)
    requires Moves(s, bank, e, s')
    ensures Overrides(SheetOf(s'.answers, exam), SheetOf(s.answers, exam), SavedBy(s, e, exam))
  {
    AnswersWritten(s, bank, e, s');
    NothingOverrides(SheetOf(s.answers, exam));
    UpsertOverrides(s.answers, Written(s, e).0, Written(s, e).1, exam);
  }

  lemma AnswersWritten(s: Db, bank: Bank, e: Event, s': Db)
    requires Moves(s, bank, e, s')
    ensures s'.answers == Upsert(s.answers, Written(s, e).0, Written(s, e).1)
  {
  }

  lemma NothingOverrides(sheet: Sheet)
    ensures Overrides(sheet, sheet, [])
  {
  }

  lemma AnswersAfterAt(bank: Bank, states: seq<Db>, events: seq<Event>, k: nat, exam: int)
    requires Run(bank, states, events) && k < |events|
    ensures Overrides(SheetOf(states[k + 1].answers, exam), SheetOf(states[k].answers, exam), SavedBy(states[k], events[k], exam))
  {
    StepMoves(bank, states, events, k);
    AnswersAfter(states[k], bank, events[k], states[k + 1], exam);
  }

  lemma {:induction false} SheetIsHistory(bank: Bank, states: seq<Db>, events: seq<Event>, k: nat, exam: int)
    requires Run(bank, states, events) && k < |states|
    ensures SheetOf(states[k].answers, exam) == Filled(History(states, events, exam, k))
  {
    SheetOverridesNothing(bank, states, events, k, exam);
    FilledOverrides(History(states, events, exam, k));
    OverridesDetermines(map[], History(states, events, exam, k), SheetOf(states[k].answers, exam), Filled(History(states, events, exam, k)));
  }

  lemma {:induction false} SheetOverridesNothing(bank: Bank, states: seq<Db>, events: seq<Event>, k: nat, exam: int)
    requires Run(bank, states, events) && k < |states|
    ensures Overrides(SheetOf(states[k].answers, exam), map[], History(states, events, exam, k))
  {
    if k == 0 {
      assert SheetOf(states[0].answers, exam) == map[];
      NothingOverrides(map[]);
    } else {
      SheetOverridesNothing(bank, states, events, k - 1, exam);
      AnswersAfterAt(bank, states, events, k - 1, exam);
      OverridesCompose(map[], SheetOf(states[k - 1].answers, exam), SheetOf(states[k].answers, exam),
                       History(states, events, exam, k - 1), SavedBy(states[k - 1], events[k - 1], exam));
    }
  }

  /**
   The grade a submit gives is that of everything ever saved for the exam and the final list,
   with the last option per question, as far as the grading scan delivers it; the final list's
   length is the total when nothing counts. It is the grade of all of it exactly when that survives.
   */
  lemma SubmitGradesLastChoices(bank: Bank, states: seq<Db>, events: seq<Event>, k: nat)
    requires Run(bank, states, events) && k < |events|
    requires events[k].call.SubmitExam? && SubmitSucceeds(states[k], events[k].call, events[k].faults)
    ensures var c := events[k].call;
            var all := Filled(History(states, events, c.exam, k) + c.list);
            var marks := Marks(Delivered(all, c.exam, events[k].faults), bank, |c.list|);
            && SubmitMarks(states[k], bank, c, events[k].faults) == marks
            && c.exam in states[k + 1].exams
            && states[k + 1].exams[c.exam] == Graded(states[k].exams[c.exam], marks, c.now)
            && (marks == Marks(all, bank, |c.list|) <==> Survives(all, c.exam, bank, events[k].faults, |c.list|, |c.list|))
  {
    var c, s := events[k].call, states[k];
    var h := History(states, events, c.exam, k);
    SheetOverridesNothing(bank, states, events, k, c.exam);
    UpsertOverrides(s.answers, c.exam, c.list, c.exam);
    var sheet := SheetOf(Upsert(s.answers, c.exam, c.list), c.exam);
    OverridesCompose(map[], SheetOf(s.answers, c.exam), sheet, h, c.list);
    FilledOverrides(h + c.list);
    OverridesDetermines(map[], h + c.list, sheet, Filled(h + c.list));
    assert StepAt(bank, states, events, k);
    NextIsSubmit(s, bank, events[k]);
    SubmitGives(s, bank, c, events[k].faults);
    MarksSurviveExactly(Filled(h + c.list), c.exam, bank, events[k].faults, |c.list|, |c.list|);
  }

  /** A row that is lost where the answer was right always shows: the grade stored, and kept for good, is not that of all answers. */
  lemma LosingARightRowShows(bank: Bank, states: seq<Db>, events: seq<Event>, k: nat, q: int)
    requires Run(bank, states, events) && k < |events|
    requires events[k].call.SubmitExam? && SubmitSucceeds(states[k], events[k].call, events[k].faults)
    requires var c := events[k].call;
             q in Right(Filled(History(states, events, c.exam, k) + c.list), bank) && GradeRow(c.exam, q) in events[k].faults
    ensures var c := events[k].call;
            var full := Marks(Filled(History(states, events, c.exam, k) + c.list), bank, |c.list|);
            && c.exam in states[k + 1].exams
            && states[k + 1].exams[c.exam] != Graded(states[k].exams[c.exam], full, c.now)
  {
    var c := events[k].call;
    var all := Filled(History(states, events, c.exam, k) + c.list);
    SubmitGradesLastChoices(bank, states, events, k);
    assert q in Counted(all, bank);
    GradedDiffers(states[k].exams[c.exam], Marks(Delivered(all, c.exam, events[k].faults), bank, |c.list|), Marks(all, bank, |c.list|), c.now);
  }

  lemma GradedDiffers(x: Exam, a: (nat, int, real), b: (nat, int, real), now: nat)
    requires a != b
    ensures Graded(x, a, now) != Graded(x, b, now)
  {
    assert a.0 != b.0 || a.1 != b.1 || a.2 != b.2;
  }

  lemma SubmitGives(s: Db, bank: Bank, c: Call, faults: Faults)
    requires c.SubmitExam? && SubmitSucceeds(s, c, faults)
    ensures c.exam in AfterSubmit(s, bank, c, faults).exams
    ensures AfterSubmit(s, bank, c, faults).exams[c.exam] == Graded(s.exams[c.exam], SubmitMarks(s, bank, c, faults), c.now)
  {
    SubmitEffect(s, bank, c, faults);
  }

  lemma NextIsSubmit(s: Db, bank: Bank, e: Event)
    requires e.call.SubmitExam?
    ensures Next(s, bank, e) == AfterSubmit(s, bank, e.call, e.faults)
  {
  }

  /**
   The grade a sweep gives is that of everything ever saved for the exam, as far as the grading scan delivers it.
   Again it is the grade of all of it, with the stored total, exactly when that survives.
   */
  lemma SweepGradesLastChoices(bank: Bank, states: seq<Db>, events: seq<Event>, k: nat, id: int)
    requires Run(bank, states, events) && k < |events|
    requires events[k].call.AutoSubmit? && SweepRuns(events[k].faults)
    requires id in Swept(states[k], events[k].call.now, events[k].faults)
    ensures var x, faults := states[k].exams[id], events[k].faults;
            var all := Filled(History(states, events, id, k));
            var fallback := if SelectTotal(id) in faults then 0 else x.total;
            var marks := Marks(Delivered(all, id, faults), bank, fallback);
            && id in states[k + 1].exams
            && states[k + 1].exams[id] == Graded(x, marks, events[k].call.now)
            && (marks == Marks(all, bank, x.total) <==> Survives(all, id, bank, faults, fallback, x.total))
  {
    SheetIsHistory(bank, states, events, k, id);
    assert StepAt(bank, states, events, k);
    SweepGives(states[k], bank, events[k], id);
    var x, faults := states[k].exams[id], events[k].faults;
    MarksSurviveExactly(Filled(History(states, events, id, k)), id, bank, faults, if SelectTotal(id) in faults then 0 else x.total, x.total);
  }

  lemma SweepGives(s: Db, bank: Bank, e: Event, id: int)
    requires e.call.AutoSubmit? && SweepRuns(e.faults) && id in Swept(s, e.call.now, e.faults)
    ensures id in Next(s, bank, e).exams
    ensures Next(s, bank, e).exams[id] == Graded(s.exams[id], AutoMarks(s.answers, bank, id, s.exams[id], e.faults), e.call.now)
  {
  }

  /**
   With nothing saved before and a scan that does not break, submit_exam gives the marks of a practice
   run exactly when the list names distinct questions of the bank, or none of the bank at all.
   */
  lemma FirstSubmitMarksLikePractice(bank: Bank, states: seq<Db>, events: seq<Event>, k: nat)
    requires Run(bank, states, events) && k < |events|
    requires events[k].call.SubmitExam? && SubmitSucceeds(states[k], events[k].call, events[k].faults)
    requires History(states, events, events[k].call.exam, k) == []
    requires forall q :: GradeRow(events[k].call.exam, q) !in events[k].faults
    ensures var list := events[k].call.list;
            SubmitMarks(states[k], bank, events[k].call, events[k].faults) ==
              (PracticeRight(list, bank, {}), |list|, Score(PracticeRight(list, bank, {}), |list|))
            <==> (DistinctQuestions(list) && AllInBank(list, bank)) || NoneInBank(list, bank)
  {
    var list := events[k].call.list;
    SubmitGradesLastChoices(bank, states, events, k);
    assert [] + list == list;
    BrokenScan(Filled(list), events[k].call.exam, events[k].faults, bank);
    PracticeAgrees(list, bank);
  }

  // ---------- the sweep ----------

  /**
   After a sweep exactly the skipped exams are still open and expired, no other row has changed,
   and sweeping again at the same time with nothing failing grades the skipped ones and no more.
   */
  lemma SweepIsExact(s: Db, bank: Bank, now: nat, faults: Faults)
    requires SweepRuns(faults)
    ensures var s' := AfterAutoSubmit(s, bank, now, faults);
            && s'.exams.Keys == s.exams.Keys && s' == s.(exams := s'.exams)
            && (forall id :: id in s.exams && id !in Swept(s, now, faults) ==> s'.exams[id] == s.exams[id])
            && (forall id :: id in Swept(s, now, faults) ==> s'.exams[id].grade.Some? && s'.exams[id].grade.value.submittedAt == now)
            && (forall id :: id in s'.exams ==>
                  (Expired(s'.exams[id], now) <==>
                     Expired(s.exams[id], now) && (ExpiredRow(id) in faults || SelectGrade(id) in faults || UpdateGrade(id) in faults)))
            && Swept(s', now, {}) == Swept(s, now, {}) - Swept(s, now, faults)
  {
    var s' := AfterAutoSubmit(s, bank, now, faults);
    forall id ensures id in Swept(s', now, {}) <==> id in Swept(s, now, {}) - Swept(s, now, faults) {}
  }

  /** Without failing statements nothing expired is left, and the second sweep changes nothing and counts zero. */
  lemma SweepIsComplete(s: Db, bank: Bank, now: nat)
    ensures var s' := AfterAutoSubmit(s, bank, now, {});
            && (forall id :: id in s'.exams ==> !Expired(s'.exams[id], now))
            && AfterAutoSubmit(s', bank, now, {}) == s'
            && |Swept(s', now, {})| == 0
            && Swept(s, now, {}) == set id | id in s.exams && s.exams[id].grade.None? && s'.exams[id].grade.Some?
  {
    SweepIsExact(s, bank, now, {});
    var s' := AfterAutoSubmit(s, bank, now, {});
    NothingSwept(s', bank, now);
    SweptAreTheNewlyGraded(s, s', now);
    NothingExpired(s, s', now);
  }

  lemma NothingExpired(s: Db, s': Db, now: nat)
    requires s'.exams.Keys == s.exams.Keys
    requires forall id :: id in s'.exams && id !in Swept(s, now, {}) ==> s'.exams[id] == s.exams[id]
    requires forall id :: id in Swept(s, now, {}) ==> s'.exams[id].grade.Some?
    ensures forall id :: id in s'.exams ==> !Expired(s'.exams[id], now)
  {
    forall id | id in s'.exams ensures !Expired(s'.exams[id], now) {
      assert id in s.exams.Keys;
      assert Expired(s.exams[id], now) ==> id in Swept(s, now, {});
    }
  }

  lemma SweptAreTheNewlyGraded(s: Db, s': Db, now: nat)
    requires s'.exams.Keys == s.exams.Keys
    requires forall id :: id in s.exams && id !in Swept(s, now, {}) ==> s'.exams[id] == s.exams[id]
    requires forall id :: id in Swept(s, now, {}) ==> s'.exams[id].grade.Some?
    ensures Swept(s, now, {}) == set id | id in s.exams && s.exams[id].grade.None? && s'.exams[id].grade.Some?
  {
    var graded := set id | id in s.exams && s.exams[id].grade.None? && s'.exams[id].grade.Some?;
    forall id ensures id in Swept(s, now, {}) <==> id in graded {
      assert id in s.exams && id !in Swept(s, now, {}) ==> s'.exams[id] == s.exams[id];
    }
  }

  lemma NothingSwept(s: Db, bank: Bank, now: nat)
    requires Swept(s, now, {}) == {}
    ensures AfterAutoSubmit(s, bank, now, {}) == s
  {
    SweepIsExact(s, bank, now, {});
    SameRows(AfterAutoSubmit(s, bank, now, {}).exams, s.exams);
  }

  lemma SameRows(a: map<int, Exam>, b: map<int, Exam>)
    requires a.Keys == b.Keys && forall id :: id in b ==> a[id] == b[id]
    ensures a == b
  {
    forall id | id in a ensures id in b && a[id] == b[id] {}
  }
}
