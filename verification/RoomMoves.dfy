/** Which rows each kind of call may touch, and how: what the lemmas about whole runs rest on. */
module RoomMoves {
  import opened RoomSchema
  import opened Grading
  import opened RoomSpec
  import opened RoomInvariant

  // ---------- names for what a call does ----------

  /** The call hands out a paper. */
  ghost predicate Issues(s: Db, bank: Bank, e: Event) {
    e.call.GetPaper? && PaperSucceeds(s, bank, e.call, e.faults)
  }

  /** The exam whose paper a call hands out. */
  ghost function IssuedExam(s: Db, bank: Bank, e: Event): int
    requires Issues(s, bank, e)
  {
    Opening(s, bank, e.call, e.faults).1.value
  }

  /** The exam a call saves answers for, and what it saves: nothing, for most calls. */
  function Written(s: Db, e: Event): (int, Choices) {
    match e.call
    case SubmitAnswers(x, list) => (x, Saved(list, e.faults))
    case SubmitExam(x, list, _) => (x, if Admitted(s, x, e.faults) then Saved(list, e.faults) else [])
    case _ => (0, [])
  }

  /** The call grades this exam. */
  predicate GivesGrade(s: Db, e: Event, id: int) {
    || (e.call.SubmitExam? && e.call.exam == id && SubmitSucceeds(s, e.call, e.faults))
    || (e.call.AutoSubmit? && SweepRuns(e.faults) && id in Swept(s, e.call.now, e.faults))
  }

  // ---------- the three kinds of call ----------

  ghost predicate NewExam(s: Db, c: Call, s': Db, id: int)
    requires c.GetPaper?
  {
    && id == s.nextExam && !HasExam(s, c.room, c.user)
    && c.room in s.rooms && s.rooms[c.room].status == InProgress && (c.room, c.user) in s.participants
    && IsExamOf(s', id, c.room, c.user)
    && s'.exams[id].startAt == c.now && s'.exams[id].grade.None?
  }

  /** get_exam_paper: at most one new exam; a paper for one exam, with its total; nothing else is touched. */
  ghost predicate PaperMove(s: Db, bank: Bank, e: Event, s': Db)
    requires e.call.GetPaper?
  {
    && s' == s.(exams := s'.exams, nextExam := s'.nextExam, papers := s'.papers, open := s'.open)
    && (s'.open <==> s.open || Throws(s, bank, e.call, e.faults))
    && (forall id :: id in s'.exams && id !in s.exams ==> NewExam(s, e.call, s', id))
    && if Issues(s, bank, e) then !s.open && !s'.open && Issued(s, e, s', IssuedExam(s, bank, e))
       else s'.papers == s.papers && forall id :: id in s.exams ==> id in s'.exams && s'.exams[id] == s.exams[id]
  }

  ghost predicate Issued(s: Db, e: Event, s': Db, issued: int)
    requires e.call.GetPaper?
  {
    && IsExamOf(s', issued, e.call.room, e.call.user)
    && s'.papers == WithPaper(s.papers, issued, e.call.drawn)
    && forall id :: id in s.exams ==>
         id in s'.exams && s'.exams[id] == if id == issued then WithTotal(s.exams[id], e.faults, |e.call.drawn|) else s.exams[id]
  }

  /** The other calls: answers are saved, and the exams the call grades are graded; nothing else is touched. */
  ghost predicate AnswerMove(s: Db, e: Event, s': Db) {
    && s' == s.(answers := s'.answers, exams := s'.exams, practices := s'.practices)
    && s'.answers == Upsert(s.answers, Written(s, e).0, Written(s, e).1)
    && s'.exams.Keys == s.exams.Keys
    && forall id :: id in s.exams ==>
         if GivesGrade(s, e, id) then s'.exams[id].grade.Some? && SameSeat(s.exams[id], s'.exams[id])
         else s'.exams[id] == s.exams[id]
  }

  ghost predicate Moves(s: Db, bank: Bank, e: Event, s': Db) {
    if Lifecycle(e.call) then RoomMove(s, s')
    else if e.call.GetPaper? then PaperMove(s, bank, e, s')
    else AnswerMove(s, e, s')
  }

  // ---------- Next is such a move ----------

  lemma NewExamFound(s: Db, bank: Bank, e: Event)
    requires Inv(s) && e.call.GetPaper?
    ensures var (s1, found) := Opening(s, bank, e.call, e.faults);
            && s1 == s.(exams := s1.exams, nextExam := s1.nextExam)
            && (found.Some? ==> IsExamOf(s1, found.value, e.call.room, e.call.user))
            && (forall id :: id in s.exams ==> id in s1.exams && s1.exams[id] == s.exams[id])
            && (forall id :: id in s1.exams && id !in s.exams ==> NewExam(s, e.call, s1, id))
  {
    OpeningEffect(s, bank, e.call, e.faults);
    assert s.nextExam !in s.exams;
  }

  lemma PaperIssuedMoves(s: Db, bank: Bank, e: Event)
    requires Inv(s) && Issues(s, bank, e)
    ensures PaperMove(s, bank, e, AfterGetPaper(s, bank, e.call, e.faults))
  {
    NewExamFound(s, bank, e);
    GetPaperEffect(s, bank, e.call, e.faults);
    IssuedFrom(s, e, Opening(s, bank, e.call, e.faults).0, AfterGetPaper(s, bank, e.call, e.faults), IssuedExam(s, bank, e));
  }

  lemma IssuedFrom(s: Db, e: Event, s1: Db, s': Db, issued: int)
    requires e.call.GetPaper? && IsExamOf(s1, issued, e.call.room, e.call.user)
    requires s1 == s.(exams := s1.exams, nextExam := s1.nextExam)
    requires forall id :: id in s.exams ==> id in s1.exams && s1.exams[id] == s.exams[id]
    requires forall id :: id in s1.exams && id !in s.exams ==> NewExam(s, e.call, s1, id)
    requires s' == s1.(papers := WithPaper(s1.papers, issued, e.call.drawn),
                       exams := s1.exams[issued := WithTotal(s1.exams[issued], e.faults, |e.call.drawn|)])
    ensures s' == s.(exams := s'.exams, nextExam := s'.nextExam, papers := s'.papers)
    ensures Issued(s, e, s', issued)
    ensures forall id :: id in s'.exams && id !in s.exams ==> NewExam(s, e.call, s', id)
  {
  }

  lemma PaperFailedMoves(s: Db, bank: Bank, e: Event)
    requires Inv(s) && e.call.GetPaper? && !Issues(s, bank, e)
    ensures PaperMove(s, bank, e, AfterGetPaper(s, bank, e.call, e.faults))
  {
    NewExamFound(s, bank, e);
    GetPaperEffect(s, bank, e.call, e.faults);
  }

  lemma PaperMoves(s: Db, bank: Bank, e: Event)
    requires Inv(s) && e.call.GetPaper?
    ensures PaperMove(s, bank, e, AfterGetPaper(s, bank, e.call, e.faults))
  {
    if Issues(s, bank, e) { PaperIssuedMoves(s, bank, e); } else { PaperFailedMoves(s, bank, e); }
  }

  lemma SubmitMoves(s: Db, bank: Bank, e: Event)
    requires e.call.SubmitExam?
    ensures AnswerMove(s, e, AfterSubmit(s, bank, e.call, e.faults))
  {
    SubmitEffect(s, bank, e.call, e.faults);
    SubmitOnlyRegrades(s, bank, e.call, e.faults);
  }

  lemma SweepMoves(s: Db, bank: Bank, e: Event)
    requires Inv(s) && e.call.AutoSubmit?
    ensures AnswerMove(s, e, AfterAutoSubmit(s, bank, e.call.now, e.faults))
  {
    AutoSubmitOnlyRegrades(s, bank, e.call.now, e.faults);
  }

  lemma OtherMoves(s: Db, bank: Bank, e: Event)
    requires e.call.SubmitAnswers? || e.call.SubmitPractice?
    ensures AnswerMove(s, e, Next(s, bank, e))
  {
  }

  lemma NextMoves(s: Db, bank: Bank, e: Event)
    requires Inv(s)
    ensures Moves(s, bank, e, Next(s, bank, e))
  {
    if Lifecycle(e.call) {
      LifecycleMoves(s, bank, e);
    } else if e.call.GetPaper? {
      PaperMoves(s, bank, e);
    } else if e.call.SubmitExam? {
      SubmitMoves(s, bank, e);
    } else if e.call.AutoSubmit? {
      SweepMoves(s, bank, e);
    } else {
      OtherMoves(s, bank, e);
    }
  }
}
