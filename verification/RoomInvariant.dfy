/** Every call keeps the room manager's invariant, whatever fails while it runs. */
module RoomInvariant {
  import opened Wrappers
  import opened RoomSchema
  import opened Grading
  import opened RoomSpec

  // ---------- get_exam_paper ----------

  /** The tables with the exams row that ensure_exam inserts. */
  function WithExam(s: Db, room: int, user: int, now: nat): Db
    requires room in s.rooms
  {
    s.(exams := s.exams[s.nextExam := Exam(room, user, now, now + s.rooms[room].duration, 0, None)],
       nextExam := s.nextExam + 1)
  }

  /** Up to picking, a call has at most inserted the exam the student did not have. */
  lemma OpeningEffect(s: Db, bank: Bank, c: Call, faults: Faults)
    requires c.GetPaper?
    ensures var (s1, id) := Opening(s, bank, c, faults);
            && (id.Some? ==> IsExamOf(s1, id.value, c.room, c.user))
            && (s1 == s || (MayAsk(s, c.room, c.user, faults) && !HasExam(s, c.room, c.user) && s1 == WithExam(s, c.room, c.user, c.now)))
  {
  }

  lemma WithExamKeepsInv(s: Db, room: int, user: int, now: nat)
    requires Inv(s) && room in s.rooms && !HasExam(s, room, user)
    ensures Inv(WithExam(s, room, user, now))
  {
    var s' := WithExam(s, room, user, now);
    forall i, j, r, u | IsExamOf(s', i, r, u) && IsExamOf(s', j, r, u) ensures i == j {
      assert i != s.nextExam ==> IsExamOf(s, i, r, u);
      assert j != s.nextExam ==> IsExamOf(s, j, r, u);
    }
  }

  /** The exam row after its paper was saved. */
  function WithTotal(x: Exam, faults: Faults, n: nat): Exam {
    if UpdateTotal in faults then x else x.(total := n)
  }

  /** A call that issues a paper adds its rows, and sets the total of that exam only. */
  lemma GetPaperEffect(s: Db, bank: Bank, c: Call, faults: Faults)
    requires c.GetPaper?
    ensures var (s1, id) := Opening(s, bank, c, faults);
            AfterGetPaper(s, bank, c, faults) ==
              if PaperSucceeds(s, bank, c, faults)
              then s1.(papers := WithPaper(s1.papers, id.value, c.drawn),
                       exams := s1.exams[id.value := WithTotal(s1.exams[id.value], faults, |c.drawn|)])
              else s1.(open := s.open || Throws(s, bank, c, faults))
  {
    var (s1, id) := Opening(s, bank, c, faults);
    if id.Some? { assert s1.exams[id.value := s1.exams[id.value]] == s1.exams; }
  }

  // ---------- grading ----------

  /** Only marks and totals of exams have changed, and they are still valid. */
  ghost predicate OnlyRegraded(s: Db, s': Db) {
    && s'.rooms == s.rooms && s'.nextRoom == s.nextRoom && s'.nextExam == s.nextExam
    && s'.exams.Keys == s.exams.Keys
    && forall id :: id in s.exams ==> SameSeat(s.exams[id], s'.exams[id])
  }

  predicate SameSeat(x: Exam, y: Exam) {
    && y.room == x.room && y.user == x.user && y.startAt == x.startAt && y.endAt == x.endAt
    && (ValidExam(x) ==> ValidExam(y))
  }

  lemma RegradeKeepsInv(s: Db, s': Db)
    requires Inv(s) && OnlyRegraded(s, s')
    ensures Inv(s')
  {
    forall i, j, r, u | IsExamOf(s', i, r, u) && IsExamOf(s', j, r, u) ensures i == j {
      assert IsExamOf(s, i, r, u) && IsExamOf(s, j, r, u);
    }
  }

  lemma GradedIsValid(x: Exam, sheet: Sheet, bank: Bank, fallback: nat, now: nat)
    ensures ValidExam(Graded(x, Marks(sheet, bank, fallback), now))
  {
    MarksRange(sheet, bank, fallback);
  }

  /** A submit that succeeds replaces one exam row by its graded form; any other leaves the exams alone. */
  lemma SubmitEffect(s: Db, bank: Bank, c: Call, faults: Faults)
    requires c.SubmitExam?
    ensures var s' := AfterSubmit(s, bank, c, faults);
            && s' == s.(answers := s'.answers, exams := s'.exams)
            && s'.answers == (if Admitted(s, c.exam, faults) then Upsert(s.answers, c.exam, Saved(c.list, faults)) else s.answers)
            && s'.exams == if SubmitSucceeds(s, c, faults)
                           then s.exams[c.exam := Graded(s.exams[c.exam], SubmitMarks(s, bank, c, faults), c.now)] else s.exams
  {
  }

  lemma SubmitOnlyRegrades(s: Db, bank: Bank, c: Call, faults: Faults)
    requires c.SubmitExam?
    ensures OnlyRegraded(s, AfterSubmit(s, bank, c, faults))
  {
    SubmitEffect(s, bank, c, faults);
    if SubmitSucceeds(s, c, faults) {
      GradedIsValid(s.exams[c.exam], Delivered(SheetOf(Upsert(s.answers, c.exam, c.list), c.exam), c.exam, faults), bank, |c.list|, c.now);
      assert SameSeat(s.exams[c.exam], Graded(s.exams[c.exam], SubmitMarks(s, bank, c, faults), c.now));
    }
  }

  lemma AutoSubmitOnlyRegrades(s: Db, bank: Bank, now: nat, faults: Faults)
    requires forall id :: id in s.exams ==> ValidExam(s.exams[id])
    ensures OnlyRegraded(s, AfterAutoSubmit(s, bank, now, faults))
  {
    var s' := AfterAutoSubmit(s, bank, now, faults);
    forall id | id in s.exams ensures SameSeat(s.exams[id], s'.exams[id]) {
      GradedIsValid(s.exams[id], Delivered(SheetOf(s.answers, id), id, faults), bank, if SelectTotal(id) in faults then 0 else s.exams[id].total, now);
    }
  }

  // ---------- rooms ----------

  function Rank(st: Status): nat {
    match st
    case Waiting => 0
    case InProgress => 1
    case Finished => 2
  }

  /** What of a room is fixed for good, and that its status only advances. */
  predicate Later(x: Room, y: Room) {
    && y.code == x.code && y.creator == x.creator && y.pass == x.pass
    && y.duration == x.duration && y.settings == x.settings
    && Rank(x.status) <= Rank(y.status)
    && (x.status != Waiting ==> y.startedAt == x.startedAt)
  }

  /** Lifecycle calls: rooms come with a fresh id, advance or go; participants stay; nothing else is touched. */
  ghost predicate RoomMove(s: Db, s': Db) {
    && s' == s.(rooms := s'.rooms, nextRoom := s'.nextRoom, participants := s'.participants)
    && s.participants <= s'.participants
    && s.nextRoom <= s'.nextRoom
    && forall r :: r in s'.rooms ==>
         (r in s.rooms && Later(s.rooms[r], s'.rooms[r])) || (r == s.nextRoom && r < s'.nextRoom)
  }

  lemma RoomsKeepInv(s: Db, s': Db)
    requires Inv(s) && RoomMove(s, s')
    ensures Inv(s')
  {
    forall i, j, r, u | IsExamOf(s', i, r, u) && IsExamOf(s', j, r, u) ensures i == j {
      assert IsExamOf(s, i, r, u) && IsExamOf(s, j, r, u);
    }
  }

  // ---------- all calls, kind by kind ----------

  predicate Lifecycle(c: Call) {
    c.CreateRoom? || c.JoinRoom? || c.StartRoom? || c.FinishRoom? || c.DropRoom?
  }

  lemma OpeningKeepsInv(s: Db, bank: Bank, c: Call, faults: Faults)
    requires Inv(s) && c.GetPaper?
    ensures Inv(Opening(s, bank, c, faults).0)
    ensures Opening(s, bank, c, faults).1.Some? ==> Opening(s, bank, c, faults).1.value in Opening(s, bank, c, faults).0.exams
  {
    OpeningEffect(s, bank, c, faults);
    if Opening(s, bank, c, faults).0 != s { WithExamKeepsInv(s, c.room, c.user, c.now); }
  }

  lemma TotalKeepsInv(s: Db, id: int, faults: Faults, n: nat, papers: map<(int, int), int>)
    requires Inv(s) && id in s.exams
    ensures Inv(s.(papers := papers, exams := s.exams[id := WithTotal(s.exams[id], faults, n)]))
  {
    RegradeKeepsInv(s, s.(papers := papers, exams := s.exams[id := WithTotal(s.exams[id], faults, n)]));
  }

  lemma PaperStepKeepsInv(s: Db, bank: Bank, e: Event)
    requires Inv(s) && e.call.GetPaper?
    ensures Inv(AfterGetPaper(s, bank, e.call, e.faults))
  {
    var c, faults := e.call, e.faults;
    OpeningKeepsInv(s, bank, c, faults);
    GetPaperEffect(s, bank, c, faults);
    var (s1, id) := Opening(s, bank, c, faults);
    if PaperSucceeds(s, bank, c, faults) {
      TotalKeepsInv(s1, id.value, faults, |c.drawn|, WithPaper(s1.papers, id.value, c.drawn));
    } else {
      RegradeKeepsInv(s1, AfterGetPaper(s, bank, c, faults));
    }
  }

  lemma SubmitStepRegrades(s: Db, bank: Bank, e: Event)
    requires e.call.SubmitExam?
    ensures OnlyRegraded(s, Next(s, bank, e))
  {
    SubmitOnlyRegrades(s, bank, e.call, e.faults);
  }

  lemma SweepStepRegrades(s: Db, bank: Bank, e: Event)
    requires e.call.AutoSubmit? && forall id :: id in s.exams ==> ValidExam(s.exams[id])
    ensures OnlyRegraded(s, Next(s, bank, e))
  {
    AutoSubmitOnlyRegrades(s, bank, e.call.now, e.faults);
  }

  lemma AnswersStepRegrades(s: Db, bank: Bank, e: Event)
    requires e.call.SubmitAnswers? || e.call.SubmitPractice?
    ensures OnlyRegraded(s, Next(s, bank, e))
  {
  }

  lemma CreateMoves(s: Db, bank: Bank, e: Event)
    requires e.call.CreateRoom?
    ensures RoomMove(s, Next(s, bank, e))
  {
  }

  lemma StartMoves(s: Db, bank: Bank, e: Event)
    requires e.call.StartRoom?
    ensures RoomMove(s, Next(s, bank, e))
  {
  }

  lemma LifecycleMoves(s: Db, bank: Bank, e: Event)
    requires Lifecycle(e.call)
    ensures RoomMove(s, Next(s, bank, e))
  {
    if e.call.CreateRoom? {
      CreateMoves(s, bank, e);
    } else if e.call.StartRoom? {
      StartMoves(s, bank, e);
    }
  }

  lemma NextKeepsInv(s: Db, bank: Bank, e: Event)
    requires Inv(s)
    ensures Inv(Next(s, bank, e))
  {
    if e.call.GetPaper? {
      PaperStepKeepsInv(s, bank, e);
    } else if Lifecycle(e.call) {
      LifecycleMoves(s, bank, e);
      RoomsKeepInv(s, Next(s, bank, e));
    } else {
      if e.call.SubmitExam? {
        SubmitStepRegrades(s, bank, e);
      } else if e.call.AutoSubmit? {
        SweepStepRegrades(s, bank, e);
      } else {
        AnswersStepRegrades(s, bank, e);
      }
      RegradeKeepsInv(s, Next(s, bank, e));
    }
  }
}
