/** Runs in which no statement fails: every exam has its paper unless a call has thrown, and no graded exam changes. */
module RoomFaultless {
  import opened Wrappers
  import opened RoomSchema
  import opened QuestionPicker
  import opened RoomSpec
  import opened RoomInvariant
  import opened RoomMoves
  import opened RoomRuns
  import opened RoomPapers
  import opened RoomGrades
  import opened RoomStuck
  import opened RoomRights
  import RoomManager

  ghost predicate Faultless(events: seq<Event>, k: nat)
    requires k <= |events|
  {
    forall i :: 0 <= i < k ==> events[i].faults == {}
  }

  /** Without faults and with questions to ask, every exam has its paper, unless an exception has left a transaction open. */
  lemma {:induction false} FaultlessExamsHavePapers(bank: Bank, states: seq<Db>, events: seq<Event>, k: nat, id: int)
    requires Run(bank, states, events) && k < |states| && Faultless(events, k) && bank != map[]
    requires id in states[k].exams
    ensures OnPaper(states[k], bank, id) != {} || states[k].open
  {
    if k > 0 {
      if states[k - 1].open {
        OpenStaysAt(bank, states, events, k - 1);
      } else if id in states[k - 1].exams {
        FaultlessExamsHavePapers(bank, states, events, k - 1, id);
        PaperOnlyGrows(bank, states, events, k - 1, id);
      } else {
        NewExamHasAPaper(bank, states, events, k - 1, id);
        FaultlessCallIssues(bank, states, events, k - 1, id);
      }
    }
  }

  lemma FaultlessCallIssues(bank: Bank, states: seq<Db>, events: seq<Event>, k: nat, id: int)
    requires Run(bank, states, events) && k < |events| && events[k].faults == {} && bank != map[] && !states[k].open
    requires id !in states[k].exams && id in states[k + 1].exams
    ensures Issues(states[k], bank, events[k]) || states[k + 1].open
  {
    StepMoves(bank, states, events, k);
    RunKeepsPapersInv(bank, states, events, k);
    NewExamIsIssued(states[k], bank, events[k]);
  }

  lemma NewExamIsIssued(s: Db, bank: Bank, e: Event)
    requires Inv(s) && PapersInv(s, bank) && e.faults == {} && e.call.GetPaper? && Plausible(s, bank, e) && bank != map[] && !s.open
    requires MayAsk(s, e.call.room, e.call.user, {}) && !HasExam(s, e.call.room, e.call.user)
    ensures Issues(s, bank, e) || Throws(s, bank, e.call, {})
  {
    var s1 := WithExam(s, e.call.room, e.call.user, e.call.now);
    assert s1.papers == s.papers && s.nextExam !in s.exams;
    NoRowsOf(s, bank, s.nextExam);
    assert OnPaper(s1, bank, s.nextExam) == {};
    assert EnsureExam(s, e.call.room, e.call.user, e.call.now, e.call.now + s.rooms[e.call.room].duration, {}) == (s1, Some(s.nextExam));
    if !e.call.thrown { SomethingIsPicked(s, bank, e); }
  }

  lemma NoRowsOf(s: Db, bank: Bank, id: int)
    requires PapersInv(s, bank) && id !in s.exams
    ensures forall q :: (id, q) !in s.papers
  {
    forall q ensures (id, q) !in s.papers {
      var k := (id, q);
      assert k in s.papers ==> k.0 in s.exams;
    }
  }

  lemma SomethingIsPicked(s: Db, bank: Bank, e: Event)
    requires e.faults == {} && e.call.GetPaper? && e.call.room in s.rooms && bank != map[]
    requires ValidPick(bank, Effective(s.rooms[e.call.room].settings), {}, e.call.drawn)
    ensures e.call.drawn != []
  {
    PaperSizeIsExact(bank, s.rooms[e.call.room].settings, e.call.drawn);
  }

  /** So without faults a graded exam never changes again. */
  lemma {:induction false} FaultlessGradesAreFrozen(bank: Bank, states: seq<Db>, events: seq<Event>, i: nat, j: nat, id: int)
    requires Run(bank, states, events) && i <= j < |states| && Faultless(events, j)
    requires id in states[i].exams && states[i].exams[id].grade.Some?
    ensures id in states[j].exams && states[j].exams[id] == states[i].exams[id]
    decreases j
  {
    if i < j {
      FaultlessGradesAreFrozen(bank, states, events, i, j - 1, id);
      FaultlessStepKeepsGraded(bank, states, events, j - 1, id);
    }
  }

  lemma FaultlessStepKeepsGraded(bank: Bank, states: seq<Db>, events: seq<Event>, k: nat, id: int)
    requires Run(bank, states, events) && k < |events| && Faultless(events, k + 1)
    requires id in states[k].exams && states[k].exams[id].grade.Some?
    ensures id in states[k + 1].exams && states[k + 1].exams[id] == states[k].exams[id]
  {
    StepMoves(bank, states, events, k);
    GradeStays(states[k], bank, events[k], states[k + 1], id);
    if states[k + 1].exams[id] != states[k].exams[id] {
      FaultlessIssueIsFirst(bank, states, events, k, id);
    }
  }

  /** Without faults no paper is issued for an exam that was there before the call. */
  lemma FaultlessIssueIsFirst(bank: Bank, states: seq<Db>, events: seq<Event>, k: nat, id: int)
    requires Run(bank, states, events) && k < |events| && Faultless(events, k + 1) && id in states[k].exams
    ensures Issues(states[k], bank, events[k]) ==> IssuedExam(states[k], bank, events[k]) != id
  {
    if Issues(states[k], bank, events[k]) {
      StepMoves(bank, states, events, k);
      FreshIssue(states[k], bank, events[k]);
      FaultlessExamsHavePapers(bank, states, events, k, id);
    }
  }

  /** And no student is handed times other than the stored ones. */
  lemma FaultlessTimesAreStored(bank: Bank, states: seq<Db>, events: seq<Event>, k: nat)
    requires Run(bank, states, events) && k < |events| && Faultless(events, k + 1) && Issues(states[k], bank, events[k])
    ensures var e, id := events[k], IssuedExam(states[k], bank, events[k]);
            && id in states[k + 1].exams && e.call.room in states[k].rooms
            && states[k + 1].exams[id].startAt == e.call.now
            && states[k + 1].exams[id].endAt == e.call.now + states[k].rooms[e.call.room].duration
  {
    var s, e := states[k], events[k];
    StepMoves(bank, states, events, k);
    IssuedTimesAreStoredTimes(s, bank, e);
    assert StepAt(bank, states, events, k);
    if HasExam(s, e.call.room, e.call.user) {
      FreshPaperNeedsAFailure(bank, states, events, k);
      FaultlessIssueIsFirst(bank, states, events, k, IssuedExam(s, bank, e));
    }
  }

  /** Without faults, exactly when get_exam_paper hands out a paper. */
  lemma FaultlessIssuesExactly(bank: Bank, states: seq<Db>, events: seq<Event>, k: nat)
    requires Run(bank, states, events) && k < |events| && Faultless(events, k + 1) && events[k].call.GetPaper?
    ensures var s, c := states[k], events[k].call;
            Issues(s, bank, events[k]) <==>
              MayAsk(s, c.room, c.user, {}) && !HasExam(s, c.room, c.user) && !s.open && !c.thrown && bank != map[]
  {
    var s, e := states[k], events[k];
    StepMoves(bank, states, events, k);
    RunKeepsPapersInv(bank, states, events, k);
    if Issues(s, bank, e) {
      FreshIssue(s, bank, e);
      if HasExam(s, e.call.room, e.call.user) {
        FreshPaperNeedsAFailure(bank, states, events, k);
        FaultlessIssueIsFirst(bank, states, events, k, IssuedExam(s, bank, e));
      }
    } else if MayAsk(s, e.call.room, e.call.user, {}) && !HasExam(s, e.call.room, e.call.user) && !s.open && bank != map[] {
      NewExamIsIssued(s, bank, e);
      OnlyPickingThrows(s, bank, e.call, {});
    }
  }

  /**
   In any run, a paper handed out by a call without faults is stored as the list drawn, and has the questions
   that the room's creator asked for when the room was created.
   */
  lemma PapersAreAsAsked(bank: Bank, states: seq<Db>, events: seq<Event>, k: nat)
    requires Run(bank, states, events) && k < |events| && Issues(states[k], bank, events[k]) && events[k].faults == {}
    ensures var c := events[k].call;
            && c.room in states[k].rooms
            && AsAsked(bank, states[k].rooms[c.room].settings, c.drawn)
            && var id := IssuedExam(states[k], bank, events[k]);
            && PaperIs(states[k + 1], id, c.drawn) && IsExamOf(states[k + 1], id, c.room, c.user)
            && states[k + 1].exams[id].total == |c.drawn|
            && exists i :: 0 <= i < k && CreatedBy(states, events, i, c.room, states[k].rooms[c.room])
  {
    StepMoves(bank, states, events, k);
    RoomManager.IssuedAsAsked(states[k], bank, events[k].call, {});
    assert StepAt(bank, states, events, k);
    FirstIssueAt(bank, states, events, k);
    RoomsWereCreated(bank, states, events, k, events[k].call.room);
  }
}
