/** Papers over runs: at most one per student and room, in the order issued, and nothing half done. */
module RoomPapers {
  import opened Wrappers
  import opened RoomSchema
  import opened QuestionPicker
  import opened RoomSpec
  import opened RoomInvariant
  import opened RoomMoves
  import opened RoomRuns
  import RoomManager

  /** Rows of exam_questions are for existing exams and questions of the bank whose options parse. */
  ghost predicate PapersInv(s: Db, bank: Bank) {
    forall k :: k in s.papers ==> k.0 in s.exams && k.1 in bank && bank[k.1].readable
  }

  /** The rows of one exam are exactly the questions of qs, numbered from 1. */
  ghost predicate PaperIs(s: Db, exam: int, qs: seq<int>) {
    && Distinct(qs)
    && (forall q :: (exam, q) in s.papers <==> q in qs)
    && (forall i :: 0 <= i < |qs| ==> (exam, qs[i]) in s.papers && s.papers[(exam, qs[i])] == i + 1)
  }

  lemma {:induction false} RowsOfPaper(papers: map<(int, int), int>, exam: int, qs: seq<int>)
    requires Distinct(qs)
    ensures forall k :: k in WithPaper(papers, exam, qs) <==> k in papers || (k.0 == exam && k.1 in qs)
    ensures forall k :: k in papers && !(k.0 == exam && k.1 in qs) ==> WithPaper(papers, exam, qs)[k] == papers[k]
    ensures forall i :: 0 <= i < |qs| ==> WithPaper(papers, exam, qs)[(exam, qs[i])] == i + 1
  {
    if qs != [] {
      var n := |qs| - 1;
      RowsOfPaper(papers, exam, qs[..n]);
      assert qs == qs[..n] + [qs[n]];
      assert forall i :: 0 <= i < n ==> qs[..n][i] == qs[i];
    }
  }

  // ---------- one call ----------

  /** What issuing does: a new row per drawn question, for the one exam of that student in that room. */
  lemma IssuingEffect(s: Db, bank: Bank, e: Event)
    requires Plausible(s, bank, e) && Issues(s, bank, e)
    ensures Distinct(e.call.drawn) && e.call.drawn != []
    ensures forall q :: q in e.call.drawn ==> q in bank && bank[q].readable && (IssuedExam(s, bank, e), q) !in s.papers
    ensures LoadPaper !in e.faults ==> forall q :: q in bank ==> (IssuedExam(s, bank, e), q) !in s.papers
  {
    OpeningEffect(s, bank, e.call, e.faults);
    var (s1, id) := Opening(s, bank, e.call, e.faults);
    assert s1.papers == s.papers;
    assert forall q :: q in e.call.drawn ==> q in Ids(e.call.drawn);
    assert forall q :: q in bank && (id.value, q) in s1.papers <==> q in OnPaper(s1, bank, id.value);
  }

  lemma MovesKeepPapersInv(s: Db, bank: Bank, e: Event, s': Db)
    requires PapersInv(s, bank) && Plausible(s, bank, e) && Moves(s, bank, e, s')
    ensures PapersInv(s', bank)
    ensures forall k :: k in s.papers ==> k in s'.papers && s'.papers[k] == s.papers[k]
  {
    NoExamLost(s, bank, e, s');
    if Issues(s, bank, e) {
      IssuingEffect(s, bank, e);
      RowsMeetPapersInv(s, s', bank, IssuedExam(s, bank, e), e.call.drawn);
    } else {
      RowsMeetPapersInv(s, s', bank, 0, []);
    }
  }

  lemma RowsAdded(papers: map<(int, int), int>, exam: int, qs: seq<int>)
    requires Distinct(qs) && forall q :: q in qs ==> (exam, q) !in papers
    ensures var after := WithPaper(papers, exam, qs);
            && (forall k :: k in papers ==> k in after && after[k] == papers[k])
            && (forall k :: k in after ==> k in papers || (k.0 == exam && k.1 in qs))
  {
    RowsOfPaper(papers, exam, qs);
    forall k | k in papers ensures !(k.0 == exam && k.1 in qs) {
      assert k == (k.0, k.1);
    }
  }

  lemma RowsMeetPapersInv(s: Db, s': Db, bank: Bank, exam: int, qs: seq<int>)
    requires PapersInv(s, bank) && forall id :: id in s.exams ==> id in s'.exams
    requires Distinct(qs) && s'.papers == WithPaper(s.papers, exam, qs)
    requires qs != [] ==> exam in s'.exams && forall q :: q in qs ==> q in bank && bank[q].readable && (exam, q) !in s.papers
    ensures PapersInv(s', bank)
    ensures forall k :: k in s.papers ==> k in s'.papers && s'.papers[k] == s.papers[k]
  {
    RowsAdded(s.papers, exam, qs);
    forall k | k in s'.papers ensures k.0 in s'.exams && k.1 in bank && bank[k.1].readable {
      var id := k.0;
      assert k in s.papers ==> id in s.exams;
    }
  }

  lemma NoExamLost(s: Db, bank: Bank, e: Event, s': Db)
    requires Moves(s, bank, e, s')
    ensures forall id :: id in s.exams ==> id in s'.exams
  {
    if AnswerMove(s, e, s') { assert forall id :: id in s.exams ==> id in s'.exams.Keys; }
  }

  /**
   A get_exam_paper that fails leaves exam_questions alone. All it may have done is to insert the
   student's one exams row for that room, with no paper and no grade.
   */
  lemma FailureLeavesAtMostAnEmptyExam(s: Db, bank: Bank, e: Event)
    requires Inv(s) && PapersInv(s, bank) && e.call.GetPaper? && !Issues(s, bank, e)
    ensures var s' := Next(s, bank, e);
            && (s'.open <==> s.open || Throws(s, bank, e.call, e.faults))
            && (|| s' == s.(open := s'.open)
            || (&& !HasExam(s, e.call.room, e.call.user) && e.call.room in s.rooms
                && s' == s.(open := s'.open, nextExam := s.nextExam + 1,
                            exams := s.exams[s.nextExam := Exam(e.call.room, e.call.user, e.call.now,
                                                                e.call.now + s.rooms[e.call.room].duration, 0, None)])
                && forall q :: (s.nextExam, q) !in s'.papers))
  {
    OpeningEffect(s, bank, e.call, e.faults);
    GetPaperEffect(s, bank, e.call, e.faults);
  }

  /** For a student who already has a paper, exactly what it takes to be given another one. */
  lemma SecondPaperExactly(s: Db, bank: Bank, e: Event)
    requires Inv(s) && e.call.GetPaper? && HasExam(s, e.call.room, e.call.user)
    requires OnPaper(s, bank, ExamId(s, e.call.room, e.call.user)) != {}
    ensures Issues(s, bank, e) <==>
            && LoadPaper in e.faults && !s.open && !e.call.thrown
            && MayAsk(s, e.call.room, e.call.user, e.faults)
            && PrepareFindExam !in e.faults && FindExamRow !in e.faults && Begin !in e.faults && Commit !in e.faults
            && e.call.drawn != [] && SaveSucceeds(s.papers, ExamId(s, e.call.room, e.call.user), e.call.drawn, e.faults)
  {
  }

  /** The paper handed out carries fresh times: the stored ones exactly when this call stored them, or at the same second. */
  lemma IssuedTimesAreStoredTimes(s: Db, bank: Bank, e: Event)
    requires Inv(s) && Plausible(s, bank, e) && Issues(s, bank, e)
    ensures IssuedExam(s, bank, e) in Next(s, bank, e).exams && e.call.room in s.rooms
    ensures var x := Next(s, bank, e).exams[IssuedExam(s, bank, e)];
            && (x.startAt == e.call.now <==>
                  !HasExam(s, e.call.room, e.call.user) || s.exams[ExamId(s, e.call.room, e.call.user)].startAt == e.call.now)
            && (x.endAt == e.call.now + s.rooms[e.call.room].duration <==> x.startAt == e.call.now)
  {
    NextKeepsInv(s, bank, e);
    NextMoves(s, bank, e);
    IssuedTimes(s, bank, e, Next(s, bank, e), IssuedExam(s, bank, e));
  }

  lemma IssuedTimes(s: Db, bank: Bank, e: Event, s': Db, id: int)
    requires Inv(s) && Inv(s') && e.call.GetPaper? && Issued(s, e, s', id) && s'.rooms == s.rooms && e.call.room in s.rooms
    requires id !in s.exams ==> NewExam(s, e.call, s', id)
    ensures var x := s'.exams[id];
            && (x.startAt == e.call.now <==>
                  !HasExam(s, e.call.room, e.call.user) || s.exams[ExamId(s, e.call.room, e.call.user)].startAt == e.call.now)
            && x.endAt == x.startAt + s.rooms[e.call.room].duration
  {
    if id in s.exams {
      assert IsExamOf(s, id, e.call.room, e.call.user);
      assert id == ExamId(s, e.call.room, e.call.user);
    }
  }

  // ---------- runs ----------

  lemma PapersInvAt(bank: Bank, states: seq<Db>, events: seq<Event>, k: nat)
    requires Run(bank, states, events) && k < |events| && PapersInv(states[k], bank)
    ensures PapersInv(states[k + 1], bank)
    ensures forall row :: row in states[k].papers ==>
              row in states[k + 1].papers && states[k + 1].papers[row] == states[k].papers[row]
  {
    StepMoves(bank, states, events, k);
    MovesKeepPapersInv(states[k], bank, events[k], states[k + 1]);
  }

  lemma {:induction false} RunKeepsPapersInv(bank: Bank, states: seq<Db>, events: seq<Event>, k: nat)
    requires Run(bank, states, events) && k < |states|
    ensures PapersInv(states[k], bank)
  {
    if k > 0 {
      RunKeepsPapersInv(bank, states, events, k - 1);
      PapersInvAt(bank, states, events, k - 1);
    }
  }

  /** Rows of exam_questions are never changed or removed. */
  lemma {:induction false} RowsStay(bank: Bank, states: seq<Db>, events: seq<Event>, i: nat, j: nat, k: (int, int))
    requires Run(bank, states, events) && i <= j < |states| && k in states[i].papers
    ensures k in states[j].papers && states[j].papers[k] == states[i].papers[k]
    decreases j
  {
    if i < j {
      RowsStay(bank, states, events, i, j - 1, k);
      RunKeepsPapersInv(bank, states, events, j - 1);
      PapersInvAt(bank, states, events, j - 1);
    }
  }

  /**
   One paper per student and room: a second one is given only by a call in which the SELECT that
   looks for the first one failed, and then only with other questions.
   */
  lemma OnePaperPerStudent(bank: Bank, states: seq<Db>, events: seq<Event>, i: nat, j: nat)
    requires Run(bank, states, events) && i < j < |events|
    requires Issues(states[i], bank, events[i]) && Issues(states[j], bank, events[j])
    requires events[i].call.room == events[j].call.room && events[i].call.user == events[j].call.user
    ensures LoadPaper in events[j].faults
    ensures Ids(events[i].call.drawn) !! Ids(events[j].call.drawn)
  {
    var id := IssuedExam(states[i], bank, events[i]);
    IssuedRowsStay(bank, states, events, i, j);
    StepMoves(bank, states, events, j);
    AnotherPaperAvoids(states[j], bank, events[j], id, Ids(events[i].call.drawn));
  }

  /** The rows of an issued paper, and the exam they belong to, are still there at any later state. */
  lemma IssuedRowsStay(bank: Bank, states: seq<Db>, events: seq<Event>, i: nat, j: nat)
    requires Run(bank, states, events) && i < j < |states| && Issues(states[i], bank, events[i])
    ensures var id := IssuedExam(states[i], bank, events[i]);
            && IsExamOf(states[j], id, events[i].call.room, events[i].call.user)
            && Ids(events[i].call.drawn) != {} && Ids(events[i].call.drawn) <= bank.Keys
            && forall q :: q in Ids(events[i].call.drawn) ==> (id, q) in states[j].papers
  {
    var id, drawn := IssuedExam(states[i], bank, events[i]), events[i].call.drawn;
    IssuedRows(bank, states, events, i);
    SeatsStay(bank, states, events, i + 1, j, id);
    forall q | q in Ids(drawn) ensures (id, q) in states[j].papers {
      RowsStay(bank, states, events, i + 1, j, (id, q));
    }
  }

  lemma IssuedRows(bank: Bank, states: seq<Db>, events: seq<Event>, i: nat)
    requires Run(bank, states, events) && i < |events| && Issues(states[i], bank, events[i])
    ensures var id := IssuedExam(states[i], bank, events[i]);
            && IsExamOf(states[i + 1], id, events[i].call.room, events[i].call.user)
            && Ids(events[i].call.drawn) != {} && Ids(events[i].call.drawn) <= bank.Keys
            && forall q :: q in Ids(events[i].call.drawn) ==> (id, q) in states[i + 1].papers
  {
    StepMoves(bank, states, events, i);
    IssuingEffect(states[i], bank, events[i]);
    RowsOfPaper(states[i].papers, IssuedExam(states[i], bank, events[i]), events[i].call.drawn);
    assert events[i].call.drawn[0] in Ids(events[i].call.drawn);
  }

  /** For a student whose exam has these questions on it, only a broken load lets another paper through, and it has none of them. */
  lemma AnotherPaperAvoids(s: Db, bank: Bank, e: Event, id: int, had: set<int>)
    requires Inv(s) && Plausible(s, bank, e) && Issues(s, bank, e) && IsExamOf(s, id, e.call.room, e.call.user)
    requires had != {} && had <= bank.Keys && forall q :: q in had ==> (id, q) in s.papers
    ensures LoadPaper in e.faults && had !! Ids(e.call.drawn)
  {
    assert ExamId(s, e.call.room, e.call.user) == id;
    Inhabited(had);
    var q :| q in had;
    assert q in OnPaper(s, bank, id);
    SecondPaperExactly(s, bank, e);
    forall p | p in Ids(e.call.drawn) ensures p !in had {
      var m :| 0 <= m < |e.call.drawn| && e.call.drawn[m] == p;
      assert (id, p) !in s.papers;
    }
  }

  // ---------- exams without a paper ----------

  /** The student asked for the paper in that room before state k, and the call did not issue one. */
  ghost predicate FailedBefore(bank: Bank, states: seq<Db>, events: seq<Event>, k: nat, room: int, user: int)
    requires |states| == |events| + 1 && k < |states|
  {
    exists i :: 0 <= i < k && FailsFor(states[i], bank, events[i], room, user)
  }

  ghost predicate FailsFor(s: Db, bank: Bank, e: Event, room: int, user: int) {
    e.call.GetPaper? && e.call.room == room && e.call.user == user && !Issues(s, bank, e)
  }

  /** In every reachable state an exam has no paper only if a get_exam_paper of its student has failed. */
  lemma {:induction false} NoPaperNeedsAFailure(bank: Bank, states: seq<Db>, events: seq<Event>, k: nat, id: int)
    requires Run(bank, states, events) && k < |states| && id in states[k].exams && OnPaper(states[k], bank, id) == {}
    ensures FailedBefore(bank, states, events, k, states[k].exams[id].room, states[k].exams[id].user)
  {
    if k > 0 {
      if id in states[k - 1].exams {
        NoPaperBefore(bank, states, events, k - 1, id);
        NoPaperNeedsAFailure(bank, states, events, k - 1, id);
      } else {
        NewExamHasAPaper(bank, states, events, k - 1, id);
      }
    }
  }

  lemma NoPaperBefore(bank: Bank, states: seq<Db>, events: seq<Event>, k: nat, id: int)
    requires Run(bank, states, events) && k < |events| && id in states[k].exams && OnPaper(states[k + 1], bank, id) == {}
    ensures OnPaper(states[k], bank, id) == {} && id in states[k + 1].exams && SameSeat(states[k].exams[id], states[k + 1].exams[id])
  {
    SeatStaysAt(bank, states, events, k, id);
    PaperOnlyGrows(bank, states, events, k, id);
  }

  lemma PaperOnlyGrows(bank: Bank, states: seq<Db>, events: seq<Event>, k: nat, id: int)
    requires Run(bank, states, events) && k < |events|
    ensures OnPaper(states[k], bank, id) <= OnPaper(states[k + 1], bank, id)
  {
    RunKeepsPapersInv(bank, states, events, k);
    PapersInvAt(bank, states, events, k);
    forall q | q in OnPaper(states[k], bank, id) ensures q in OnPaper(states[k + 1], bank, id) {
      assert (id, q) in states[k].papers;
    }
  }

  lemma NewExamHasAPaper(bank: Bank, states: seq<Db>, events: seq<Event>, k: nat, id: int)
    requires Run(bank, states, events) && k < |events| && id !in states[k].exams && id in states[k + 1].exams
    ensures var x := states[k + 1].exams[id];
            OnPaper(states[k + 1], bank, id) == {} ==> FailsFor(states[k], bank, events[k], x.room, x.user)
  {
    StepMoves(bank, states, events, k);
    if Issues(states[k], bank, events[k]) {
      IssuedRows(bank, states, events, k);
      assert id == IssuedExam(states[k], bank, events[k]);
      Inhabited(Ids(events[k].call.drawn));
      var q :| q in Ids(events[k].call.drawn);
      assert q in OnPaper(states[k + 1], bank, id);
    }
  }

  /** A paper with other times than the stored ones needs a failure too: now, in loading, or earlier, in some get_exam_paper. */
  lemma OtherTimesNeedAFailure(bank: Bank, states: seq<Db>, events: seq<Event>, k: nat)
    requires Run(bank, states, events) && k < |events| && Issues(states[k], bank, events[k])
    ensures IssuedExam(states[k], bank, events[k]) in states[k + 1].exams
    ensures states[k + 1].exams[IssuedExam(states[k], bank, events[k])].startAt != events[k].call.now ==>
              || LoadPaper in events[k].faults
              || FailedBefore(bank, states, events, k, events[k].call.room, events[k].call.user)
  {
    var s, e := states[k], events[k];
    StepMoves(bank, states, events, k);
    if HasExam(s, e.call.room, e.call.user) && LoadPaper !in e.faults {
      FreshPaperNeedsAFailure(bank, states, events, k);
    } else if LoadPaper !in e.faults {
      IssuedToNew(s, bank, e, states[k + 1]);
    }
  }

  lemma IssuedToNew(s: Db, bank: Bank, e: Event, s': Db)
    requires Inv(s) && Inv(s') && Moves(s, bank, e, s') && Issues(s, bank, e) && !HasExam(s, e.call.room, e.call.user)
    ensures s'.exams[IssuedExam(s, bank, e)].startAt == e.call.now
  {
    var id := IssuedExam(s, bank, e);
    if id in s.exams { assert IsExamOf(s, id, e.call.room, e.call.user); }
  }

  lemma FreshPaperNeedsAFailure(bank: Bank, states: seq<Db>, events: seq<Event>, k: nat)
    requires Run(bank, states, events) && k < |events| && Issues(states[k], bank, events[k]) && LoadPaper !in events[k].faults
    requires HasExam(states[k], events[k].call.room, events[k].call.user)
    ensures IsExamOf(states[k], IssuedExam(states[k], bank, events[k]), events[k].call.room, events[k].call.user)
    ensures FailedBefore(bank, states, events, k, events[k].call.room, events[k].call.user)
  {
    var s, e := states[k], events[k];
    var id := IssuedExam(s, bank, e);
    StepMoves(bank, states, events, k);
    FreshIssue(s, bank, e);
    IssuedToOld(s, bank, e, states[k + 1]);
    NoPaperNeedsAFailure(bank, states, events, k, id);
  }

  /** A paper issued by a call that could load is the first one of its exam. */
  lemma FreshIssue(s: Db, bank: Bank, e: Event)
    requires Plausible(s, bank, e) && Issues(s, bank, e) && LoadPaper !in e.faults
    ensures OnPaper(s, bank, IssuedExam(s, bank, e)) == {} && bank != map[]
  {
    IssuingEffect(s, bank, e);
    assert e.call.drawn[0] in bank;
    forall q ensures q !in OnPaper(s, bank, IssuedExam(s, bank, e)) {}
  }

  lemma IssuedToOld(s: Db, bank: Bank, e: Event, s': Db)
    requires Inv(s) && Inv(s') && Moves(s, bank, e, s') && Issues(s, bank, e) && HasExam(s, e.call.room, e.call.user)
    ensures IsExamOf(s, IssuedExam(s, bank, e), e.call.room, e.call.user)
  {
    var id := IssuedExam(s, bank, e);
    assert id !in s.exams ==> NewExam(s, e.call, s', id);
  }

  lemma FirstIssue(s: Db, bank: Bank, e: Event, s': Db)
    requires PapersInv(s, bank) && Plausible(s, bank, e) && Moves(s, bank, e, s') && Issues(s, bank, e) && LoadPaper !in e.faults
    ensures PaperIs(s', IssuedExam(s, bank, e), e.call.drawn)
    ensures e.call.drawn != []
  {
    IssuingEffect(s, bank, e);
    RowsOfPaper(s.papers, IssuedExam(s, bank, e), e.call.drawn);
  }

  lemma PaperSurvives(s: Db, bank: Bank, e: Event, s': Db, id: int, qs: seq<int>)
    requires PapersInv(s, bank) && Plausible(s, bank, e) && Moves(s, bank, e, s') && LoadPaper !in e.faults
    requires PaperIs(s, id, qs) && qs != []
    ensures PaperIs(s', id, qs)
  {
    if Issues(s, bank, e) {
      IssuingEffect(s, bank, e);
      OtherPapersStay(s, s', IssuedExam(s, bank, e), e.call.drawn, id, qs);
    }
  }

  lemma OtherPapersStay(s: Db, s': Db, other: int, drawn: seq<int>, id: int, qs: seq<int>)
    requires PaperIs(s, id, qs) && qs != []
    requires Distinct(drawn) && s'.papers == WithPaper(s.papers, other, drawn) && forall q :: (other, q) !in s.papers
    ensures PaperIs(s', id, qs)
  {
    RowsOfPaper(s.papers, other, drawn);
    assert (id, qs[0]) in s.papers;
    forall q ensures (id, q) in s'.papers <==> (id, q) in s.papers {
      assert (id, q) in s'.papers <==> (id, q) in s.papers || (id == other && q in drawn);
    }
  }

  lemma FirstIssueAt(bank: Bank, states: seq<Db>, events: seq<Event>, k: nat)
    requires Run(bank, states, events) && k < |events|
    requires Issues(states[k], bank, events[k]) && LoadPaper !in events[k].faults
    ensures PaperIs(states[k + 1], IssuedExam(states[k], bank, events[k]), events[k].call.drawn) && events[k].call.drawn != []
  {
    RunKeepsPapersInv(bank, states, events, k);
    StepMoves(bank, states, events, k);
    FirstIssue(states[k], bank, events[k], states[k + 1]);
  }

  lemma PaperSurvivesAt(bank: Bank, states: seq<Db>, events: seq<Event>, k: nat, id: int, qs: seq<int>)
    requires Run(bank, states, events) && k < |events| && LoadPaper !in events[k].faults
    requires PaperIs(states[k], id, qs) && qs != []
    ensures PaperIs(states[k + 1], id, qs)
  {
    RunKeepsPapersInv(bank, states, events, k);
    StepMoves(bank, states, events, k);
    PaperSurvives(states[k], bank, events[k], states[k + 1], id, qs);
  }

  /** With the loading SELECT working, the paper of an exam stays the one that was issued. */
  lemma {:induction false} PaperStays(bank: Bank, states: seq<Db>, events: seq<Event>, i: nat, j: nat, id: int)
    requires Run(bank, states, events) && i < j < |states|
    requires Issues(states[i], bank, events[i])
    requires id == IssuedExam(states[i], bank, events[i])
    requires forall k :: i <= k < j ==> LoadPaper !in events[k].faults
    ensures PaperIs(states[j], id, events[i].call.drawn) && events[i].call.drawn != []
    decreases j
  {
    if i == j - 1 {
      FirstIssueAt(bank, states, events, i);
    } else {
      PaperStays(bank, states, events, i, j - 1, id);
      PaperSurvivesAt(bank, states, events, j - 1, id, events[i].call.drawn);
    }
  }

  /** ... and load_exam_questions returns it, question for question, in the order issued. */
  lemma LoadReturnsThePaper(bank: Bank, states: seq<Db>, events: seq<Event>, i: nat, j: nat, id: int, rows: seq<int>)
    requires Run(bank, states, events) && i < j < |states|
    requires Issues(states[i], bank, events[i])
    requires id == IssuedExam(states[i], bank, events[i])
    requires forall k :: i <= k < j ==> LoadPaper !in events[k].faults
    requires RoomManager.IsListing(states[j], bank, id, rows)
    ensures rows == events[i].call.drawn
  {
    PaperStays(bank, states, events, i, j, id);
    RunKeepsPapersInv(bank, states, events, j);
    ListingIsPaper(states[j], bank, id, events[i].call.drawn, rows);
  }

  lemma ListingIsPaper(s: Db, bank: Bank, id: int, qs: seq<int>, rows: seq<int>)
    requires PapersInv(s, bank) && PaperIs(s, id, qs) && RoomManager.IsListing(s, bank, id, rows)
    ensures rows == qs
  {
    forall q ensures q in rows <==> q in qs {
      assert q in rows <==> q in Ids(rows);
      assert q in OnPaper(s, bank, id) <==> (id, q) in s.papers;
    }
    SortedIsIssued(s.papers, id, rows, qs);
  }

  lemma SortedIsIssued(papers: map<(int, int), int>, exam: int, rows: seq<int>, qs: seq<int>)
    requires Distinct(rows) && Distinct(qs) && forall q :: q in rows <==> q in qs
    requires forall i :: 0 <= i < |qs| ==> (exam, qs[i]) in papers && papers[(exam, qs[i])] == i + 1
    requires RoomManager.Sorted(papers, exam, rows)
    ensures rows == qs
  {
    NoLonger(rows, qs);
    NoLonger(qs, rows);
    var at := seq(|rows|, i requires 0 <= i < |rows| => RoomManager.Order(papers, exam, rows[i]) - 1);
    forall i | 0 <= i < |rows| ensures 0 <= at[i] < |qs| && qs[at[i]] == rows[i] {
      assert rows[i] in qs;
      var m :| 0 <= m < |qs| && qs[m] == rows[i];
    }
    OrderedPlaces(at, qs, rows);
  }

  lemma NoLonger(a: seq<int>, b: seq<int>)
    requires Distinct(a) && Distinct(b) && forall q :: q in a ==> q in b
    ensures |a| <= |b|
  {
    DistinctSize(a);
    DistinctSize(b);
    forall q | q in Ids(a) ensures q in Ids(b) {}
    SubsetSize(Ids(a), Ids(b));
  }

  /** A list that visits the places of another of the same length in ascending order is that list. */
  lemma OrderedPlaces(at: seq<int>, qs: seq<int>, rows: seq<int>)
    requires |at| == |rows| == |qs| && Distinct(rows)
    requires forall i :: 0 <= i < |rows| ==> 0 <= at[i] < |qs| && qs[at[i]] == rows[i]
    requires forall i, j :: 0 <= i < j < |at| ==> at[i] <= at[j]
    ensures rows == qs
  {
    forall i, j | 0 <= i < j < |at| ensures at[i] < at[j] {
      assert rows[i] != rows[j];
    }
    forall i | 0 <= i < |rows| ensures rows[i] == qs[i] {
      Squeezed(at, i);
    }
  }

  /** n strictly increasing numbers below n are 0, 1, ..., n - 1. */
  lemma Squeezed(at: seq<int>, i: nat)
    requires i < |at|
    requires forall k :: 0 <= k < |at| ==> 0 <= at[k] < |at|
    requires forall j, k :: 0 <= j < k < |at| ==> at[j] < at[k]
    ensures at[i] == i
  {
    AtLeast(at, i);
    AtMost(at, i);
  }

  lemma {:induction false} AtLeast(at: seq<int>, i: nat)
    requires i < |at|
    requires forall k :: 0 <= k < |at| ==> 0 <= at[k]
    requires forall j, k :: 0 <= j < k < |at| ==> at[j] < at[k]
    ensures at[i] >= i
  {
    if i > 0 { AtLeast(at, i - 1); }
  }

  lemma {:induction false} AtMost(at: seq<int>, i: nat)
    requires i < |at|
    requires forall k :: 0 <= k < |at| ==> at[k] < |at|
    requires forall j, k :: 0 <= j < k < |at| ==> at[j] < at[k]
    ensures at[i] <= i
    decreases |at| - i
  {
    if i + 1 < |at| { AtMost(at, i + 1); }
  }
}
