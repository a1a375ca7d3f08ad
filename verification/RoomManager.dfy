/**
 RoomManager of server/src/room.cpp over its tables. Every method takes the set of statements
 that fail during the call, and is proved to do what RoomSpec says for that call.
 */
module RoomManager {
  import opened Wrappers
  import opened RoomSchema
  import opened QuestionPicker
  import opened Grading
  import opened RoomSpec
  import opened RoomInvariant
  import opened RoomStatistics

  datatype Paper = Paper(exam: int, room: int, questions: seq<int>, startTime: int, endTime: int)

  /** What load_exam_questions may return: the paper's questions in question_order. */
  ghost predicate IsListing(s: Db, bank: Bank, exam: int, rows: seq<int>) {
    && Distinct(rows)
    && Ids(rows) == OnPaper(s, bank, exam)
    && Sorted(s.papers, exam, rows)
  }

  /** question_order of a row. */
  function Order(papers: map<(int, int), int>, exam: int, q: int): int {
    if (exam, q) in papers then papers[(exam, q)] else 0
  }

  class RoomManager {
    const bank: Bank
    var rooms: map<int, Room>
    var participants: set<(int, int)>
    var exams: map<int, Exam>
    var papers: map<(int, int), int>
    var answers: map<(int, int), string>
    var practices: map<int, Practice>
    var nextRoom: int
    var nextExam: int
    var open: bool

    function Abs(): Db
      reads this
    {
      Db(rooms, participants, exams, papers, answers, practices, nextRoom, nextExam, open)
    }

    ghost predicate Valid()
      reads this
    {
      Inv(Abs())
    }

    constructor (bank: Bank)
      ensures this.bank == bank && Valid()
      ensures Abs() == Db(map[], {}, map[], map[], map[], map[], 1, 1, false)
    {
      this.bank := bank;
      rooms, participants, exams, papers, answers, practices := map[], {}, map[], map[], map[], map[];
      nextRoom, nextExam, open := 1, 1, false;
    }

    // ---------- lifecycle ----------

    method CreateRoom(creator: int, pass: string, duration: int, settings: Settings, time: nat, faults: Faults)
      returns (id: Option<int>)
      requires Valid()
      modifies this
      ensures var c := Call.CreateRoom(creator, pass, duration, settings, time);
              && Abs() == Next(old(Abs()), bank, Event(c, faults))
              && id == if CreateSucceeds(old(Abs()), c, faults) then Some(old(nextRoom)) else None
      ensures Valid()
    {
      NextKeepsInv(Abs(), bank, Event(Call.CreateRoom(creator, pass, duration, settings, time), faults));
      if OpenDb in faults { return None; }
      var code := (time, creator);
      var taken := CodeInUse(code);
      if InsertRoom in faults || taken { return None; }
      id := Some(nextRoom);
      rooms := rooms[nextRoom := Room(code, duration, settings, Waiting, pass, creator, None)];
      nextRoom := nextRoom + 1;
    }

    /** UNIQUE(room_code) */
    method CodeInUse(code: (nat, int)) returns (taken: bool)
      ensures taken == CodeTaken(Abs(), code)
    {
      taken := exists r :: r in rooms && rooms[r].code == code;
    }

    method JoinRoom(room: int, user: int, pass: string, faults: Faults) returns (ok: bool)
      requires Valid()
      modifies this
      ensures var c := Call.JoinRoom(room, user, pass);
              && Abs() == Next(old(Abs()), bank, Event(c, faults))
              && ok == JoinSucceeds(old(Abs()), c, faults)
      ensures Valid()
    {
      NextKeepsInv(Abs(), bank, Event(Call.JoinRoom(room, user, pass), faults));
      if OpenDb in faults { return false; }
      if SelectRoom in faults || room !in rooms { return false; }
      var row := rooms[room];
      if row.status != Waiting && row.status != InProgress { return false; }
      if row.pass != pass { return false; }
      if InsertParticipant in faults { return false; }
      participants := participants + {(room, user)};
      return true;
    }

    method StartRoom(room: int, user: int, now: nat, faults: Faults) returns (ok: bool)
      requires Valid()
      modifies this
      ensures var c := Call.StartRoom(room, user, now);
              && Abs() == Next(old(Abs()), bank, Event(c, faults))
              && ok == StartSucceeds(old(Abs()), c, faults)
      ensures Valid()
    {
      NextKeepsInv(Abs(), bank, Event(Call.StartRoom(room, user, now), faults));
      if OpenDb in faults || UpdateRoom in faults { return false; }
      if room !in rooms || rooms[room].creator != user || rooms[room].status != Waiting { return false; }
      rooms := rooms[room := rooms[room].(status := InProgress, startedAt := Some(now))];
      return true;
    }

    method FinishRoom(room: int, user: int, faults: Faults) returns (ok: bool)
      requires Valid()
      modifies this
      ensures var c := Call.FinishRoom(room, user);
              && Abs() == Next(old(Abs()), bank, Event(c, faults))
              && ok == FinishSucceeds(old(Abs()), c, faults)
      ensures Valid()
    {
      NextKeepsInv(Abs(), bank, Event(Call.FinishRoom(room, user), faults));
      if OpenDb in faults { return false; }
      if SelectRoom in faults || room !in rooms { return false; }
      if rooms[room].creator != user { return false; }
      if rooms[room].status != InProgress { return false; }
      if UpdateRoom in faults { return false; }
      rooms := rooms[room := rooms[room].(status := Finished)];
      return true;
    }

    /** The row of the room goes; with foreign keys off nothing else does. */
    method DropRoom(room: int, user: int, faults: Faults) returns (ok: bool)
      requires Valid()
      modifies this
      ensures var c := Call.DropRoom(room, user);
              && Abs() == Next(old(Abs()), bank, Event(c, faults))
              && ok == DropSucceeds(old(Abs()), c, faults)
      ensures Valid()
    {
      NextKeepsInv(Abs(), bank, Event(Call.DropRoom(room, user), faults));
      if OpenDb in faults { return false; }
      if SelectRoom in faults || room !in rooms { return false; }
      if rooms[room].creator != user { return false; }
      if rooms[room].status == InProgress { return false; }
      if DeleteRoom in faults { return false; }
      rooms := map r | r in rooms && r != room :: rooms[r];
      return true;
    }

    // ---------- papers ----------

    method EnsureExamRow(room: int, user: int, start: int, end: int, faults: Faults) returns (id: Option<int>)
      requires UniqueExams(Abs())
      modifies this`exams, this`nextExam
      ensures (Abs(), id) == EnsureExam(old(Abs()), room, user, start, end, faults)
    {
      if PrepareFindExam in faults { return None; }
      ghost var found := HasExam(Abs(), room, user);
      var rows := set i | i in exams && exams[i].room == room && exams[i].user == user;
      assert forall i :: i in rows <==> IsExamOf(Abs(), i, room, user);
      Inhabited(rows);
      if FindExamRow !in faults && rows != {} {
        var i :| i in rows;
        assert IsExamOf(Abs(), ExamId(Abs(), room, user), room, user);
        return Some(i);
      }
      if InsertExam in faults || rows != {} { return None; }
      id := Some(nextExam);
      exams := exams[nextExam := Exam(room, user, start, end, 0, None)];
      nextExam := nextExam + 1;
    }

    /** Throws over a question whose options do not parse. */
    method LoadExamQuestions(exam: int, faults: Faults) returns (rows: seq<int>, threw: bool)
      ensures if LoadPaper in faults then rows == [] && !threw else IsListing(Abs(), bank, exam, rows)
      ensures LoadPaper !in faults ==> threw == Unreadable(bank, OnPaper(Abs(), bank, exam))
    {
      if LoadPaper in faults { return [], false; }
      rows := OrderBy(OnPaper(Abs(), bank, exam), exam, papers);
      threw := exists q :: q in OnPaper(Abs(), bank, exam) && !bank[q].readable;
    }

    method SaveExamQuestions(exam: int, qs: seq<int>, faults: Faults) returns (ok: bool)
      requires Distinct(qs)
      modifies this`papers
      ensures ok == SaveSucceeds(old(papers), exam, qs, faults)
      ensures ok ==> papers == WithPaper(old(papers), exam, qs)
      ensures exists k :: 0 <= k <= |qs| && papers == WithPaper(old(papers), exam, qs[..k])
    {
      if PrepareSave in faults {
        assert qs[..0] == [] && papers == WithPaper(old(papers), exam, qs[..0]);
        return false;
      }
      var i := 0;
      while i < |qs|
        invariant 0 <= i <= |qs|
        invariant papers == WithPaper(old(papers), exam, qs[..i])
        invariant forall j :: 0 <= j < i ==> SaveRow(j) !in faults && (exam, qs[j]) !in old(papers)
      {
        InWithPaper(old(papers), exam, qs[..i], (exam, qs[i]));
        if SaveRow(i) in faults || (exam, qs[i]) in papers { return false; }
        assert qs[..i + 1][..i] == qs[..i];
        papers := papers[(exam, qs[i]) := i + 1];
        i := i + 1;
      }
      assert qs[..i] == qs;
      return true;
    }

    /** threw: the call ended in an exception. */
    method GetExamPaper(room: int, user: int, now: nat, faults: Faults)
      returns (paper: Option<Paper>, threw: bool, ghost drawn: seq<int>, ghost thrown: bool)
      requires Valid()
      modifies this
      ensures var c := GetPaper(room, user, now, drawn, thrown);
              var before := old(Abs());
              && Plausible(before, bank, Event(c, faults))
              && Abs() == Next(before, bank, Event(c, faults))
              && (paper.Some? <==> PaperSucceeds(before, bank, c, faults))
              && (threw <==> Throws(before, bank, c, faults))
              && (paper.Some? ==> paper == Some(Paper(Opening(before, bank, c, faults).1.value, room, drawn,
                                                      now, now + before.rooms[room].duration)))
      ensures paper.Some? ==>
                && room in rooms && rooms[room].status == InProgress && (room, user) in participants
                && IsExamOf(Abs(), paper.value.exam, room, user)
                && (UpdateTotal !in faults ==> exams[paper.value.exam].total == |paper.value.questions|)
                && (faults == {} ==> AsAsked(bank, rooms[room].settings, paper.value.questions))
      ensures Valid()
    {
      ghost var before := Abs();
      paper, threw, drawn, thrown := IssuePaper(room, user, now, faults);
      PaperStep(before, bank, GetPaper(room, user, now, drawn, thrown), faults);
      if paper.Some? { IssuedAsAsked(before, bank, GetPaper(room, user, now, drawn, thrown), faults); }
    }

    method IssuePaper(room: int, user: int, now: nat, faults: Faults)
      returns (paper: Option<Paper>, threw: bool, ghost drawn: seq<int>, ghost thrown: bool)
      requires UniqueExams(Abs())
      modifies this
      ensures var c := GetPaper(room, user, now, drawn, thrown);
              var before := old(Abs());
              && Plausible(before, bank, Event(c, faults))
              && Abs() == AfterGetPaper(before, bank, c, faults)
              && (paper.Some? <==> PaperSucceeds(before, bank, c, faults))
              && (threw <==> Throws(before, bank, c, faults))
              && (paper.Some? ==> paper == Some(Paper(Opening(before, bank, c, faults).1.value, room, drawn,
                                                      now, now + before.rooms[room].duration)))
    {
      drawn, thrown := [], false;
      ghost var before := Abs();
      var may := MayAskNow(room, user, faults);
      if !may {
        PaperRefused(before, bank, GetPaper(room, user, now, [], false), faults, Abs());
        return None, false, [], false;
      }
      paper, threw, drawn, thrown := EnsureAndIssue(room, user, now, faults);
    }

    method EnsureAndIssue(room: int, user: int, now: nat, faults: Faults)
      returns (paper: Option<Paper>, threw: bool, ghost drawn: seq<int>, ghost thrown: bool)
      requires UniqueExams(Abs()) && MayAsk(Abs(), room, user, faults)
      modifies this
      ensures var c := GetPaper(room, user, now, drawn, thrown);
              var before := old(Abs());
              && Plausible(before, bank, Event(c, faults))
              && Abs() == AfterGetPaper(before, bank, c, faults)
              && (paper.Some? <==> PaperSucceeds(before, bank, c, faults))
              && (threw <==> Throws(before, bank, c, faults))
              && (paper.Some? ==> paper == Some(Paper(Opening(before, bank, c, faults).1.value, room, drawn,
                                                      now, now + before.rooms[room].duration)))
    {
      drawn, thrown := [], false;
      ghost var before := Abs();
      var start := now;
      var end := start + rooms[room].duration;
      var id := EnsureExamRow(room, user, start, end, faults);
      ghost var s1 := Abs();
      if id.None? || Begin in faults || open {
        PaperRefused(before, bank, GetPaper(room, user, now, [], false), faults, Abs());
        return None, false, [], false;
      }
      paper, threw, drawn, thrown := InTransaction(id.value, rooms[room], room, user, start, end, faults);
      ghost var c := GetPaper(room, user, now, drawn, thrown);
      PaperOpened(before, bank, c, faults, s1, id.value);
      PaperTried(before, bank, c, faults, s1, id.value, Abs(), paper.Some?, threw);
    }

    /** The room is there and in progress, and the user has joined it. */
    method MayAskNow(room: int, user: int, faults: Faults) returns (ok: bool)
      ensures ok == MayAsk(Abs(), room, user, faults)
    {
      if OpenDb in faults { return false; }
      if SelectRoom in faults || room !in rooms { return false; }
      if rooms[room].status != InProgress { return false; }
      if SelectParticipant in faults || (room, user) !in participants { return false; }
      return true;
    }

    /**
     From BEGIN IMMEDIATE on: leaving without a paper puts papers and exams back as they were, but an
     exception leaves with the transaction still open.
     */
    method InTransaction(id: int, row: Room, room: int, ghost user: int, start: nat, end: int, faults: Faults)
      returns (paper: Option<Paper>, threw: bool, ghost drawn: seq<int>, ghost thrown: bool)
      requires id in exams && !open
      modifies this`papers, this`exams, this`open
      ensures InTransactionDid(old(Abs()), bank, GetPaper(room, user, start, drawn, thrown), faults, row, id, Abs(), paper.Some?, threw)
      ensures paper.Some? ==> paper == Some(Paper(id, room, drawn, start, end))
    {
      paper, drawn, thrown := None, [], false;
      var rollbackPapers, rollbackExams := papers, exams;
      var questions;
      questions, threw := LoadExamQuestions(id, faults);
      if threw {
        open := true;
        return;
      }
      if questions != [] {
        assert questions[0] in Ids(questions);
        return;
      }
      var settings := WithDefaults(row.settings);
      questions, threw := PickQuestions(bank, settings, faults);
      drawn, thrown := questions, threw;
      if threw {
        open := true;
        return;
      }
      if questions == [] { return; }
      var saved := SaveExamQuestions(id, questions, faults);
      if !saved {
        papers := rollbackPapers;
        return;
      }
      if UpdateTotal !in faults {
        exams := exams[id := exams[id].(total := |questions|)];
      }
      if Commit in faults {
        papers, exams := rollbackPapers, rollbackExams;
        return;
      }
      paper := Some(Paper(id, room, questions, start, end));
    }

    method WithDefaults(asked: Settings) returns (settings: Settings)
      ensures settings == Effective(asked)
    {
      settings := asked;
      if settings.total <= 0 {
        settings := settings.(total := settings.easy + settings.medium + settings.hard);
      }
      if settings.total <= 0 {
        settings := Settings(10, 4, 4, 2);
      }
    }

    // ---------- answers and grades ----------

    method SubmitAnswers(exam: int, list: Choices, faults: Faults) returns (ok: bool)
      modifies this`answers
      ensures Abs() == AfterAnswers(old(Abs()), exam, list, faults)
      ensures Abs() == Next(old(Abs()), bank, Event(Call.SubmitAnswers(exam, list), faults))
      ensures ok == AnswersSucceed(list, faults)
    {
      if OpenDb in faults || PrepareAnswers in faults { return false; }
      var i := 0;
      while i < |list|
        invariant 0 <= i <= |list|
        invariant answers == Upsert(old(answers), exam, list[..i])
        invariant forall j :: 0 <= j < i ==> SaveAnswer(j) !in faults
      {
        if SaveAnswer(i) in faults { return false; }
        assert list[..i + 1][..i] == list[..i];
        answers := answers[(exam, list[i].0) := list[i].1];
        i := i + 1;
      }
      return true;
    }

    method SubmitExam(exam: int, list: Choices, now: nat, faults: Faults)
      returns (ok: bool, correct: nat, total: int, score: real)
      requires Valid()
      modifies this`answers, this`exams
      ensures var c := Call.SubmitExam(exam, list, now);
              && Abs() == Next(old(Abs()), bank, Event(c, faults))
              && ok == SubmitSucceeds(old(Abs()), c, faults)
              && (ok ==> (correct, total, score) == SubmitMarks(old(Abs()), bank, c, faults))
      ensures ok ==>
                && OverTen(answers, bank, exam, faults, correct, total, score, |list|)
                && exam in exams && exams[exam].total == total && exams[exam].grade == Some(Grade(now, correct, score))
      ensures Valid()
    {
      SubmitStepKeepsInv(Abs(), bank, Call.SubmitExam(exam, list, now), faults);
      ok, correct, total, score := SubmitOnce(exam, list, now, faults);
    }

    method SubmitOnce(exam: int, list: Choices, now: nat, faults: Faults)
      returns (ok: bool, correct: nat, total: int, score: real)
      modifies this`answers, this`exams
      ensures var c := Call.SubmitExam(exam, list, now);
              && Abs() == AfterSubmit(old(Abs()), bank, c, faults)
              && ok == SubmitSucceeds(old(Abs()), c, faults)
              && (ok ==> (correct, total, score) == SubmitMarks(old(Abs()), bank, c, faults))
      ensures ok ==>
                && OverTen(answers, bank, exam, faults, correct, total, score, |list|)
                && exam in exams && exams[exam].total == total && exams[exam].grade == Some(Grade(now, correct, score))
    {
      SubmitEffect(Abs(), bank, Call.SubmitExam(exam, list, now), faults);
      ok, correct, total, score := false, 0, 0, 0.0;
      var open := MayBeSubmitted(exam, faults);
      if !open { return; }
      var saved := SubmitAnswers(exam, list, faults);
      if saved {
        assert Saved(list, faults) == list;
        ok, correct, total, score := RecordGrade(exam, |list|, now, faults);
      }
    }

    /** SELECT submitted_at FROM exams WHERE id = ?, and the test for NULL. */
    method MayBeSubmitted(exam: int, faults: Faults) returns (ok: bool)
      ensures ok == Admitted(Abs(), exam, faults)
    {
      if OpenDb in faults || CheckExam in faults { return false; }
      return exam in exams && exams[exam].grade.None?;
    }

    /** The second half of submit_exam: grade what the table says, and write it once. */
    method RecordGrade(exam: int, listed: nat, now: nat, faults: Faults)
      returns (ok: bool, correct: nat, total: int, score: real)
      requires exam in exams && exams[exam].grade.None?
      modifies this`exams
      ensures ok == (SelectGrade(exam) !in faults && UpdateGrade(exam) !in faults)
      ensures ok ==> (correct, total, score) == Marks(Delivered(SheetOf(answers, exam), exam, faults), bank, listed)
      ensures ok ==> OverTen(answers, bank, exam, faults, correct, total, score, listed)
      ensures exams == if ok then old(exams)[exam := Graded(old(exams)[exam], (correct, total, score), now)] else old(exams)
    {
      ok, correct, total, score := false, 0, 0, 0.0;
      if SelectGrade(exam) in faults { return; }
      correct, total := GradeRows(answers, exam, bank, faults);
      if total == 0 { total := listed; }
      score := if total > 0 then correct as real * 10.0 / total as real else 0.0;
      MarksAreOverTen(answers, bank, exam, faults, listed);
      if UpdateGrade(exam) in faults { return; }
      if exams[exam].grade.None? {
        exams := exams[exam := exams[exam].(total := total, grade := Some(Grade(now, correct, score)))];
        ok := true;
      }
    }

    method SubmitPractice(practice: int, user: int, list: Choices, now: nat, faults: Faults)
      returns (ok: bool, correct: nat, total: nat, score: real)
      requires Valid()
      modifies this`practices
      ensures var c := Call.SubmitPractice(practice, user, list, now);
              && Abs() == Next(old(Abs()), bank, Event(c, faults))
              && ok == PracticeSucceeds(c, faults)
              && (ok ==> correct == PracticeRight(list, bank, faults) && total == |list| && score == Score(correct, total))
      ensures ok ==>
                && correct == |RightPositions(list, bank, faults)| && total == |list|
                && (total > 0 ==> score * total as real == 10.0 * correct as real)
                && (total == 0 ==> score == 0.0)
                && (practice in practices && practices[practice].user == user ==>
                      practices[practice] == Practice(user, now, Some(correct), Some(score)))
      ensures forall p :: p in old(practices) ==>
                p in practices && (p != practice || old(practices)[p].user != user ==> practices[p] == old(practices)[p])
      ensures Valid()
    {
      PracticeStep(Abs(), bank, Call.SubmitPractice(practice, user, list, now), faults);
      ok, correct, total, score := PracticeOnce(practice, user, list, now, faults);
    }

    method PracticeOnce(practice: int, user: int, list: Choices, now: nat, faults: Faults)
      returns (ok: bool, correct: nat, total: nat, score: real)
      modifies this`practices
      ensures var c := Call.SubmitPractice(practice, user, list, now);
              && Abs() == AfterPractice(old(Abs()), bank, c, faults)
              && ok == PracticeSucceeds(c, faults)
              && (ok ==> correct == PracticeRight(list, bank, faults) && total == |list| && score == Score(correct, total))
      ensures ok ==>
                && correct == |RightPositions(list, bank, faults)| && total == |list|
                && (total > 0 ==> score * total as real == 10.0 * correct as real)
                && (total == 0 ==> score == 0.0)
                && (practice in practices && practices[practice].user == user ==>
                      practices[practice] == Practice(user, now, Some(correct), Some(score)))
      ensures forall p :: p in old(practices) ==>
                p in practices && (p != practice || old(practices)[p].user != user ==> practices[p] == old(practices)[p])
    {
      ok, correct, total, score := false, 0, 0, 0.0;
      if OpenDb in faults { return; }
      var looked;
      looked, correct := MarkPractice(list, faults);
      if !looked { return; }
      total := |list|;
      score := if total > 0 then correct as real * 10.0 / total as real else 0.0;
      PracticeCountsPositions(list, bank, faults);
      ScoreIsOverTen(correct, total);
      if UpdatePractice in faults { return; }
      if practice in practices && practices[practice].user == user {
        practices := practices[practice := Practice(user, now, Some(correct), Some(score))];
      }
      ok := true;
    }

    /** The loop of submit_practice: one SELECT per choice. */
    method MarkPractice(list: Choices, faults: Faults) returns (ok: bool, correct: nat)
      ensures ok <==> forall i :: 0 <= i < |list| ==> SelectCorrect(i) !in faults
      ensures ok ==> correct == PracticeRight(list, bank, faults)
    {
      correct := 0;
      var i := 0;
      while i < |list|
        invariant 0 <= i <= |list|
        invariant correct == PracticeRight(list[..i], bank, faults)
        invariant forall j :: 0 <= j < i ==> SelectCorrect(j) !in faults
      {
        if SelectCorrect(i) in faults { return false, correct; }
        assert list[..i + 1][..i] == list[..i];
        if CorrectRow(i) !in faults && list[i].0 in bank && list[i].1 == bank[list[i].0].answer { correct := correct + 1; }
        i := i + 1;
      }
      assert list[..i] == list;
      return true, correct;
    }

    /** The result is -1 when the expired exams could not be looked up, and else how many were graded. */
    method AutoSubmitExpiredExams(now: nat, faults: Faults) returns (count: int)
      requires Valid()
      modifies this`exams
      ensures Abs() == Next(old(Abs()), bank, Event(AutoSubmit(now), faults))
      ensures count == if SweepRuns(faults) then |Swept(old(Abs()), now, faults)| else -1
      ensures forall id :: id in exams ==>
                id in old(exams) && (exams[id] == old(exams)[id] || SweptTo(answers, bank, id, old(exams)[id], exams[id], now, faults))
      ensures Valid()
    {
      SweepStepKeepsInv(Abs(), bank, now, faults);
      SweepIsOverTen(Abs(), bank, now, faults);
      count := Sweep(now, faults);
    }

    method Sweep(now: nat, faults: Faults) returns (count: int)
      modifies this`exams
      ensures Abs() == AfterAutoSubmit(old(Abs()), bank, now, faults)
      ensures count == if SweepRuns(faults) then |Swept(old(Abs()), now, faults)| else -1
    {
      if OpenDb in faults || FindExpired in faults { return -1; }
      var expired := FindExpiredExams(now, faults);
      count := GradeAll(expired, now, faults);
      SweptOnly(old(Abs()), bank, now, faults, exams);
    }

    /** SELECT id FROM exams WHERE end_at < ? AND submitted_at IS NULL */
    method FindExpiredExams(now: nat, faults: Faults) returns (expired: set<int>)
      ensures expired == ExpiredIds(exams, now, faults)
    {
      expired := set id | id in exams && exams[id].endAt < now && exams[id].grade.None? && ExpiredRow(id) !in faults;
    }

    /** The loop over the expired exams. */
    method GradeAll(expired: set<int>, now: nat, faults: Faults) returns (count: nat)
      requires forall id :: id in expired ==> id in exams && exams[id].grade.None?
      modifies this`exams
      ensures SweptPart(old(exams), answers, bank, exams, Working(expired, faults), now, faults)
      ensures count == |Working(expired, faults)|
    {
      ghost var before := exams;
      var todo := expired;
      ghost var done: set<int> := {};
      count := 0;
      while todo != {}
        invariant todo == expired - done && done <= expired
        invariant SweptSoFar(before, answers, bank, exams, expired, done, count, now, faults)
        decreases |todo|
      {
        Inhabited(todo);
        var id :| id in todo;
        todo := todo - {id};
        SweepOneMore(before, answers, bank, exams, expired, done, id, count, now, faults);
        done := done + {id};
        var graded := AutoGrade(id, now, faults);
        if graded { count := count + 1; }
      }
      assert done == expired && done * Working(expired, faults) == Working(expired, faults);
    }

    /** One turn of the loop over the expired exams. */
    method AutoGrade(id: int, now: nat, faults: Faults) returns (graded: bool)
      requires id in exams && exams[id].grade.None?
      modifies this`exams
      ensures graded == (SelectGrade(id) !in faults && UpdateGrade(id) !in faults)
      ensures exams == if graded then old(exams)[id := Graded(old(exams)[id], AutoMarks(answers, bank, id, old(exams)[id], faults), now)]
                       else old(exams)
    {
      if SelectGrade(id) in faults { return false; }
      var correct, counted := GradeRows(answers, id, bank, faults);
      var total: int := counted;
      if total == 0 {
        if SelectTotal(id) !in faults { total := exams[id].total; }
      }
      var score := AutoScore(correct, total);
      if UpdateGrade(id) in faults { return false; }
      if exams[id].grade.None? {
        exams := exams[id := exams[id].(total := total, grade := Some(Grade(now, correct, score)))];
        graded := true;
      }
    }

    // ---------- reading ----------

    method GetTimerStatus(exam: int, now: nat, faults: Faults) returns (r: Option<TimerStatus>)
      ensures r == Timer(Abs(), exam, now, faults)
      ensures r.Some? <==> OpenDb !in faults && SelectTimer !in faults && exam > 0 && exam in exams && exams[exam].room in rooms
      ensures r.Some? ==>
                && r.value.startedAt == exams[exam].startAt && r.value.serverTime == now
                && (0 <= rooms[exams[exam].room].duration < 0x8000_0000 ==> r.value.duration == rooms[exams[exam].room].duration)
    {
      if OpenDb in faults || exam <= 0 || SelectTimer in faults { return None; }
      if exam !in exams || exams[exam].room !in rooms { return None; }
      var startedAt := exams[exam].startAt;
      var duration := rooms[exams[exam].room].duration % TWO_32;
      var elapsed := if now > startedAt then now - startedAt else 0;
      return Some(TimerStatus(startedAt, duration, ToInt32(duration) - ToInt32(elapsed), now));
    }

    method GetRoomResults(room: int, users: set<int>, faults: Faults) returns (r: Option<RoomResult>)
      requires Valid()
      ensures r.None? <==> OpenDb in faults || SelectResults in faults
      ensures r.Some? ==> IsRoomResult(Abs(), room, users, faults, r.value)
      ensures r.Some? ==> FiguresOf(exams, ResultIds(exams, room, users, faults), Sum(Abs(), r.value.rows), r.value)
    {
      if OpenDb in faults || SelectResults in faults { return None; }
      var rows := ResultRows(Abs(), room, users, faults);
      assert forall id :: id in Submitted(Abs(), room, users, faults) ==> ValidExam(exams[id]);
      var result := Summarise(Abs(), room, users, faults, rows);
      FiguresAreOfTheExams(Abs(), room, users, faults, result);
      return Some(result);
    }
  }

  /** get_exam_paper before BEGIN IMMEDIATE has succeeded: nothing but the exams row may have been written. */
  lemma PaperRefused(s: Db, bank: Bank, c: Call, faults: Faults, s': Db)
    requires c.GetPaper? && s' == if MayAsk(s, c.room, c.user, faults) then EnsuredExam(s, c, faults).0 else s
    requires !MayAsk(s, c.room, c.user, faults) || Begin in faults || s.open || EnsuredExam(s, c, faults).1.None?
    ensures !PaperSucceeds(s, bank, c, faults) && !Throws(s, bank, c, faults) && Plausible(s, bank, Event(c, faults))
    ensures AfterGetPaper(s, bank, c, faults) == s'
  {
  }

  /** ... and once it has. */
  lemma PaperOpened(s: Db, bank: Bank, c: Call, faults: Faults, s1: Db, id: int)
    requires c.GetPaper? && MayAsk(s, c.room, c.user, faults)
    requires (s1, Some(id)) == EnsuredExam(s, c, faults) && Begin !in faults && !s.open
    ensures Opening(s, bank, c, faults) == (s1, if LoadPaper !in faults && OnPaper(s1, bank, id) != {} then None else Some(id))
    ensures Throws(s, bank, c, faults) == TransactionThrows(s1, bank, c, faults, id)
  {
  }

  lemma PaperTried(s: Db, bank: Bank, c: Call, faults: Faults, s1: Db, id: int, s': Db, issued: bool, threw: bool)
    requires c.GetPaper? && MayAsk(s, c.room, c.user, faults) && id in s1.exams && !s.open && !s1.open
    requires Opening(s, bank, c, faults) == (s1, if LoadPaper !in faults && OnPaper(s1, bank, id) != {} then None else Some(id))
    requires Throws(s, bank, c, faults) == TransactionThrows(s1, bank, c, faults, id)
    requires InTransactionDid(s1, bank, c, faults, s.rooms[c.room], id, s', issued, threw)
    ensures issued <==> PaperSucceeds(s, bank, c, faults)
    ensures threw <==> Throws(s, bank, c, faults)
    ensures issued ==> Opening(s, bank, c, faults).1 == Some(id)
    ensures Plausible(s, bank, Event(c, faults))
    ensures s' == AfterGetPaper(s, bank, c, faults)
  {
    GetPaperEffect(s, bank, c, faults);
  }

  ghost predicate TransactionThrows(s: Db, bank: Bank, c: Call, faults: Faults, id: int)
    requires c.GetPaper?
  {
    if LoadPaper !in faults && OnPaper(s, bank, id) != {} then Unreadable(bank, OnPaper(s, bank, id)) else c.thrown
  }

  lemma IssuedAsAsked(s: Db, bank: Bank, c: Call, faults: Faults)
    requires Inv(s) && c.GetPaper? && PaperSucceeds(s, bank, c, faults) && Plausible(s, bank, Event(c, faults))
    ensures var s' := AfterGetPaper(s, bank, c, faults);
            && s'.rooms == s.rooms && s'.participants == s.participants
            && c.room in s.rooms && s.rooms[c.room].status == InProgress && (c.room, c.user) in s.participants
            && IsExamOf(s', Opening(s, bank, c, faults).1.value, c.room, c.user)
            && (UpdateTotal !in faults ==> s'.exams[Opening(s, bank, c, faults).1.value].total == |c.drawn|)
            && (faults == {} ==> AsAsked(bank, s.rooms[c.room].settings, c.drawn))
  {
    OpeningEffect(s, bank, c, faults);
    GetPaperEffect(s, bank, c, faults);
    if faults == {} { PickedAsAsked(bank, s.rooms[c.room].settings, c.drawn); }
  }

  ghost function EnsuredExam(s: Db, c: Call, faults: Faults): (Db, Option<int>)
    requires c.GetPaper? && MayAsk(s, c.room, c.user, faults)
  {
    EnsureExam(s, c.room, c.user, c.now, c.now + s.rooms[c.room].duration, faults)
  }

  /** What the transaction did: nothing, unless a paper was picked, saved, and committed, or it was left open. */
  ghost predicate InTransactionDid(s: Db, bank: Bank, c: Call, faults: Faults, row: Room, id: int, s': Db, issued: bool, threw: bool)
    requires c.GetPaper? && id in s.exams
  {
    && (threw <==> TransactionThrows(s, bank, c, faults, id))
    && (LoadPaper !in faults && OnPaper(s, bank, id) != {} ==> !issued)
    && (LoadPaper in faults || OnPaper(s, bank, id) == {} ==>
          && (if c.thrown then MayThrow(bank, Effective(row.settings), faults)
              else && MayPick(bank, Effective(row.settings), faults)
                   && ValidPick(bank, Effective(row.settings), faults, c.drawn) && !Unreadable(bank, Ids(c.drawn)))
          && (issued <==> !c.thrown && c.drawn != [] && SaveSucceeds(s.papers, id, c.drawn, faults) && Commit !in faults))
    && s' == if issued then s.(papers := WithPaper(s.papers, id, c.drawn),
                               exams := s.exams[id := WithTotal(s.exams[id], faults, |c.drawn|)])
             else s.(open := threw)
  }

  ghost predicate Sorted(papers: map<(int, int), int>, exam: int, rows: seq<int>) {
    forall i, j :: 0 <= i < j < |rows| ==> Order(papers, exam, rows[i]) <= Order(papers, exam, rows[j])
  }

  /** ORDER BY eq.question_order; ties come in any order. */
  method OrderBy(all: set<int>, exam: int, papers: map<(int, int), int>) returns (rows: seq<int>)
    ensures Distinct(rows) && Ids(rows) == all && Sorted(papers, exam, rows)
  {
    rows := [];
    var left := all;
    while left != {}
      invariant ListedSoFar(papers, exam, all, rows, left)
      decreases |left|
    {
      Least(left, exam, papers);
      var q :| q in left && forall p :: p in left ==> Order(papers, exam, q) <= Order(papers, exam, p);
      ListedOneMore(papers, exam, all, rows, left, q);
      rows := rows + [q];
      left := left - {q};
    }
  }

  /** rows are listed in order, left comes later. */
  ghost predicate ListedSoFar(papers: map<(int, int), int>, exam: int, all: set<int>, rows: seq<int>, left: set<int>) {
    && Distinct(rows) && Sorted(papers, exam, rows)
    && Ids(rows) + left == all && Ids(rows) !! left
    && forall i, q :: 0 <= i < |rows| && q in left ==> Order(papers, exam, rows[i]) <= Order(papers, exam, q)
  }

  lemma ListedOneMore(papers: map<(int, int), int>, exam: int, all: set<int>, rows: seq<int>, left: set<int>, q: int)
    requires ListedSoFar(papers, exam, all, rows, left)
    requires q in left && forall p :: p in left ==> Order(papers, exam, q) <= Order(papers, exam, p)
    ensures ListedSoFar(papers, exam, all, rows + [q], left - {q})
  {
    assert q !in Ids(rows);
    assert Ids(rows + [q]) == Ids(rows) + {q};
  }

  lemma {:induction false} Least(s: set<int>, exam: int, papers: map<(int, int), int>)
    requires s != {}
    ensures exists q :: q in s && forall p :: p in s ==> Order(papers, exam, q) <= Order(papers, exam, p)
    decreases |s|
  {
    Inhabited(s);
    var q :| q in s;
    var rest := s - {q};
    assert forall p :: p in s <==> p == q || p in rest;
    if rest != {} {
      Least(rest, exam, papers);
      var m :| m in rest && forall p :: p in rest ==> Order(papers, exam, m) <= Order(papers, exam, p);
      var least := if Order(papers, exam, q) <= Order(papers, exam, m) then q else m;
      assert least in s && forall p :: p in s ==> Order(papers, exam, least) <= Order(papers, exam, p);
    } else {
      assert q in s && forall p :: p in s ==> p == q;
    }
  }

  lemma {:induction false} InWithPaper(papers: map<(int, int), int>, exam: int, qs: seq<int>, k: (int, int))
    ensures k in WithPaper(papers, exam, qs) <==> k in papers || (k.0 == exam && k.1 in qs)
    ensures k.0 != exam || k.1 !in qs ==> k in papers ==> WithPaper(papers, exam, qs)[k] == papers[k]
  {
    if qs != [] {
      var n := |qs| - 1;
      InWithPaper(papers, exam, qs[..n], k);
      assert qs == qs[..n] + [qs[n]];
    }
  }

  /** Those exams whose statements work. */
  function Working(expired: set<int>, faults: Faults): set<int> {
    set id | id in expired && SelectGrade(id) !in faults && UpdateGrade(id) !in faults
  }

  /** The exams when those in graded have been graded, and the others not yet. */
  ghost predicate SweptPart(before: map<int, Exam>, answers: map<(int, int), string>, bank: Bank,
                            exams: map<int, Exam>, graded: set<int>, now: nat, faults: Faults) {
    && (forall id :: id in exams <==> id in before)
    && (forall id :: id in exams ==>
          exams[id] == if id in graded then Graded(before[id], AutoMarks(answers, bank, id, before[id], faults), now) else before[id])
  }

  function ExpiredIds(exams: map<int, Exam>, now: nat, faults: Faults): set<int> {
    set id | id in exams && exams[id].endAt < now && exams[id].grade.None? && ExpiredRow(id) !in faults
  }

  /** ... and count of them have been, after trying those in done. */
  ghost predicate SweptSoFar(before: map<int, Exam>, answers: map<(int, int), string>, bank: Bank, exams: map<int, Exam>,
                             expired: set<int>, done: set<int>, count: nat, now: nat, faults: Faults) {
    && SweptPart(before, answers, bank, exams, done * Working(expired, faults), now, faults)
    && count == |done * Working(expired, faults)|
  }

  lemma SweepOneMore(before: map<int, Exam>, answers: map<(int, int), string>, bank: Bank, exams: map<int, Exam>,
                     expired: set<int>, done: set<int>, id: int, count: nat, now: nat, faults: Faults)
    requires SweptSoFar(before, answers, bank, exams, expired, done, count, now, faults)
    requires id in exams && id in expired && id !in done
    ensures exams[id] == before[id]
    ensures if SelectGrade(id) !in faults && UpdateGrade(id) !in faults
            then SweptSoFar(before, answers, bank, exams[id := Graded(exams[id], AutoMarks(answers, bank, id, exams[id], faults), now)],
                            expired, done + {id}, count + 1, now, faults)
            else SweptSoFar(before, answers, bank, exams, expired, done + {id}, count, now, faults)
  {
    DoneOneMore(expired, done, id, faults);
  }

  lemma DoneOneMore(expired: set<int>, done: set<int>, id: int, faults: Faults)
    requires id in expired && id !in done
    ensures var w := Working(expired, faults);
            && (done + {id}) * w == (if id in w then done * w + {id} else done * w)
            && |(done + {id}) * w| == |done * w| + (if id in w then 1 else 0)
  {
    var w := Working(expired, faults);
    assert (done + {id}) * w == if id in w then done * w + {id} else done * w;
  }

  lemma PaperStep(s: Db, bank: Bank, c: Call, faults: Faults)
    requires Inv(s) && c.GetPaper?
    ensures Inv(AfterGetPaper(s, bank, c, faults))
    ensures AfterGetPaper(s, bank, c, faults) == Next(s, bank, Event(c, faults))
  {
    PaperStepKeepsInv(s, bank, Event(c, faults));
  }

  lemma PracticeStep(s: Db, bank: Bank, c: Call, faults: Faults)
    requires Inv(s) && c.SubmitPractice?
    ensures Inv(AfterPractice(s, bank, c, faults))
    ensures AfterPractice(s, bank, c, faults) == Next(s, bank, Event(c, faults))
  {
    NextKeepsInv(s, bank, Event(c, faults));
  }

  lemma SubmitStepKeepsInv(s: Db, bank: Bank, c: Call, faults: Faults)
    requires Inv(s) && c.SubmitExam?
    ensures Inv(AfterSubmit(s, bank, c, faults))
    ensures AfterSubmit(s, bank, c, faults) == Next(s, bank, Event(c, faults))
  {
    SubmitOnlyRegrades(s, bank, c, faults);
    RegradeKeepsInv(s, AfterSubmit(s, bank, c, faults));
  }

  /** An expired open exam, and its row when the sweep has graded it from its answers. */
  predicate SweptTo(answers: map<(int, int), string>, bank: Bank, id: int, x: Exam, y: Exam, now: nat, faults: Faults) {
    && x.endAt < now && x.grade.None? && y.grade.Some? && y.grade.value.submittedAt == now
    && y == x.(total := y.total, grade := y.grade)
    && OverTen(answers, bank, id, faults, y.grade.value.correct, y.total, y.grade.value.score,
               if SelectTotal(id) in faults then 0 else x.total)
  }

  lemma SweepIsOverTen(s: Db, bank: Bank, now: nat, faults: Faults)
    ensures var exams := AfterAutoSubmit(s, bank, now, faults).exams;
            forall id :: id in exams ==>
              id in s.exams && (exams[id] == s.exams[id] || SweptTo(s.answers, bank, id, s.exams[id], exams[id], now, faults))
  {
    var exams := AfterAutoSubmit(s, bank, now, faults).exams;
    forall id | id in exams
      ensures id in s.exams && (exams[id] == s.exams[id] || SweptTo(s.answers, bank, id, s.exams[id], exams[id], now, faults)) {
      if id in Swept(s, now, faults) { GradedIsOverTen(s, bank, id, now, faults); }
    }
  }

  lemma GradedIsOverTen(s: Db, bank: Bank, id: int, now: nat, faults: Faults)
    requires id in s.exams && s.exams[id].endAt < now && s.exams[id].grade.None?
    ensures SweptTo(s.answers, bank, id, s.exams[id], Graded(s.exams[id], AutoMarks(s.answers, bank, id, s.exams[id], faults), now), now, faults)
  {
    MarksAreOverTen(s.answers, bank, id, faults, if SelectTotal(id) in faults then 0 else s.exams[id].total);
  }

  lemma SweepStep(s: Db, bank: Bank, now: nat, faults: Faults)
    ensures AfterAutoSubmit(s, bank, now, faults) == Next(s, bank, Event(AutoSubmit(now), faults))
  {
  }

  lemma SweepStepKeepsInv(s: Db, bank: Bank, now: nat, faults: Faults)
    requires Inv(s)
    ensures Inv(AfterAutoSubmit(s, bank, now, faults))
    ensures AfterAutoSubmit(s, bank, now, faults) == Next(s, bank, Event(AutoSubmit(now), faults))
  {
    SweepStep(s, bank, now, faults);
    AutoSubmitOnlyRegrades(s, bank, now, faults);
    RegradeKeepsInv(s, AfterAutoSubmit(s, bank, now, faults));
  }

  lemma SweptOnly(s: Db, bank: Bank, now: nat, faults: Faults, exams: map<int, Exam>)
    requires SweepRuns(faults)
    requires SweptPart(s.exams, s.answers, bank, exams, Working(ExpiredIds(s.exams, now, faults), faults), now, faults)
    ensures Working(ExpiredIds(s.exams, now, faults), faults) == Swept(s, now, faults)
    ensures s.(exams := exams) == AfterAutoSubmit(s, bank, now, faults)
  {
    assert Working(ExpiredIds(s.exams, now, faults), faults) == Swept(s, now, faults);
    var after := AfterAutoSubmit(s, bank, now, faults).exams;
    assert forall id :: id in exams <==> id in after;
    assert forall id :: id in exams ==> exams[id] == after[id];
  }

  /** auto_submit divides before it multiplies; over the reals that is the same score. */
  method AutoScore(correct: nat, total: int) returns (score: real)
    ensures score == Score(correct, total)
  {
    score := if total > 0 then (correct as real / total as real) * 10.0 else 0.0;
  }
}
