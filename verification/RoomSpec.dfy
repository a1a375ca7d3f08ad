/**
 What one call to the room manager does to the tables. Every public method of
 server/src/room.cpp holds one mutex from start to end, so a call is one step.
 */
module RoomSpec {
  import opened Wrappers
  import opened RoomSchema
  import opened QuestionPicker
  import opened Grading

  datatype Call =
    | CreateRoom(creator: int, pass: string, duration: int, settings: Settings, time: nat)
    | JoinRoom(room: int, user: int, pass: string)
    | StartRoom(room: int, user: int, now: nat)
    | FinishRoom(room: int, user: int)
    | DropRoom(room: int, user: int)
    | GetPaper(room: int, user: int, now: nat, drawn: seq<int>, thrown: bool)  // what pick_questions returns if asked, or that it throws
    | SubmitAnswers(exam: int, list: Choices)
    | SubmitExam(exam: int, list: Choices, now: nat)
    | SubmitPractice(practice: int, user: int, list: Choices, now: nat)
    | AutoSubmit(now: nat)

  /** A call, and the statements that fail while it runs. */
  datatype Event = Event(call: Call, faults: Faults)

  // ---------- room lifecycle ----------

  ghost predicate CodeTaken(s: Db, code: (nat, int)) {
    exists r :: r in s.rooms && s.rooms[r].code == code
  }

  ghost predicate CreateSucceeds(s: Db, c: Call, faults: Faults)
    requires c.CreateRoom?
  {
    OpenDb !in faults && InsertRoom !in faults && !CodeTaken(s, (c.time, c.creator))
  }

  function NewRoom(c: Call): Room
    requires c.CreateRoom?
  {
    Room((c.time, c.creator), c.duration, c.settings, Waiting, c.pass, c.creator, None)
  }

  predicate JoinSucceeds(s: Db, c: Call, faults: Faults)
    requires c.JoinRoom?
  {
    && OpenDb !in faults && SelectRoom !in faults && InsertParticipant !in faults
    && c.room in s.rooms && s.rooms[c.room].status != Finished && s.rooms[c.room].pass == c.pass
  }

  predicate StartSucceeds(s: Db, c: Call, faults: Faults)
    requires c.StartRoom?
  {
    && OpenDb !in faults && UpdateRoom !in faults
    && c.room in s.rooms && s.rooms[c.room].creator == c.user && s.rooms[c.room].status == Waiting
  }

  predicate FinishSucceeds(s: Db, c: Call, faults: Faults)
    requires c.FinishRoom?
  {
    && OpenDb !in faults && SelectRoom !in faults && UpdateRoom !in faults
    && c.room in s.rooms && s.rooms[c.room].creator == c.user && s.rooms[c.room].status == InProgress
  }

  predicate DropSucceeds(s: Db, c: Call, faults: Faults)
    requires c.DropRoom?
  {
    && OpenDb !in faults && SelectRoom !in faults && DeleteRoom !in faults
    && c.room in s.rooms && s.rooms[c.room].creator == c.user && s.rooms[c.room].status != InProgress
  }

  function Removed(rooms: map<int, Room>, room: int): map<int, Room> {
    map r | r in rooms && r != room :: rooms[r]
  }

  // ---------- papers ----------

  predicate IsExamOf(s: Db, id: int, room: int, user: int) {
    id in s.exams && s.exams[id].room == room && s.exams[id].user == user
  }

  ghost predicate HasExam(s: Db, room: int, user: int) {
    exists id :: IsExamOf(s, id, room, user)
  }

  ghost function ExamId(s: Db, room: int, user: int): (id: int)
    requires HasExam(s, room, user)
    ensures IsExamOf(s, id, room, user)
  {
    var id :| IsExamOf(s, id, room, user); id
  }

  /** ensure_exam: runs outside the transaction, and keeps the stored times of an exam that exists. */
  ghost function EnsureExam(s: Db, room: int, user: int, start: int, end: int, faults: Faults): (r: (Db, Option<int>))
    ensures r.1.Some? ==> r.1.value in r.0.exams
  {
    if PrepareFindExam in faults then (s, None)
    else if HasExam(s, room, user) && FindExamRow !in faults then (s, Some(ExamId(s, room, user)))
    else if InsertExam in faults || HasExam(s, room, user) then (s, None)
    else (s.(exams := s.exams[s.nextExam := Exam(room, user, start, end, 0, None)], nextExam := s.nextExam + 1),
          Some(s.nextExam))
  }

  predicate MayAsk(s: Db, room: int, user: int, faults: Faults) {
    && OpenDb !in faults && SelectRoom !in faults && SelectParticipant !in faults
    && room in s.rooms && s.rooms[room].status == InProgress
    && (room, user) in s.participants
  }

  /** The question ids load_exam_questions finds when its SELECT works. */
  function OnPaper(s: Db, bank: Bank, exam: int): set<int> {
    set q | q in bank && (exam, q) in s.papers
  }

  /** The tables and the exam when picking starts; no exam when the call has ended before. */
  ghost function Opening(s: Db, bank: Bank, c: Call, faults: Faults): (r: (Db, Option<int>))
    requires c.GetPaper?
    ensures r.1.Some? ==> r.1.value in r.0.exams && MayAsk(s, c.room, c.user, faults)
  {
    if !MayAsk(s, c.room, c.user, faults) then (s, None)
    else
      var (s1, id) := EnsureExam(s, c.room, c.user, c.now, c.now + s.rooms[c.room].duration, faults);
      if id.None? || Begin in faults || s.open then (s1, None)
      else if LoadPaper !in faults && OnPaper(s1, bank, id.value) != {} then (s1, None)
      else (s1, id)
  }

  /** save_exam_questions: one row per question, numbered from 1. */
  function WithPaper(papers: map<(int, int), int>, exam: int, qs: seq<int>): map<(int, int), int> {
    if qs == [] then papers
    else WithPaper(papers, exam, qs[..|qs| - 1])[(exam, qs[|qs| - 1]) := |qs|]
  }

  predicate SaveSucceeds(papers: map<(int, int), int>, exam: int, qs: seq<int>, faults: Faults) {
    && PrepareSave !in faults
    && forall i :: 0 <= i < |qs| ==> SaveRow(i) !in faults && (exam, qs[i]) !in papers
  }

  ghost predicate PaperSucceeds(s: Db, bank: Bank, c: Call, faults: Faults)
    requires c.GetPaper?
  {
    var (s1, id) := Opening(s, bank, c, faults);
    id.Some? && !c.thrown && c.drawn != [] && SaveSucceeds(s1.papers, id.value, c.drawn, faults) && Commit !in faults
  }

  ghost function AfterGetPaper(s: Db, bank: Bank, c: Call, faults: Faults): Db
    requires c.GetPaper?
  {
    var (s1, id) := Opening(s, bank, c, faults);
    if PaperSucceeds(s, bank, c, faults) then
      s1.(papers := WithPaper(s1.papers, id.value, c.drawn),
          exams := if UpdateTotal in faults then s1.exams
                   else s1.exams[id.value := s1.exams[id.value].(total := |c.drawn|)])
    else s1.(open := s.open || Throws(s, bank, c, faults))
  }

  /** An exception leaves get_exam_paper after BEGIN IMMEDIATE: while loading the paper there is, or while picking one. */
  ghost predicate Throws(s: Db, bank: Bank, c: Call, faults: Faults)
    requires c.GetPaper?
  {
    && MayAsk(s, c.room, c.user, faults) && Begin !in faults && !s.open
    && var (s1, id) := EnsureExam(s, c.room, c.user, c.now, c.now + s.rooms[c.room].duration, faults);
    && id.Some?
    && if LoadPaper !in faults && OnPaper(s1, bank, id.value) != {} then Unreadable(bank, OnPaper(s1, bank, id.value)) else c.thrown
  }

  // ---------- answers and grades ----------

  /** How many answers are written before the first failing statement, from position i on. */
  function SavedFrom(n: nat, faults: Faults, i: nat): (k: nat)
    requires i <= n
    ensures i <= k <= n
    ensures forall j :: i <= j < k ==> SaveAnswer(j) !in faults
    ensures k < n ==> SaveAnswer(k) in faults
    decreases n - i
  {
    if i == n || SaveAnswer(i) in faults then i else SavedFrom(n, faults, i + 1)
  }

  /** The part of a list that submit_answers manages to save. */
  function Saved(list: Choices, faults: Faults): Choices {
    if OpenDb in faults || PrepareAnswers in faults then [] else list[..SavedFrom(|list|, faults, 0)]
  }

  predicate AnswersSucceed(list: Choices, faults: Faults) {
    OpenDb !in faults && PrepareAnswers !in faults && SavedFrom(|list|, faults, 0) == |list|
  }

  function AfterAnswers(s: Db, exam: int, list: Choices, faults: Faults): Db {
    s.(answers := Upsert(s.answers, exam, Saved(list, faults)))
  }

  /** submit_exam gets past its check: the exam exists and has no submitted_at. */
  predicate Admitted(s: Db, exam: int, faults: Faults) {
    OpenDb !in faults && CheckExam !in faults && exam in s.exams && s.exams[exam].grade.None?
  }

  predicate SubmitSucceeds(s: Db, c: Call, faults: Faults)
    requires c.SubmitExam?
  {
    && Admitted(s, c.exam, faults)
    && AnswersSucceed(c.list, faults)
    && SelectGrade(c.exam) !in faults && UpdateGrade(c.exam) !in faults
  }

  function Graded(x: Exam, marks: (nat, int, real), now: nat): Exam {
    x.(total := marks.1, grade := Some(Grade(now, marks.0, marks.2)))
  }

  function SubmitMarks(s: Db, bank: Bank, c: Call, faults: Faults): (nat, int, real)
    requires c.SubmitExam?
  {
    Marks(Delivered(SheetOf(Upsert(s.answers, c.exam, c.list), c.exam), c.exam, faults), bank, |c.list|)
  }

  function AfterSubmit(s: Db, bank: Bank, c: Call, faults: Faults): Db
    requires c.SubmitExam?
  {
    if !Admitted(s, c.exam, faults) then s
    else
      var s1 := AfterAnswers(s, c.exam, c.list, faults);
      if SubmitSucceeds(s, c, faults)
      then s1.(exams := s1.exams[c.exam := Graded(s.exams[c.exam], SubmitMarks(s, bank, c, faults), c.now)])
      else s1
  }

  predicate PracticeSucceeds(c: Call, faults: Faults)
    requires c.SubmitPractice?
  {
    && OpenDb !in faults && UpdatePractice !in faults
    && forall i :: 0 <= i < |c.list| ==> SelectCorrect(i) !in faults
  }

  function AfterPractice(s: Db, bank: Bank, c: Call, faults: Faults): Db
    requires c.SubmitPractice?
  {
    if PracticeSucceeds(c, faults) && c.practice in s.practices && s.practices[c.practice].user == c.user then
      var right := PracticeRight(c.list, bank, faults);
      s.(practices := s.practices[c.practice := Practice(c.user, c.now, Some(right), Some(Score(right, |c.list|)))])
    else s
  }

  predicate Expired(x: Exam, now: nat) {
    x.endAt < now && x.grade.None?
  }

  /** The exams an auto-submit grades: expired, and not skipped for a failing statement. */
  function Swept(s: Db, now: nat, faults: Faults): set<int> {
    set id | id in s.exams && Expired(s.exams[id], now) && ExpiredRow(id) !in faults && SelectGrade(id) !in faults && UpdateGrade(id) !in faults
  }

  function AutoMarks(answers: map<(int, int), string>, bank: Bank, id: int, x: Exam, faults: Faults): (nat, int, real) {
    Marks(Delivered(SheetOf(answers, id), id, faults), bank, if SelectTotal(id) in faults then 0 else x.total)
  }

  predicate SweepRuns(faults: Faults) {
    OpenDb !in faults && FindExpired !in faults
  }

  function AfterAutoSubmit(s: Db, bank: Bank, now: nat, faults: Faults): Db {
    if !SweepRuns(faults) then s
    else
      s.(exams := map id | id in s.exams ::
                    if id in Swept(s, now, faults) then Graded(s.exams[id], AutoMarks(s.answers, bank, id, s.exams[id], faults), now)
                    else s.exams[id])
  }

  // ---------- all calls ----------

  ghost function Next(s: Db, bank: Bank, e: Event): Db {
    match e.call
    case CreateRoom(_, _, _, _, _) =>
      if CreateSucceeds(s, e.call, e.faults)
      then s.(rooms := s.rooms[s.nextRoom := NewRoom(e.call)], nextRoom := s.nextRoom + 1) else s
    case JoinRoom(room, user, _) =>
      if JoinSucceeds(s, e.call, e.faults) then s.(participants := s.participants + {(room, user)}) else s
    case StartRoom(room, _, now) =>
      if StartSucceeds(s, e.call, e.faults)
      then s.(rooms := s.rooms[room := s.rooms[room].(status := InProgress, startedAt := Some(now))]) else s
    case FinishRoom(room, _) =>
      if FinishSucceeds(s, e.call, e.faults) then s.(rooms := s.rooms[room := s.rooms[room].(status := Finished)]) else s
    case DropRoom(room, _) =>
      if DropSucceeds(s, e.call, e.faults) then s.(rooms := Removed(s.rooms, room)) else s
    case GetPaper(_, _, _, _, _) => AfterGetPaper(s, bank, e.call, e.faults)
    case SubmitAnswers(exam, list) => AfterAnswers(s, exam, list, e.faults)
    case SubmitExam(_, _, _) => AfterSubmit(s, bank, e.call, e.faults)
    case SubmitPractice(_, _, _, _) => AfterPractice(s, bank, e.call, e.faults)
    case AutoSubmit(now) => AfterAutoSubmit(s, bank, now, e.faults)
  }

  /** The draw in the event is one pick_questions may have made, whenever it was asked: a list if it can return one, an exception if it can throw. */
  ghost predicate Plausible(s: Db, bank: Bank, e: Event) {
    e.call.GetPaper? && Opening(s, bank, e.call, e.faults).1.Some? ==>
      var settings := Effective(s.rooms[e.call.room].settings);
      if e.call.thrown then MayThrow(bank, settings, e.faults)
      else
        && MayPick(bank, settings, e.faults)
        && ValidPick(bank, settings, e.faults, e.call.drawn)
        && !Unreadable(bank, Ids(e.call.drawn))
  }

  // ---------- what always holds ----------

  ghost predicate UniqueExams(s: Db) {
    forall i, j, room, user :: IsExamOf(s, i, room, user) && IsExamOf(s, j, room, user) ==> i == j
  }

  predicate ValidExam(x: Exam) {
    && x.total >= 0
    && (x.grade.Some? ==> 0.0 <= x.grade.value.score <= 10.0)
  }

  /**
   One exam per student and room, ids below the counters, scores on the scale, and every
   exam whose room still exists ends one room duration after it starts.
   */
  ghost predicate Inv(s: Db) {
    && UniqueExams(s)
    && (forall r :: r in s.rooms ==> r < s.nextRoom)
    && (forall id :: id in s.exams ==> 0 < id < s.nextExam)
    && 0 < s.nextExam
    && (forall id :: id in s.exams ==> s.exams[id].room < s.nextRoom)
    && (forall id :: id in s.exams ==> ValidExam(s.exams[id]))
    && (forall id :: id in s.exams && s.exams[id].room in s.rooms ==>
          s.exams[id].endAt == s.exams[id].startAt + s.rooms[s.exams[id].room].duration)
  }
}
