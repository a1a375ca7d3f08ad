/** The tables of data/schema.sql that the exam logic reads and writes, and the places where SQLite may fail. */
module RoomSchema {
  import opened Wrappers

  datatype Difficulty = Easy | Medium | Hard

  /** readable: whether options_json parses; where it does not, the parser throws. */
  datatype Question = Question(difficulty: Difficulty, answer: string, readable: bool)

  /** The questions table; the server never writes it. */
  type Bank = map<int, Question>

  /** total_questions and the three difficulty counts. */
  datatype Settings = Settings(total: int, easy: int, medium: int, hard: int)

  datatype Status = Waiting | InProgress | Finished

  /** code is the pair that the text "ROOM-<time>-<creator>" is made of. */
  datatype Room = Room(
    code: (nat, int),
    duration: int,
    settings: Settings,
    status: Status,
    pass: string,
    creator: int,
    startedAt: Option<nat>)

  /** The columns submitted_at, correct_count and score: all NULL, or all set. */
  datatype Grade = Grade(submittedAt: nat, correct: nat, score: real)

  datatype Exam = Exam(room: int, user: int, startAt: int, endAt: int, total: int, grade: Option<Grade>)

  datatype Practice = Practice(user: int, endAt: int, correct: Option<nat>, score: Option<real>)

  /**
   participants and exams are unique per (room, user), papers (exam_questions, giving
   question_order) and answers (giving selected_option) per (exam, question). open: a call has
   thrown out of its transaction, and the one connection to the database is still inside it.
   */
  datatype Db = Db(
    rooms: map<int, Room>,
    participants: set<(int, int)>,
    exams: map<int, Exam>,
    papers: map<(int, int), int>,
    answers: map<(int, int), string>,
    practices: map<int, Practice>,
    nextRoom: int,
    nextExam: int,
    open: bool)

  /** The SELECTs of pick_questions: one per tier, and the one for missing questions. */
  datatype Scan = TierScan(d: Difficulty) | TopUpScan

  /**
   What may fail in a call. A statement that fails by its name alone delivers no rows and changes
   nothing. The code does not tell a scan that breaks from one that ends, so rows are listed too:
   FetchRow(scan, i) breaks the scan at its i-th row; CorrectRow, GradeRow, ExpiredRow and
   ResultRow are rows behind the point where their scan broke, which may be any.
   */
  datatype Stmt =
    | OpenDb
    | InsertRoom | SelectRoom | UpdateRoom | DeleteRoom
    | InsertParticipant | SelectParticipant
    | PrepareFindExam | FindExamRow | InsertExam
    | Begin | LoadPaper | Fetch(scan: Scan) | FetchRow(scan: Scan, i: nat)
    | PrepareSave | SaveRow(i: nat) | UpdateTotal | Commit
    | PrepareAnswers | SaveAnswer(i: nat)
    | CheckExam | FindExpired | ExpiredRow(exam: int)
    | SelectGrade(exam: int) | GradeRow(exam: int, question: int) | SelectTotal(exam: int) | UpdateGrade(exam: int)
    | SelectCorrect(i: nat) | CorrectRow(i: nat) | UpdatePractice
    | SelectTimer | SelectResults | ResultRow(exam: int)

  type Faults = set<Stmt>
}
