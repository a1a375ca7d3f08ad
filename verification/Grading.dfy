/**
 Grades. A sheet is what one exam's rows of the answers table say: a chosen option per question.
 */
module Grading {
  import opened Wrappers
  import opened RoomSchema

  type Sheet = map<int, string>
  type Choices = seq<(int, string)>

  // ---------- writing answers ----------

  /** INSERT ... ON CONFLICT(exam_id, question_id) DO UPDATE, for each choice in turn. */
  function Upsert(answers: map<(int, int), string>, exam: int, list: Choices): map<(int, int), string> {
    if list == [] then answers
    else
      var last := list[|list| - 1];
      Upsert(answers, exam, list[..|list| - 1])[(exam, last.0) := last.1]
  }

  function SheetOf(answers: map<(int, int), string>, exam: int): Sheet {
    map q | q in (set k | k in answers && k.0 == exam :: k.1) :: answers[(exam, q)]
  }

  lemma InSheet(answers: map<(int, int), string>, exam: int, q: int)
    ensures q in SheetOf(answers, exam) <==> (exam, q) in answers
    ensures q in SheetOf(answers, exam) ==> SheetOf(answers, exam)[q] == answers[(exam, q)]
  {
    if (exam, q) in answers {
      assert (exam, q).1 in (set k | k in answers && k.0 == exam :: k.1);
    }
  }

  /** The option a list chooses last for a question. */
  function LastChoice(list: Choices, q: int): Option<string> {
    if list == [] then None
    else if list[|list| - 1].0 == q then Some(list[|list| - 1].1)
    else LastChoice(list[..|list| - 1], q)
  }

  lemma {:induction false} UpsertKeepsLast(answers: map<(int, int), string>, exam: int, list: Choices, k: (int, int))
    ensures var after := Upsert(answers, exam, list);
            if k.0 == exam && LastChoice(list, k.1).Some?
            then k in after && after[k] == LastChoice(list, k.1).value
            else (k in after <==> k in answers) && (k in after ==> after[k] == answers[k])
  {
    if list != [] { UpsertKeepsLast(answers, exam, list[..|list| - 1], k); }
  }

  lemma {:induction false} LastChoiceConcat(a: Choices, b: Choices, q: int)
    ensures LastChoice(a + b, q) == if LastChoice(b, q).Some? then LastChoice(b, q) else LastChoice(a, q)
  {
    if b == [] {
      assert a + b == a;
    } else {
      assert (a + b)[..|a| + |b| - 1] == a + b[..|b| - 1];
      LastChoiceConcat(a, b[..|b| - 1], q);
    }
  }

  lemma {:induction false} LastChoiceIsListed(list: Choices, q: int)
    ensures LastChoice(list, q).Some? <==> exists i :: 0 <= i < |list| && list[i].0 == q
    ensures LastChoice(list, q).Some? ==> exists i :: LastAt(list, q, i) && LastChoice(list, q).value == list[i].1
  {
    if list != [] {
      var n := |list| - 1;
      var front := list[..n];
      if list[n].0 == q {
        assert LastAt(list, q, n);
      } else {
        LastChoiceIsListed(front, q);
        if i :| LastAt(front, q, i) && LastChoice(front, q).Some? && LastChoice(front, q).value == front[i].1 {
          LastAtLonger(list, q, i);
        }
        if i :| 0 <= i < |list| && list[i].0 == q { assert front[i].0 == q; }
      }
    }
  }

  /** Position i is the last one of a list that is about question q. */
  predicate LastAt(list: Choices, q: int, i: int) {
    0 <= i < |list| && list[i].0 == q && forall j :: i < j < |list| ==> list[j].0 != q
  }

  lemma LastAtLonger(list: Choices, q: int, i: int)
    requires list != [] && list[|list| - 1].0 != q && LastAt(list[..|list| - 1], q, i)
    ensures LastAt(list, q, i)
  {
    forall j | i < j < |list| ensures list[j].0 != q {
      if j < |list| - 1 { assert list[..|list| - 1][j].0 != q; }
    }
  }

  /** Last choice wins: the sheet after a list is the sheet before it, overridden by the list's last choices. */
  ghost predicate Overrides(after: Sheet, before: Sheet, list: Choices) {
    forall q :: if LastChoice(list, q).Some? then q in after && after[q] == LastChoice(list, q).value
                else (q in after <==> q in before) && (q in after ==> after[q] == before[q])
  }

  lemma UpsertOverrides(answers: map<(int, int), string>, exam: int, list: Choices, other: int)
    ensures var after := Upsert(answers, exam, list);
            if other == exam then Overrides(SheetOf(after, exam), SheetOf(answers, exam), list)
            else SheetOf(after, other) == SheetOf(answers, other)
  {
    var after := Upsert(answers, exam, list);
    forall q ensures
        && ((other, q) in after <==> q in SheetOf(after, other))
        && (q in SheetOf(after, other) ==> SheetOf(after, other)[q] == after[(other, q)])
        && ((other, q) in answers <==> q in SheetOf(answers, other))
        && (q in SheetOf(answers, other) ==> SheetOf(answers, other)[q] == answers[(other, q)]) {
      InSheet(after, other, q);
      InSheet(answers, other, q);
    }
    forall q ensures var c := if other == exam then LastChoice(list, q) else None;
                     if c.Some? then (other, q) in after && after[(other, q)] == c.value
                     else ((other, q) in after <==> (other, q) in answers) &&
                          ((other, q) in after ==> after[(other, q)] == answers[(other, q)]) {
      UpsertKeepsLast(answers, exam, list, (other, q));
    }
  }

  lemma OverridesCompose(a: Sheet, b: Sheet, c: Sheet, xs: Choices, ys: Choices)
    requires Overrides(b, a, xs) && Overrides(c, b, ys)
    ensures Overrides(c, a, xs + ys)
  {
    forall q { LastChoiceConcat(xs, ys, q); }
  }

  lemma OverridesDetermines(before: Sheet, list: Choices, a: Sheet, b: Sheet)
    requires Overrides(a, before, list) && Overrides(b, before, list)
    ensures a == b
  {
    forall q ensures (q in a <==> q in b) && (q in a ==> a[q] == b[q]) {
      assert LastChoice(list, q).Some? || LastChoice(list, q).None?;
    }
  }

  // ---------- marks ----------

  /** The questions that count: answered, and in the bank. */
  function Counted(sheet: Sheet, bank: Bank): set<int> {
    set q | q in sheet && q in bank
  }

  function Right(sheet: Sheet, bank: Bank): set<int> {
    set q | q in sheet && q in bank && sheet[q] == bank[q].answer
  }

  function Score(correct: nat, total: int): real {
    if total > 0 then correct as real * 10.0 / total as real else 0.0
  }

  /** The part of a sheet that the grading SELECT delivers. */
  function Delivered(sheet: Sheet, exam: int, faults: Faults): Sheet {
    map q | q in sheet && GradeRow(exam, q) !in faults :: sheet[q]
  }

  /** A scan that breaks is graded as if the rest had not been answered: never more right, and all of it exactly when it did not break. */
  lemma BrokenScan(sheet: Sheet, exam: int, faults: Faults, bank: Bank)
    ensures Right(Delivered(sheet, exam, faults), bank) == set q | q in Right(sheet, bank) && GradeRow(exam, q) !in faults
    ensures |Right(Delivered(sheet, exam, faults), bank)| <= |Right(sheet, bank)|
    ensures Delivered(sheet, exam, faults) == sheet <==> forall q :: q in sheet ==> GradeRow(exam, q) !in faults
  {
    var part := Delivered(sheet, exam, faults);
    forall q ensures q in Right(part, bank) <==> q in Right(sheet, bank) && GradeRow(exam, q) !in faults {}
    SubsetSize(Right(part, bank), Right(sheet, bank));
    if forall q :: q in sheet ==> GradeRow(exam, q) !in faults {
      forall q | q in sheet ensures q in part && part[q] == sheet[q] {}
    }
  }

  /** correct, total and score of a sheet; total falls back when no answer counts. */
  function Marks(sheet: Sheet, bank: Bank, fallback: int): (nat, int, real) {
    var correct := |Right(sheet, bank)|;
    var total := if |Counted(sheet, bank)| == 0 then fallback else |Counted(sheet, bank)|;
    (correct, total, Score(correct, total))
  }

  /** The marks for the rows delivered are those for all of them: no counted row is lost, or it makes no difference. */
  predicate Survives(sheet: Sheet, exam: int, bank: Bank, faults: Faults, fallback: int, full: int) {
    var counted := Counted(sheet, bank);
    if counted == {} then fallback == full
    else
      || (forall q :: q in counted ==> GradeRow(exam, q) !in faults)
      || ((forall q :: q in counted ==> GradeRow(exam, q) in faults) && Right(sheet, bank) == {} && fallback == |counted|)
  }

  /**
   A broken scan leaves the marks as they should be exactly when it loses no counted row, or loses all of them
   where none is right and the fallback happens to be their number. Rows of questions not in the bank do not matter.
   */
  lemma MarksSurviveExactly(sheet: Sheet, exam: int, bank: Bank, faults: Faults, fallback: int, full: int)
    ensures Marks(Delivered(sheet, exam, faults), bank, fallback) == Marks(sheet, bank, full) <==>
              Survives(sheet, exam, bank, faults, fallback, full)
  {
    var part := Delivered(sheet, exam, faults);
    DeliveredCount(sheet, exam, bank, faults);
    SubsetSize(Right(sheet, bank), Counted(sheet, bank));
    SubsetSize(Right(part, bank), Counted(part, bank));
    if Counted(part, bank) == Counted(sheet, bank) { NothingLost(sheet, exam, bank, faults); }
  }

  /** Fewer questions count exactly when a counted row is lost, and none does when all are. */
  lemma DeliveredCount(sheet: Sheet, exam: int, bank: Bank, faults: Faults)
    ensures var counted, kept := Counted(sheet, bank), Counted(Delivered(sheet, exam, faults), bank);
            && |kept| <= |counted|
            && (kept == counted <==> |kept| == |counted|)
            && (kept == counted <==> forall q :: q in counted ==> GradeRow(exam, q) !in faults)
            && (|kept| == 0 <==> forall q :: q in counted ==> GradeRow(exam, q) in faults)
  {
    var counted, kept := Counted(sheet, bank), Counted(Delivered(sheet, exam, faults), bank);
    forall q ensures q in kept <==> q in counted && GradeRow(exam, q) !in faults {}
    SubsetSize(kept, counted);
    if |kept| == |counted| { assert counted - kept == {}; }
    if |kept| == 0 {
      forall q | q in counted ensures GradeRow(exam, q) in faults { assert q !in kept; }
    }
    if forall q :: q in counted ==> GradeRow(exam, q) in faults { assert kept == {}; }
  }

  lemma NothingLost(sheet: Sheet, exam: int, bank: Bank, faults: Faults)
    requires Counted(Delivered(sheet, exam, faults), bank) == Counted(sheet, bank)
    ensures Right(Delivered(sheet, exam, faults), bank) == Right(sheet, bank)
  {
    var part := Delivered(sheet, exam, faults);
    forall q ensures q in Right(part, bank) <==> q in Right(sheet, bank) {
      assert q in Counted(part, bank) <==> q in Counted(sheet, bank);
    }
  }

  /** SELECT ... FROM answers a JOIN questions q ... WHERE a.exam_id = ?, and the loop over its rows. */
  method GradeRows(answers: map<(int, int), string>, exam: int, bank: Bank, faults: Faults) returns (correct: nat, total: nat)
    ensures correct == |Right(Delivered(SheetOf(answers, exam), exam, faults), bank)|
    ensures total == |Counted(Delivered(SheetOf(answers, exam), exam, faults), bank)|
  {
    var sheet := Delivered(SheetOf(answers, exam), exam, faults);
    var rows := Counted(sheet, bank);
    correct, total := 0, 0;
    ghost var seen: set<int> := {};
    while rows != {}
      invariant SeenSoFar(sheet, bank, rows, seen, correct, total)
      decreases |rows|
    {
      Inhabited(rows);
      var q :| q in rows;
      SeeOneMore(sheet, bank, rows, seen, q, correct, total);
      rows := rows - {q};
      seen := seen + {q};
      if sheet[q] == bank[q].answer { correct := correct + 1; }
      total := total + 1;
    }
    AllSeen(sheet, bank, seen, correct, total);
  }

  /** correct and total after the loop has seen these rows, with those still to come. */
  ghost predicate SeenSoFar(sheet: Sheet, bank: Bank, rows: set<int>, seen: set<int>, correct: nat, total: nat) {
    && rows !! seen && rows + seen == Counted(sheet, bank)
    && total == |seen| && correct == |seen * Right(sheet, bank)|
  }

  lemma SeeOneMore(sheet: Sheet, bank: Bank, rows: set<int>, seen: set<int>, q: int, correct: nat, total: nat)
    requires SeenSoFar(sheet, bank, rows, seen, correct, total) && q in rows
    ensures q in sheet && q in bank
    ensures if sheet[q] == bank[q].answer then SeenSoFar(sheet, bank, rows - {q}, seen + {q}, correct + 1, total + 1)
            else SeenSoFar(sheet, bank, rows - {q}, seen + {q}, correct, total + 1)
  {
    var right := Right(sheet, bank);
    assert q in Counted(sheet, bank);
    assert q in right <==> sheet[q] == bank[q].answer;
    OneMoreElement(seen * right, (seen + {q}) * right, q, q in right);
    assert (rows - {q}) + (seen + {q}) == rows + seen;
  }

  lemma AllSeen(sheet: Sheet, bank: Bank, seen: set<int>, correct: nat, total: nat)
    requires SeenSoFar(sheet, bank, {}, seen, correct, total)
    ensures correct == |Right(sheet, bank)| && total == |Counted(sheet, bank)|
  {
    assert seen == Counted(sheet, bank) && seen * Right(sheet, bank) == Right(sheet, bank);
  }

  lemma ScoreRange(correct: nat, total: int)
    requires correct <= total || correct == 0
    ensures 0.0 <= Score(correct, total) <= 10.0
  {
    if total > 0 {
      var c, t := correct as real, total as real;
      assert c * 10.0 <= t * 10.0;
      Ratio(c * 10.0, t);
    }
  }

  /** The score is ten times the quotient. */
  lemma ScoreIsOverTen(correct: nat, total: int)
    ensures total > 0 ==> Score(correct, total) * total as real == 10.0 * correct as real
    ensures total <= 0 ==> Score(correct, total) == 0.0
  {
    if total > 0 {
      var x, t := correct as real * 10.0, total as real;
      assert (x / t) * t == x;
    }
  }

  /** How a practice run counts: the positions whose question is there, whose row is delivered, and whose option is right. */
  function RightPositions(list: Choices, bank: Bank, faults: Faults): set<int> {
    set i | 0 <= i < |list| && list[i].0 in bank && list[i].1 == bank[list[i].0].answer && CorrectRow(i) !in faults
  }

  lemma {:induction false} PracticeCountsPositions(list: Choices, bank: Bank, faults: Faults)
    ensures PracticeRight(list, bank, faults) == |RightPositions(list, bank, faults)|
  {
    if list != [] {
      var n := |list| - 1;
      var front := list[..n];
      PracticeCountsPositions(front, bank, faults);
      forall i ensures i in RightPositions(list, bank, faults) <==>
                         i in RightPositions(front, bank, faults) ||
                         (i == n && CorrectRow(n) !in faults && list[n].0 in bank && list[n].1 == bank[list[n].0].answer) {
        if 0 <= i < n { assert front[i] == list[i]; }
      }
      OneMoreElement(RightPositions(front, bank, faults), RightPositions(list, bank, faults), n,
                     CorrectRow(n) !in faults && list[n].0 in bank && list[n].1 == bank[list[n].0].answer);
    } else {
      assert RightPositions(list, bank, faults) == {};
    }
  }

  lemma Ratio(x: real, t: real)
    requires t > 0.0 && 0.0 <= x <= t * 10.0
    ensures 0.0 <= x / t <= 10.0
  {
    var y := x / t;
    assert y * t == x;
    assert y < 0.0 ==> y * t < 0.0;
    assert y > 10.0 ==> y * t > 10.0 * t;
  }

  /** A grade never leaves the scale, and nothing wrong is counted right. */
  lemma MarksRange(sheet: Sheet, bank: Bank, fallback: int)
    ensures var (correct, total, score) := Marks(sheet, bank, fallback);
            0.0 <= score <= 10.0 && (correct <= total || correct == 0)
  {
    SubsetSize(Right(sheet, bank), Counted(sheet, bank));
    ScoreRange(Marks(sheet, bank, fallback).0, Marks(sheet, bank, fallback).1);
  }

  // ---------- marks, said from the table ----------

  /** The questions of an exam that have an answer and are in the bank, and whose row the grading scan delivers. */
  function Answered(answers: map<(int, int), string>, bank: Bank, id: int, faults: Faults): set<int> {
    set q | q in bank && (id, q) in answers && GradeRow(id, q) !in faults
  }

  function AnsweredRight(answers: map<(int, int), string>, bank: Bank, id: int, faults: Faults): set<int> {
    set q | q in bank && (id, q) in answers && answers[(id, q)] == bank[q].answer && GradeRow(id, q) !in faults
  }

  /** correct, total and score of one exam over ten, with the total that counts when no answer does. */
  predicate OverTen(answers: map<(int, int), string>, bank: Bank, id: int, faults: Faults, correct: nat, total: int, score: real, unanswered: int) {
    && correct == |AnsweredRight(answers, bank, id, faults)|
    && total == (if Answered(answers, bank, id, faults) == {} then unanswered else |Answered(answers, bank, id, faults)|)
    && (total > 0 ==> score * total as real == 10.0 * correct as real)
    && (total <= 0 ==> score == 0.0)
  }

  lemma MarksAreOverTen(answers: map<(int, int), string>, bank: Bank, id: int, faults: Faults, unanswered: int)
    ensures var (correct, total, score) := Marks(Delivered(SheetOf(answers, id), id, faults), bank, unanswered);
            OverTen(answers, bank, id, faults, correct, total, score, unanswered)
  {
    var sheet := Delivered(SheetOf(answers, id), id, faults);
    forall q ensures
        && (q in Counted(sheet, bank) <==> q in Answered(answers, bank, id, faults))
        && (q in Right(sheet, bank) <==> q in AnsweredRight(answers, bank, id, faults)) {
      InSheet(answers, id, q);
    }
    assert Counted(sheet, bank) == Answered(answers, bank, id, faults) && Right(sheet, bank) == AnsweredRight(answers, bank, id, faults);
    ScoreIsOverTen(Marks(sheet, bank, unanswered).0, Marks(sheet, bank, unanswered).1);
  }

  /** When all answers that count are right, the score is ten; when none is, it is zero. */
  lemma AllRightIsTen(answers: map<(int, int), string>, bank: Bank, id: int, faults: Faults, correct: nat, total: int, score: real, unanswered: int)
    requires OverTen(answers, bank, id, faults, correct, total, score, unanswered) && Answered(answers, bank, id, faults) != {}
    ensures score == 10.0 <==> forall q :: q in Answered(answers, bank, id, faults) ==> answers[(id, q)] == bank[q].answer
    ensures score == 0.0 <==> forall q :: q in Answered(answers, bank, id, faults) ==> answers[(id, q)] != bank[q].answer
  {
    var right, all := AnsweredRight(answers, bank, id, faults), Answered(answers, bank, id, faults);
    SubsetSize(right, all);
    TenExactly(correct, total, score);
    if correct == total {
      assert all - right == {};
      forall q | q in all ensures q in right { assert q !in all - right; }
    }
    if forall q :: q in all ==> answers[(id, q)] == bank[q].answer { AllAreRight(all, right); }
    if right == {} {
      forall q | q in all ensures answers[(id, q)] != bank[q].answer { assert q !in right; }
    }
    if forall q :: q in all ==> answers[(id, q)] != bank[q].answer { assert right == {}; }
  }

  lemma AllAreRight(all: set<int>, right: set<int>)
    requires right <= all && forall q :: q in all ==> q in right
    ensures |right| == |all|
  {
    forall q | q in all ensures q in right {}
    assert all <= right;
    SubsetSize(all, right);
    SubsetSize(right, all);
  }

  lemma TenExactly(correct: nat, total: int, score: real)
    requires 0 < total && correct <= total && score * total as real == 10.0 * correct as real
    ensures score == 10.0 <==> correct == total
    ensures score == 0.0 <==> correct == 0
  {
    QuotientExactly(score, correct as real, total as real);
  }

  lemma QuotientExactly(score: real, c: real, t: real)
    requires t > 0.0 && 0.0 <= c <= t && score * t == 10.0 * c
    ensures score == 10.0 <==> c == t
    ensures score == 0.0 <==> c == 0.0
  {
    if c == t {
      assert 10.0 * c == 10.0 * t;
      Cancel(score, 10.0, t);
    } else {
      assert 10.0 * c < 10.0 * t;
    }
    if c == 0.0 {
      assert score * t == 0.0 * t;
      Cancel(score, 0.0, t);
    }
  }

  lemma Cancel(x: real, y: real, t: real)
    requires t > 0.0 && x * t == y * t
    ensures x == y
  {
    assert x == x * t / t && y == y * t / t;
  }

  // ---------- practice ----------

  /** How many choices of a practice list name the right option, position by position. */
  function PracticeRight(list: Choices, bank: Bank, faults: Faults): nat {
    if list == [] then 0
    else
      var last := list[|list| - 1];
      PracticeRight(list[..|list| - 1], bank, faults) +
      (if CorrectRow(|list| - 1) !in faults && last.0 in bank && last.1 == bank[last.0].answer then 1 else 0)
  }

  predicate DistinctQuestions(list: Choices) {
    forall i, j :: 0 <= i < j < |list| ==> list[i].0 != list[j].0
  }

  /** The sheet of a list on its own. */
  function Filled(list: Choices): Sheet {
    if list == [] then map[] else Filled(list[..|list| - 1])[list[|list| - 1].0 := list[|list| - 1].1]
  }

  lemma {:induction false} FilledOverrides(list: Choices)
    ensures Overrides(Filled(list), map[], list)
  {
    if list != [] { FilledOverrides(list[..|list| - 1]); }
  }

  predicate AllInBank(list: Choices, bank: Bank) {
    forall i :: 0 <= i < |list| ==> list[i].0 in bank
  }

  predicate NoneInBank(list: Choices, bank: Bank) {
    forall i :: 0 <= i < |list| ==> list[i].0 !in bank
  }

  /**
   On an empty table, an exam and a practice run are marked alike exactly when the list names
   distinct questions of the bank, or none of the bank at all.
   */
  lemma PracticeAgrees(list: Choices, bank: Bank)
    ensures Marks(Filled(list), bank, |list|) ==
            (PracticeRight(list, bank, {}), |list|, Score(PracticeRight(list, bank, {}), |list|))
            <==> (DistinctQuestions(list) && AllInBank(list, bank)) || NoneInBank(list, bank)
  {
    CountedExactly(list, bank);
    if DistinctQuestions(list) && AllInBank(list, bank) {
      PracticeCounts(list, bank);
    } else if NoneInBank(list, bank) {
      NothingCounts(list, bank);
    } else {
      SomethingCounts(list, bank);
    }
  }

  /** At most one question counts per position, and one does for each exactly when they are distinct and in the bank. */
  lemma {:induction false} CountedExactly(list: Choices, bank: Bank)
    ensures |Counted(Filled(list), bank)| <= |list|
    ensures |Counted(Filled(list), bank)| == |list| <==> DistinctQuestions(list) && AllInBank(list, bank)
  {
    if list != [] {
      var n := |list| - 1;
      var front, q := list[..n], list[n].0;
      CountedExactly(front, bank);
      FilledExactly(front, q);
      if q in bank && q !in Filled(front) {
        FillOneMore(Filled(front), bank, q, list[n].1);
      } else {
        FillNoMore(Filled(front), bank, q, list[n].1);
      }
      LastIsNew(list);
    }
  }

  lemma LastIsNew(list: Choices)
    requires list != []
    ensures var n := |list| - 1;
            DistinctQuestions(list) <==> DistinctQuestions(list[..n]) && forall i :: 0 <= i < n ==> list[..n][i].0 != list[n].0
  {
    var n := |list| - 1;
    assert forall i :: 0 <= i < n ==> list[..n][i] == list[i];
  }

  lemma FilledExactly(list: Choices, q: int)
    ensures q in Filled(list) <==> exists i :: 0 <= i < |list| && list[i].0 == q
  {
    FilledOverrides(list);
    LastChoiceIsListed(list, q);
  }

  lemma FillNoMore(sheet: Sheet, bank: Bank, q: int, option: string)
    requires q in sheet || q !in bank
    ensures |Counted(sheet[q := option], bank)| == |Counted(sheet, bank)|
  {
    var filled := sheet[q := option];
    forall x ensures x in Counted(filled, bank) <==> x in Counted(sheet, bank) {}
    OneMoreElement(Counted(sheet, bank) - {q}, Counted(filled, bank), q, q in Counted(sheet, bank));
    OneMoreElement(Counted(sheet, bank) - {q}, Counted(sheet, bank), q, q in Counted(sheet, bank));
  }

  lemma {:induction false} NothingCounts(list: Choices, bank: Bank)
    requires NoneInBank(list, bank)
    ensures |Right(Filled(list), bank)| == |Counted(Filled(list), bank)| == PracticeRight(list, bank, {}) == 0
  {
    if list != [] { NothingCounts(list[..|list| - 1], bank); }
    forall q ensures q !in Counted(Filled(list), bank) { FilledExactly(list, q); }
    assert Counted(Filled(list), bank) == {} && Right(Filled(list), bank) == {};
  }

  lemma SomethingCounts(list: Choices, bank: Bank)
    requires !NoneInBank(list, bank)
    ensures |Counted(Filled(list), bank)| > 0
  {
    var i :| 0 <= i < |list| && list[i].0 in bank;
    FilledExactly(list, list[i].0);
    assert list[i].0 in Counted(Filled(list), bank);
  }

  lemma {:induction false} PracticeCounts(list: Choices, bank: Bank)
    requires DistinctQuestions(list)
    requires forall i :: 0 <= i < |list| ==> list[i].0 in bank
    ensures |Right(Filled(list), bank)| == PracticeRight(list, bank, {})
    ensures |Counted(Filled(list), bank)| == |list|
  {
    if list != [] {
      var n := |list| - 1;
      var front, q, option := list[..n], list[n].0, list[n].1;
      PracticeCounts(front, bank);
      FilledExactly(front, q);
      FillOneMore(Filled(front), bank, q, option);
    }
  }

  lemma FillOneMore(sheet: Sheet, bank: Bank, q: int, option: string)
    requires q !in sheet && q in bank
    ensures |Counted(sheet[q := option], bank)| == |Counted(sheet, bank)| + 1
    ensures |Right(sheet[q := option], bank)| == |Right(sheet, bank)| + (if option == bank[q].answer then 1 else 0)
  {
    var filled := sheet[q := option];
    forall x ensures x in Counted(filled, bank) <==> x == q || x in Counted(sheet, bank) {}
    forall x ensures x in Right(filled, bank) <==> (x == q && option == bank[q].answer) || x in Right(sheet, bank) {}
    OneMoreElement(Counted(sheet, bank), Counted(filled, bank), q, true);
    OneMoreElement(Right(sheet, bank), Right(filled, bank), q, option == bank[q].answer);
  }

  /** They differ as soon as a question repeats: practice counts positions, an exam counts questions. */
  lemma PracticeCountsRepeats()
    ensures var bank := map[1 := Question(Easy, "A", true)];
            var list := [(1, "A"), (1, "A")];
            && PracticeRight(list, bank, {}) == 2 && |Right(Filled(list), bank)| == 1
  {
    var bank := map[1 := Question(Easy, "A", true)];
    var list := [(1, "A"), (1, "A")];
    assert list[..1] == [(1, "A")];
    var one := [(1, "A")];
    assert one[..0] == [];
    assert PracticeRight(one, bank, {}) == 1;
    assert Filled(one) == map[1 := "A"] && Filled(list) == map[1 := "A"];
    assert Right(Filled(list), bank) == {1};
  }
}
