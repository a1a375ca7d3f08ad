/** What is read back: the statistics of a room, and the timer of an exam. */
module RoomStatistics {
  import opened Wrappers
  import opened RoomSchema
  import opened QuestionPicker
  import opened RoomSpec

  // ---------- statistics ----------

  /** rows: exam ids, one per result row. */
  datatype RoomResult = RoomResult(rows: seq<int>, average: real, highest: real, lowest: real, passRate: real)

  /** exams e JOIN users u, of this room, with submitted_at set: the rows the scan delivers. */
  function Submitted(s: Db, room: int, users: set<int>, faults: Faults): set<int> {
    set id | id in s.exams && s.exams[id].room == room && s.exams[id].grade.Some? && s.exams[id].user in users && ResultRow(id) !in faults
  }

  function ScoreOf(s: Db, id: int): real {
    if id in s.exams && s.exams[id].grade.Some? then s.exams[id].grade.value.score else 0.0
  }

  function Sum(s: Db, rows: seq<int>): real {
    if rows == [] then 0.0 else Sum(s, rows[..|rows| - 1]) + ScoreOf(s, rows[|rows| - 1])
  }

  function Passed(s: Db, room: int, users: set<int>, faults: Faults): set<int> {
    set id | id in Submitted(s, room, users, faults) && ScoreOf(s, id) >= 5.0
  }

  ghost predicate IsGreatest(s: Db, ids: set<int>, x: real) {
    (exists id :: id in ids && ScoreOf(s, id) == x) && forall id :: id in ids ==> ScoreOf(s, id) <= x
  }

  ghost predicate IsLeast(s: Db, ids: set<int>, x: real) {
    (exists id :: id in ids && ScoreOf(s, id) == x) && forall id :: id in ids ==> x <= ScoreOf(s, id)
  }

  /** Every submitted exam is a row, once; the figures are those of the rows, and zero when there are none. */
  ghost predicate IsRoomResult(s: Db, room: int, users: set<int>, faults: Faults, r: RoomResult) {
    var ids := Submitted(s, room, users, faults);
    && Distinct(r.rows) && Ids(r.rows) == ids
    && (ids == {} ==> r.average == r.highest == r.lowest == r.passRate == 0.0)
    && (ids != {} ==>
          && IsGreatest(s, ids, r.highest)
          && IsLeast(s, ids, r.lowest)
          && IsMean(r.average, Sum(s, r.rows), |ids|)
          && IsMean(r.passRate, 100.0 * |Passed(s, room, users, faults)| as real, |ids|)
          && r.lowest <= r.average <= r.highest
          && 0.0 <= r.passRate <= 100.0)
  }

  /** Sum is the sum of the stored scores: nothing for no rows, additive, and for one row its score. */
  lemma {:induction false} SumIsTheSum(s: Db, a: seq<int>, b: seq<int>, id: int)
    ensures Sum(s, []) == 0.0
    ensures Sum(s, a + b) == Sum(s, a) + Sum(s, b)
    ensures id in s.exams && s.exams[id].grade.Some? ==> Sum(s, [id]) == s.exams[id].grade.value.score
  {
    assert [id][..0] == [];
    if b == [] {
      assert a + b == a;
    } else {
      var n := |b| - 1;
      assert (a + b)[..|a| + n] == a + b[..n];
      SumIsTheSum(s, a, b[..n], id);
    }
  }

  // ---------- the figures, said from the exam rows themselves ----------

  /** The graded exams of a room whose student is there, as far as the scan delivers them. */
  function ResultIds(exams: map<int, Exam>, room: int, users: set<int>, faults: Faults): (ids: set<int>)
    ensures forall id :: id in ids ==> id in exams && exams[id].grade.Some?
  {
    set id | id in exams && exams[id].room == room && exams[id].grade.Some? && exams[id].user in users && ResultRow(id) !in faults
  }

  function AtLeastFive(exams: map<int, Exam>, ids: set<int>): set<int> {
    set id | id in ids && id in exams && exams[id].grade.Some? && exams[id].grade.value.score >= 5.0
  }

  predicate IsHighest(exams: map<int, Exam>, ids: set<int>, x: real)
    requires forall id :: id in ids ==> id in exams && exams[id].grade.Some?
  {
    (exists id :: id in ids && exams[id].grade.value.score == x) && forall id :: id in ids ==> exams[id].grade.value.score <= x
  }

  predicate IsLowest(exams: map<int, Exam>, ids: set<int>, x: real)
    requires forall id :: id in ids ==> id in exams && exams[id].grade.Some?
  {
    (exists id :: id in ids && exams[id].grade.value.score == x) && forall id :: id in ids ==> x <= exams[id].grade.value.score
  }

  predicate FiguresOf(exams: map<int, Exam>, ids: set<int>, sum: real, r: RoomResult)
    requires forall id :: id in ids ==> id in exams && exams[id].grade.Some?
  {
    && Distinct(r.rows) && Ids(r.rows) == ids
    && (ids == {} ==> r.average == r.highest == r.lowest == r.passRate == 0.0)
    && (ids != {} ==>
          && IsHighest(exams, ids, r.highest) && IsLowest(exams, ids, r.lowest)
          && r.average * |ids| as real == sum
          && r.passRate * |ids| as real == 100.0 * |AtLeastFive(exams, ids)| as real)
  }

  lemma FiguresAreOfTheExams(s: Db, room: int, users: set<int>, faults: Faults, r: RoomResult)
    requires IsRoomResult(s, room, users, faults, r)
    ensures FiguresOf(s.exams, ResultIds(s.exams, room, users, faults), Sum(s, r.rows), r)
  {
    var ids := ResultIds(s.exams, room, users, faults);
    assert ids == Submitted(s, room, users, faults);
    forall id ensures id in AtLeastFive(s.exams, ids) <==> id in Passed(s, room, users, faults) {}
    assert AtLeastFive(s.exams, ids) == Passed(s, room, users, faults);
    if ids != {} { ExtremesAreOfTheExams(s, ids, r.highest, r.lowest); }
  }

  lemma ExtremesAreOfTheExams(s: Db, ids: set<int>, hi: real, lo: real)
    requires forall id :: id in ids ==> id in s.exams && s.exams[id].grade.Some?
    requires IsGreatest(s, ids, hi) && IsLeast(s, ids, lo)
    ensures IsHighest(s.exams, ids, hi) && IsLowest(s.exams, ids, lo)
  {
    forall id | id in ids ensures s.exams[id].grade.value.score == ScoreOf(s, id) {}
  }

  /** The rows of the SELECT, in whatever order. */
  method ResultRows(s: Db, room: int, users: set<int>, faults: Faults) returns (rows: seq<int>)
    ensures Distinct(rows) && Ids(rows) == Submitted(s, room, users, faults)
  {
    rows := InAnyOrder(Submitted(s, room, users, faults));
  }

  /** lo and hi after the loop has seen rows. */
  ghost predicate Extremes(s: Db, rows: seq<int>, lo: real, hi: real) {
    if rows == [] then lo == 1000000000.0 && hi == -1000000000.0
    else
      && (exists id :: id in rows && ScoreOf(s, id) == lo)
      && (exists id :: id in rows && ScoreOf(s, id) == hi)
      && (forall id :: id in rows ==> lo <= ScoreOf(s, id) <= hi)
  }

  lemma ExtremesSnoc(s: Db, rows: seq<int>, id: int, lo: real, hi: real)
    requires Extremes(s, rows, lo, hi) && 0.0 <= ScoreOf(s, id) <= 10.0
    ensures var x := ScoreOf(s, id);
            Extremes(s, rows + [id], if x < lo then x else lo, if x > hi then x else hi)
  {
    assert id in rows + [id];
  }

  lemma PassedSnoc(s: Db, room: int, users: set<int>, faults: Faults, rows: seq<int>, id: int)
    requires id in Submitted(s, room, users, faults) && id !in rows
    ensures |Ids(rows + [id]) * Passed(s, room, users, faults)| ==
            |Ids(rows) * Passed(s, room, users, faults)| + (if ScoreOf(s, id) >= 5.0 then 1 else 0)
  {
    assert Ids(rows + [id]) == Ids(rows) + {id};
    assert id in Passed(s, room, users, faults) <==> ScoreOf(s, id) >= 5.0;
    OneMoreElement(Ids(rows) * Passed(s, room, users, faults), Ids(rows + [id]) * Passed(s, room, users, faults), id, ScoreOf(s, id) >= 5.0);
  }

  method Summarise(s: Db, room: int, users: set<int>, faults: Faults, rows: seq<int>) returns (r: RoomResult)
    requires Distinct(rows) && Ids(rows) == Submitted(s, room, users, faults)
    requires forall id :: id in Submitted(s, room, users, faults) ==> 0.0 <= ScoreOf(s, id) <= 10.0
    ensures IsRoomResult(s, room, users, faults, r)
  {
    assert forall id :: id in rows ==> id in Ids(rows);
    var sum, hi, lo, pass := Accumulate(s, room, users, faults, rows);
    if |rows| > 0 {
      Figures(s, room, users, faults, rows, sum, hi, lo, pass);
      r := RoomResult(rows, sum / |rows| as real, hi, lo, pass as real * 100.0 / |rows| as real);
    } else {
      assert Submitted(s, room, users, faults) == {};
      r := RoomResult(rows, 0.0, 0.0, 0.0, 0.0);
    }
  }

  /** The loop of get_room_results, which starts its highest and lowest at -1e9 and 1e9. */
  method Accumulate(s: Db, room: int, users: set<int>, faults: Faults, rows: seq<int>) returns (sum: real, hi: real, lo: real, pass: nat)
    requires Distinct(rows) && forall id :: id in rows ==> id in Submitted(s, room, users, faults) && 0.0 <= ScoreOf(s, id) <= 10.0
    ensures Tally(s, room, users, faults, rows, sum, hi, lo, pass)
  {
    sum, hi, lo := 0.0, -1000000000.0, 1000000000.0;
    pass := 0;
    var count := 0;
    while count < |rows|
      invariant 0 <= count <= |rows|
      invariant Tally(s, room, users, faults, rows[..count], sum, hi, lo, pass)
    {
      ghost var sum0, hi0, lo0, pass0 := sum, hi, lo, pass;
      var score := ScoreOf(s, rows[count]);
      sum := sum + score;
      hi := if score > hi then score else hi;
      lo := if score < lo then score else lo;
      pass := if score >= 5.0 then pass + 1 else pass;
      TallyStep(s, room, users, faults, rows, count, sum0, hi0, lo0, pass0, sum, hi, lo, pass);
      count := count + 1;
    }
    assert rows[..count] == rows;
  }

  lemma TallyStep(s: Db, room: int, users: set<int>, faults: Faults, rows: seq<int>, i: nat,
                  sum: real, hi: real, lo: real, pass: nat, sum': real, hi': real, lo': real, pass': nat)
    requires Distinct(rows) && i < |rows| && rows[i] in Submitted(s, room, users, faults) && 0.0 <= ScoreOf(s, rows[i]) <= 10.0
    requires Tally(s, room, users, faults, rows[..i], sum, hi, lo, pass)
    requires var x := ScoreOf(s, rows[i]);
             && sum' == sum + x
             && hi' == (if x > hi then x else hi)
             && lo' == (if x < lo then x else lo)
             && pass' == if x >= 5.0 then pass + 1 else pass
    ensures Tally(s, room, users, faults, rows[..i + 1], sum', hi', lo', pass')
  {
    assert rows[..i + 1] == rows[..i] + [rows[i]];
    TallySnoc(s, room, users, faults, rows[..i], rows[i], sum, hi, lo, pass);
  }

  /** The accumulators after the loop has seen rows. */
  ghost predicate Tally(s: Db, room: int, users: set<int>, faults: Faults, rows: seq<int>, sum: real, hi: real, lo: real, pass: nat) {
    && sum == Sum(s, rows)
    && Extremes(s, rows, lo, hi)
    && pass == |Ids(rows) * Passed(s, room, users, faults)|
  }

  lemma TallySnoc(s: Db, room: int, users: set<int>, faults: Faults, rows: seq<int>, id: int, sum: real, hi: real, lo: real, pass: nat)
    requires Tally(s, room, users, faults, rows, sum, hi, lo, pass)
    requires id in Submitted(s, room, users, faults) && id !in rows && 0.0 <= ScoreOf(s, id) <= 10.0
    ensures var x := ScoreOf(s, id);
            Tally(s, room, users, faults, rows + [id], sum + x, if x > hi then x else hi, if x < lo then x else lo,
                  if x >= 5.0 then pass + 1 else pass)
  {
    assert (rows + [id])[..|rows|] == rows;
    ExtremesSnoc(s, rows, id, lo, hi);
    PassedSnoc(s, room, users, faults, rows, id);
  }

  lemma Figures(s: Db, room: int, users: set<int>, faults: Faults, rows: seq<int>, sum: real, hi: real, lo: real, pass: nat)
    requires rows != [] && Distinct(rows) && Ids(rows) == Submitted(s, room, users, faults)
    requires Tally(s, room, users, faults, rows, sum, hi, lo, pass)
    ensures IsRoomResult(s, room, users, faults, RoomResult(rows, sum / |rows| as real, hi, lo, pass as real * 100.0 / |rows| as real))
  {
    var ids, n := Ids(rows), |rows|;
    DistinctSize(rows);
    assert ids * Passed(s, room, users, faults) == Passed(s, room, users, faults);
    SubsetSize(Passed(s, room, users, faults), ids);
    assert rows[0] in ids;
    FromRowsToIds(s, rows, lo, hi);
    SumBounds(s, rows, lo, hi);
    MeanOf(sum, n, lo, hi);
    Percentage(pass, n);
  }

  /** average is what makes n times itself the sum. */
  predicate IsMean(average: real, sum: real, n: nat) {
    average * n as real == sum
  }

  lemma MeanOf(sum: real, n: nat, lo: real, hi: real)
    requires n > 0 && Bounded(sum, n, lo, hi)
    ensures IsMean(sum / n as real, sum, n) && lo <= sum / n as real <= hi
  {
    Quotient(sum, n as real, lo, hi);
  }

  lemma Percentage(part: nat, n: nat)
    requires 0 < n && part <= n
    ensures IsMean(part as real * 100.0 / n as real, 100.0 * part as real, n)
    ensures 0.0 <= part as real * 100.0 / n as real <= 100.0
  {
    Quotient(part as real * 100.0, n as real, 0.0, 100.0);
  }

  predicate Bounded(sum: real, n: nat, lo: real, hi: real) {
    lo * n as real <= sum <= hi * n as real
  }

  lemma FromRowsToIds(s: Db, rows: seq<int>, lo: real, hi: real)
    requires rows != [] && Extremes(s, rows, lo, hi)
    ensures IsGreatest(s, Ids(rows), hi) && IsLeast(s, Ids(rows), lo)
  {
    var a :| a in rows && ScoreOf(s, a) == lo;
    var b :| b in rows && ScoreOf(s, b) == hi;
    assert a in Ids(rows) && b in Ids(rows);
  }

  lemma {:induction false} SumBounds(s: Db, rows: seq<int>, lo: real, hi: real)
    requires forall id :: id in rows ==> lo <= ScoreOf(s, id) <= hi
    ensures Bounded(Sum(s, rows), |rows|, lo, hi)
  {
    if rows != [] {
      var n := |rows| - 1;
      SumBounds(s, rows[..n], lo, hi);
      assert rows[n] in rows;
      OneMore(lo, n);
      OneMore(hi, n);
    }
  }

  lemma OneMore(x: real, n: nat)
    ensures x * (n + 1) as real == x * n as real + x
  {
    var t := n as real;
    assert (n + 1) as real == t + 1.0;
    assert x * (t + 1.0) == x * t + x;
  }

  lemma Quotient(x: real, t: real, lo: real, hi: real)
    requires t > 0.0 && lo * t <= x <= hi * t
    ensures (x / t) * t == x
    ensures lo <= x / t <= hi
  {
    var y := x / t;
    assert y * t == x;
    assert y < lo ==> y * t < lo * t;
    assert y > hi ==> y * t > hi * t;
  }

  // ---------- timer ----------

  const TWO_31: int := 0x8000_0000
  const TWO_32: int := 0x1_0000_0000

  /** static_cast to std::int32_t. */
  function ToInt32(x: int): int {
    (x + TWO_31) % TWO_32 - TWO_31
  }

  predicate FitsInt32(x: int) {
    -TWO_31 <= x < TWO_31
  }

  /** duration went through a uint32. remaining is the exact difference; the C++ subtraction is defined only when it fits in 32 bits. */
  datatype TimerStatus = TimerStatus(startedAt: int, duration: int, remaining: int, serverTime: nat)

  function Timer(s: Db, exam: int, now: nat, faults: Faults): Option<TimerStatus> {
    if OpenDb !in faults && SelectTimer !in faults && exam > 0 && exam in s.exams && s.exams[exam].room in s.rooms then
      var x := s.exams[exam];
      var duration := s.rooms[x.room].duration % TWO_32;
      var elapsed := if now > x.startAt then now - x.startAt else 0;
      Some(TimerStatus(x.startAt, duration, ToInt32(duration) - ToInt32(elapsed), now))
    else None
  }

  /**
   For an exam whose room still exists and that did not start in the future, the timer's sign is the
   expiry test of auto-submit exactly when fewer than 2^31 seconds have passed or their
   low 32 bits still read as more than the duration. Within 2^31 seconds the timer shows
   the time to end_at, and for a non-negative duration the subtraction does not overflow.
   */
  lemma TimerAgreesWithExpiry(s: Db, exam: int, now: nat)
    requires Inv(s) && exam in s.exams && s.exams[exam].room in s.rooms && s.exams[exam].startAt <= now
    requires FitsInt32(s.rooms[s.exams[exam].room].duration)
    ensures Timer(s, exam, now, {}).Some?
    ensures var x := s.exams[exam];
            var duration, elapsed := s.rooms[x.room].duration, now - x.startAt;
            var t := Timer(s, exam, now, {}).value;
            && (elapsed < TWO_31 ==> t.remaining == x.endAt - now && (duration >= 0 ==> FitsInt32(t.remaining)))
            && ((t.remaining < 0 <==> x.endAt < now) <==> elapsed < TWO_31 || ToInt32(elapsed) > duration)
  {
  }

  /** After 2^32 seconds the timer shows the full time again, for an exam long expired. */
  lemma TimerWrapsAround(s: Db, exam: int)
    requires Inv(s) && exam in s.exams && s.exams[exam].room in s.rooms && s.exams[exam].startAt >= 0
    requires FitsInt32(s.rooms[s.exams[exam].room].duration) && s.rooms[s.exams[exam].room].duration >= 0
    ensures var now := s.exams[exam].startAt + TWO_32;
            && Timer(s, exam, now, {}).Some?
            && Timer(s, exam, now, {}).value.remaining == s.rooms[s.exams[exam].room].duration
            && s.exams[exam].endAt < now
  {
  }
}
