/** Whole runs of the room manager: any calls, in any order, with any statements failing. */
module RoomRuns {
  import opened RoomSchema
  import opened RoomSpec
  import opened RoomInvariant
  import opened RoomMoves
  import opened RoomStatistics

  /** Nothing but practice runs, which belong to nobody's exam. */
  predicate Fresh(s: Db) {
    s == Db(map[], {}, map[], map[], map[], s.practices, 1, 1, false)
  }

  ghost predicate Run(bank: Bank, states: seq<Db>, events: seq<Event>) {
    && |states| == |events| + 1
    && Fresh(states[0])
    && forall i :: 0 <= i < |events| ==> StepAt(bank, states, events, i)
  }

  ghost predicate StepAt(bank: Bank, states: seq<Db>, events: seq<Event>, i: nat)
    requires i < |events| && |states| == |events| + 1
  {
    IsStep(bank, states[i], events[i], states[i + 1])
  }

  ghost predicate IsStep(bank: Bank, s: Db, e: Event, s': Db) {
    Plausible(s, bank, e) && s' == Next(s, bank, e)
  }

  lemma {:induction false} RunKeepsInv(bank: Bank, states: seq<Db>, events: seq<Event>, k: nat)
    requires Run(bank, states, events) && k < |states|
    ensures Inv(states[k])
  {
    if k > 0 {
      RunKeepsInv(bank, states, events, k - 1);
      assert StepAt(bank, states, events, k - 1);
      NextKeepsInv(states[k - 1], bank, events[k - 1]);
    }
  }

  /** Each step of a run is a move from a state that meets the invariant. */
  lemma StepMoves(bank: Bank, states: seq<Db>, events: seq<Event>, k: nat)
    requires Run(bank, states, events) && k < |events|
    ensures Inv(states[k]) && Inv(states[k + 1])
    ensures Plausible(states[k], bank, events[k])
    ensures Moves(states[k], bank, events[k], states[k + 1])
  {
    RunKeepsInv(bank, states, events, k);
    RunKeepsInv(bank, states, events, k + 1);
    assert StepAt(bank, states, events, k);
    NextMoves(states[k], bank, events[k]);
  }

  // ---------- what one call leaves alone ----------

  /** An exam row, once there, keeps its room, student and times. */
  lemma ExamsStay(s: Db, bank: Bank, e: Event, s': Db, id: int)
    requires Moves(s, bank, e, s') && Inv(s') && id in s.exams
    ensures id in s'.exams
    ensures SameSeat(s.exams[id], s'.exams[id])
  {
  }

  lemma SeatStaysAt(bank: Bank, states: seq<Db>, events: seq<Event>, k: nat, id: int)
    requires Run(bank, states, events) && k < |events| && id in states[k].exams
    ensures id in states[k + 1].exams && SameSeat(states[k].exams[id], states[k + 1].exams[id])
  {
    StepMoves(bank, states, events, k);
    ExamsStay(states[k], bank, events[k], states[k + 1], id);
  }

  lemma {:induction false} SeatsStay(bank: Bank, states: seq<Db>, events: seq<Event>, i: nat, j: nat, id: int)
    requires Run(bank, states, events) && i <= j < |states| && id in states[i].exams
    ensures id in states[j].exams && SameSeat(states[i].exams[id], states[j].exams[id])
    decreases j
  {
    if i < j {
      SeatsStay(bank, states, events, i, j - 1, id);
      SeatStaysAt(bank, states, events, j - 1, id);
    }
  }

  // ---------- the clock ----------

  /** Every exam started at the time of some earlier get_exam_paper. */
  lemma {:induction false} StartIsAReading(bank: Bank, states: seq<Db>, events: seq<Event>, k: nat, id: int)
    requires Run(bank, states, events) && k < |states| && id in states[k].exams
    ensures exists i :: 0 <= i < k && events[i].call.GetPaper? && events[i].call.now == states[k].exams[id].startAt
  {
    if k > 0 {
      StepMoves(bank, states, events, k - 1);
      if id in states[k - 1].exams {
        StartIsAReading(bank, states, events, k - 1, id);
        ExamsStay(states[k - 1], bank, events[k - 1], states[k], id);
      }
    }
  }

  /**
   In every reachable state, if the clock has not gone back since papers were asked for: within 2^31
   seconds of its start the timer of an exam shows the time to its end_at without overflow, and it is
   negative exactly when the exam is one that auto-submit, called now, would grade if it is still open.
   */
  lemma TimerInRuns(bank: Bank, states: seq<Db>, events: seq<Event>, k: nat, id: int, now: nat)
    requires Run(bank, states, events) && k < |states|
    requires id in states[k].exams && states[k].exams[id].room in states[k].rooms
    requires forall i :: 0 <= i < k && events[i].call.GetPaper? ==> events[i].call.now <= now
    requires 0 <= states[k].rooms[states[k].exams[id].room].duration < TWO_31
    requires now - states[k].exams[id].startAt < TWO_31
    ensures var s := states[k];
            var t := Timer(s, id, now, {});
            && t.Some? && FitsInt32(t.value.remaining)
            && t.value.remaining == s.exams[id].endAt - now
            && (s.exams[id].grade.None? ==> (t.value.remaining < 0 <==> id in Swept(s, now, {})))
  {
    RunKeepsInv(bank, states, events, k);
    StartIsAReading(bank, states, events, k, id);
    TimerAgreesWithExpiry(states[k], id, now);
  }
}
