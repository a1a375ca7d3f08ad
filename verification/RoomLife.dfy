/** Rooms over runs: they only move forward, and a dropped one never comes back. */
module RoomLife {
  import opened RoomSchema
  import opened RoomSpec
  import opened RoomInvariant
  import opened RoomRuns
  import opened RoomMoves

  lemma RoomStep(s: Db, bank: Bank, e: Event, s': Db)
    requires Moves(s, bank, e, s')
    ensures s.nextRoom <= s'.nextRoom && s.participants <= s'.participants
    ensures forall r :: r in s'.rooms ==> (r in s.rooms && Later(s.rooms[r], s'.rooms[r])) || r == s.nextRoom
    ensures !Lifecycle(e.call) ==> s'.rooms == s.rooms
  {
  }

  lemma RoomStepAt(bank: Bank, states: seq<Db>, events: seq<Event>, k: nat)
    requires Run(bank, states, events) && k < |events|
    ensures states[k].nextRoom <= states[k + 1].nextRoom && states[k].participants <= states[k + 1].participants
    ensures forall r :: r in states[k + 1].rooms ==>
              (r in states[k].rooms && Later(states[k].rooms[r], states[k + 1].rooms[r])) || r == states[k].nextRoom
  {
    StepMoves(bank, states, events, k);
    RoomStep(states[k], bank, events[k], states[k + 1]);
  }

  /** Ids are used once: a room that is gone, or whose number has been passed, is not seen again; one that stays only advances. */
  lemma {:induction false} RoomsOnlyAdvance(bank: Bank, states: seq<Db>, events: seq<Event>, i: nat, j: nat, r: int)
    requires Run(bank, states, events) && i <= j < |states|
    requires r < states[i].nextRoom && r in states[j].rooms
    ensures r in states[i].rooms && Later(states[i].rooms[r], states[j].rooms[r])
    ensures r < states[j].nextRoom
    decreases j
  {
    if i < j {
      RoomCounterGrows(bank, states, events, i, j - 1);
      RoomStepAt(bank, states, events, j - 1);
      RoomsOnlyAdvance(bank, states, events, i, j - 1, r);
    }
  }

  lemma {:induction false} RoomCounterGrows(bank: Bank, states: seq<Db>, events: seq<Event>, i: nat, j: nat)
    requires Run(bank, states, events) && i <= j < |states|
    ensures states[i].nextRoom <= states[j].nextRoom
    decreases j
  {
    if i < j {
      RoomCounterGrows(bank, states, events, i, j - 1);
      RoomStepAt(bank, states, events, j - 1);
    }
  }

  /** An exam row exists only for a room that had been started, and for a student who had joined it. */
  lemma {:induction false} ExamsAreOfStartedRooms(bank: Bank, states: seq<Db>, events: seq<Event>, k: nat, id: int)
    requires Run(bank, states, events) && k < |states| && id in states[k].exams
    ensures var x := states[k].exams[id];
            && (x.room in states[k].rooms ==> states[k].rooms[x.room].status != Waiting)
            && (x.room, x.user) in states[k].participants
  {
    if k > 0 {
      StepMoves(bank, states, events, k - 1);
      RoomStep(states[k - 1], bank, events[k - 1], states[k]);
      if id in states[k - 1].exams {
        ExamsAreOfStartedRooms(bank, states, events, k - 1, id);
        ExamsStay(states[k - 1], bank, events[k - 1], states[k], id);
      }
    }
  }
}
