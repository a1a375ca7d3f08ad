/**
 Who may do what to a room, said from the calls themselves: in every run, everything that is there
 was put there by a call of the person who may, with the values of that call.
 */
module RoomRights {
  import opened Wrappers
  import opened RoomSchema
  import opened RoomSpec
  import opened RoomInvariant
  import opened RoomMoves
  import opened RoomRuns

  // ---------- one call ----------

  /** A room appears exactly by a create_room that works and whose code is free, with the call's values and waiting. */
  lemma CreatedExactly(s: Db, bank: Bank, e: Event, r: int)
    requires Inv(s) && r !in s.rooms
    ensures r in Next(s, bank, e).rooms <==>
              && e.call.CreateRoom? && r == s.nextRoom && OpenDb !in e.faults && InsertRoom !in e.faults
              && forall other :: other in s.rooms ==> s.rooms[other].code != (e.call.time, e.call.creator)
    ensures r in Next(s, bank, e).rooms ==>
              Next(s, bank, e).rooms[r] ==
                Room((e.call.time, e.call.creator), e.call.duration, e.call.settings, Waiting, e.call.pass, e.call.creator, None)
  {
    if e.call.CreateRoom? {
      CreateStep(s, bank, e, r);
    } else if !Lifecycle(e.call) {
      OthersKeepRooms(s, bank, e);
    }
  }

  lemma CreateStep(s: Db, bank: Bank, e: Event, r: int)
    requires e.call.CreateRoom? && Inv(s) && r !in s.rooms
    ensures r in Next(s, bank, e).rooms <==>
              && e.call.CreateRoom? && r == s.nextRoom && OpenDb !in e.faults && InsertRoom !in e.faults
              && forall other :: other in s.rooms ==> s.rooms[other].code != (e.call.time, e.call.creator)
    ensures r in Next(s, bank, e).rooms ==>
              Next(s, bank, e).rooms[r] ==
                Room((e.call.time, e.call.creator), e.call.duration, e.call.settings, Waiting, e.call.pass, e.call.creator, None)
  {
  }

  lemma OthersKeepRooms(s: Db, bank: Bank, e: Event)
    requires Inv(s) && !Lifecycle(e.call)
    ensures Next(s, bank, e).rooms == s.rooms && Next(s, bank, e).participants == s.participants
  {
    NextMoves(s, bank, e);
  }

  /** A room goes exactly by its creator's delete_room while it is not in progress. */
  lemma DroppedExactly(s: Db, bank: Bank, e: Event, r: int)
    requires Inv(s) && r in s.rooms
    ensures r !in Next(s, bank, e).rooms <==>
              && e.call.DropRoom? && e.call.room == r && e.call.user == s.rooms[r].creator && s.rooms[r].status != InProgress
              && OpenDb !in e.faults && SelectRoom !in e.faults && DeleteRoom !in e.faults
  {
    if e.call.DropRoom? {
      DropStep(s, bank, e, r);
    } else if !Lifecycle(e.call) {
      OthersKeepRooms(s, bank, e);
    }
  }

  lemma DropStep(s: Db, bank: Bank, e: Event, r: int)
    requires e.call.DropRoom? && Inv(s) && r in s.rooms
    ensures r !in Next(s, bank, e).rooms <==>
              && e.call.DropRoom? && e.call.room == r && e.call.user == s.rooms[r].creator && s.rooms[r].status != InProgress
              && OpenDb !in e.faults && SelectRoom !in e.faults && DeleteRoom !in e.faults
  {
  }

  /** A room starts exactly by its creator's start_room while it waits, and the time is that of the call. */
  lemma StartedExactly(s: Db, bank: Bank, e: Event, r: int)
    requires Inv(s) && r in s.rooms && s.rooms[r].status == Waiting
    ensures r in Next(s, bank, e).rooms && Next(s, bank, e).rooms[r].status != Waiting <==>
              && e.call.StartRoom? && e.call.room == r && e.call.user == s.rooms[r].creator
              && OpenDb !in e.faults && UpdateRoom !in e.faults
    ensures r in Next(s, bank, e).rooms && Next(s, bank, e).rooms[r].status != Waiting ==>
              Next(s, bank, e).rooms[r] == s.rooms[r].(status := InProgress, startedAt := Some(e.call.now))
  {
    if e.call.StartRoom? {
      StartStep(s, bank, e, r);
    } else if !Lifecycle(e.call) {
      OthersKeepRooms(s, bank, e);
    }
  }

  lemma StartStep(s: Db, bank: Bank, e: Event, r: int)
    requires e.call.StartRoom? && Inv(s) && r in s.rooms && s.rooms[r].status == Waiting
    ensures r in Next(s, bank, e).rooms && Next(s, bank, e).rooms[r].status != Waiting <==>
              && e.call.StartRoom? && e.call.room == r && e.call.user == s.rooms[r].creator
              && OpenDb !in e.faults && UpdateRoom !in e.faults
    ensures r in Next(s, bank, e).rooms && Next(s, bank, e).rooms[r].status != Waiting ==>
              Next(s, bank, e).rooms[r] == s.rooms[r].(status := InProgress, startedAt := Some(e.call.now))
  {
  }

  /** A room is finished exactly by its creator's finish_room while it is in progress. */
  lemma FinishedExactly(s: Db, bank: Bank, e: Event, r: int)
    requires Inv(s) && r in s.rooms && s.rooms[r].status == InProgress
    ensures r in Next(s, bank, e).rooms
    ensures Next(s, bank, e).rooms[r].status != InProgress <==>
              && e.call.FinishRoom? && e.call.room == r && e.call.user == s.rooms[r].creator
              && OpenDb !in e.faults && SelectRoom !in e.faults && UpdateRoom !in e.faults
    ensures Next(s, bank, e).rooms[r].status != InProgress ==> Next(s, bank, e).rooms[r] == s.rooms[r].(status := Finished)
  {
    if e.call.FinishRoom? {
      FinishStep(s, bank, e, r);
    } else if e.call.StartRoom? || e.call.DropRoom? {
      RunningRoomStays(s, bank, e, r);
    } else if !Lifecycle(e.call) {
      OthersKeepRooms(s, bank, e);
    }
  }

  lemma RunningRoomStays(s: Db, bank: Bank, e: Event, r: int)
    requires (e.call.StartRoom? || e.call.DropRoom?) && r in s.rooms && s.rooms[r].status == InProgress
    ensures r in Next(s, bank, e).rooms && Next(s, bank, e).rooms[r] == s.rooms[r]
  {
  }

  lemma FinishStep(s: Db, bank: Bank, e: Event, r: int)
    requires e.call.FinishRoom? && Inv(s) && r in s.rooms && s.rooms[r].status == InProgress
    ensures r in Next(s, bank, e).rooms
    ensures Next(s, bank, e).rooms[r].status != InProgress <==>
              && e.call.FinishRoom? && e.call.room == r && e.call.user == s.rooms[r].creator
              && OpenDb !in e.faults && SelectRoom !in e.faults && UpdateRoom !in e.faults
    ensures Next(s, bank, e).rooms[r].status != InProgress ==> Next(s, bank, e).rooms[r] == s.rooms[r].(status := Finished)
  {
  }

  /** Someone joins exactly by join_room with the room's password, while the room is not finished. */
  lemma JoinedExactly(s: Db, bank: Bank, e: Event, room: int, user: int)
    requires Inv(s) && (room, user) !in s.participants
    ensures (room, user) in Next(s, bank, e).participants <==>
              && e.call.JoinRoom? && e.call.room == room && e.call.user == user
              && room in s.rooms && s.rooms[room].pass == e.call.pass && s.rooms[room].status != Finished
              && OpenDb !in e.faults && SelectRoom !in e.faults && InsertParticipant !in e.faults
  {
    if !Lifecycle(e.call) { OthersKeepRooms(s, bank, e); }
  }

  // ---------- runs ----------

  lemma StepIs(bank: Bank, states: seq<Db>, events: seq<Event>, k: nat)
    requires Run(bank, states, events) && k < |events|
    ensures Inv(states[k]) && states[k + 1] == Next(states[k], bank, events[k])
    ensures forall r :: r in states[k].rooms && r in states[k + 1].rooms ==> Later(states[k].rooms[r], states[k + 1].rooms[r])
  {
    RunKeepsInv(bank, states, events, k);
    StepMoves(bank, states, events, k);
    assert StepAt(bank, states, events, k);
  }

  /** A create_room at that point of the run with these values. */
  ghost predicate CreatedBy(states: seq<Db>, events: seq<Event>, i: nat, r: int, x: Room)
    requires i < |events| && |states| == |events| + 1
  {
    var c := events[i].call;
    && c.CreateRoom? && states[i].nextRoom == r
    && x.creator == c.creator && x.pass == c.pass && x.duration == c.duration && x.settings == c.settings
    && x.code == (c.time, c.creator)
  }

  /** Every room has the creator, password, duration and settings of the create_room that made it. */
  lemma {:induction false} RoomsWereCreated(bank: Bank, states: seq<Db>, events: seq<Event>, k: nat, r: int)
    requires Run(bank, states, events) && k < |states| && r in states[k].rooms
    ensures exists i :: 0 <= i < k && CreatedBy(states, events, i, r, states[k].rooms[r])
  {
    if k > 0 {
      StepIs(bank, states, events, k - 1);
      if r in states[k - 1].rooms {
        RoomsWereCreated(bank, states, events, k - 1, r);
        var i :| 0 <= i < k - 1 && CreatedBy(states, events, i, r, states[k - 1].rooms[r]);
        assert CreatedBy(states, events, i, r, states[k].rooms[r]);
      } else {
        CreatedExactly(states[k - 1], bank, events[k - 1], r);
        assert CreatedBy(states, events, k - 1, r, states[k].rooms[r]);
      }
    }
  }

  /** No two rooms have the same code. */
  lemma {:induction false} CodesAreUnique(bank: Bank, states: seq<Db>, events: seq<Event>, k: nat, a: int, b: int)
    requires Run(bank, states, events) && k < |states|
    requires a in states[k].rooms && b in states[k].rooms && states[k].rooms[a].code == states[k].rooms[b].code
    ensures a == b
  {
    if k > 0 {
      StepIs(bank, states, events, k - 1);
      if a in states[k - 1].rooms && b in states[k - 1].rooms {
        CodesAreUnique(bank, states, events, k - 1, a, b);
      } else if a !in states[k - 1].rooms {
        CreatedExactly(states[k - 1], bank, events[k - 1], a);
        if b !in states[k - 1].rooms { CreatedExactly(states[k - 1], bank, events[k - 1], b); }
      } else {
        CreatedExactly(states[k - 1], bank, events[k - 1], b);
      }
    }
  }

  ghost predicate StartedBy(e: Event, r: int, x: Room) {
    e.call.StartRoom? && e.call.room == r && e.call.user == x.creator && x.startedAt == Some(e.call.now)
  }

  /** A room that no longer waits was started by its creator, at the time it carries. */
  lemma {:induction false} OnlyCreatorsStart(bank: Bank, states: seq<Db>, events: seq<Event>, k: nat, r: int)
    requires Run(bank, states, events) && k < |states| && r in states[k].rooms && states[k].rooms[r].status != Waiting
    ensures exists i :: 0 <= i < k && StartedBy(events[i], r, states[k].rooms[r])
  {
    if k > 0 {
      StepIs(bank, states, events, k - 1);
      if r !in states[k - 1].rooms {
        CreatedExactly(states[k - 1], bank, events[k - 1], r);
      } else if states[k - 1].rooms[r].status == Waiting {
        StartedExactly(states[k - 1], bank, events[k - 1], r);
        assert StartedBy(events[k - 1], r, states[k].rooms[r]);
      } else {
        OnlyCreatorsStart(bank, states, events, k - 1, r);
        var i :| 0 <= i < k - 1 && StartedBy(events[i], r, states[k - 1].rooms[r]);
        assert StartedBy(events[i], r, states[k].rooms[r]);
      }
    }
  }

  ghost predicate FinishedBy(e: Event, r: int, x: Room) {
    e.call.FinishRoom? && e.call.room == r && e.call.user == x.creator
  }

  /** A finished room was finished by its creator. */
  lemma {:induction false} OnlyCreatorsFinish(bank: Bank, states: seq<Db>, events: seq<Event>, k: nat, r: int)
    requires Run(bank, states, events) && k < |states| && r in states[k].rooms && states[k].rooms[r].status == Finished
    ensures exists i :: 0 <= i < k && FinishedBy(events[i], r, states[k].rooms[r])
  {
    if k > 0 {
      StepIs(bank, states, events, k - 1);
      if r !in states[k - 1].rooms {
        CreatedExactly(states[k - 1], bank, events[k - 1], r);
      } else if states[k - 1].rooms[r].status == Finished {
        OnlyCreatorsFinish(bank, states, events, k - 1, r);
        var i :| 0 <= i < k - 1 && FinishedBy(events[i], r, states[k - 1].rooms[r]);
        assert FinishedBy(events[i], r, states[k].rooms[r]);
      } else if states[k - 1].rooms[r].status == InProgress {
        FinishedExactly(states[k - 1], bank, events[k - 1], r);
        assert FinishedBy(events[k - 1], r, states[k].rooms[r]);
      } else {
        StartedExactly(states[k - 1], bank, events[k - 1], r);
      }
    }
  }

  /** Someone joined this room by a call with the password it had. */
  ghost predicate JoinedBy(s: Db, e: Event, room: int, user: int) {
    && e.call.JoinRoom? && e.call.room == room && e.call.user == user
    && room in s.rooms && s.rooms[room].pass == e.call.pass && s.rooms[room].status != Finished
  }

  /** Every participant knew the password of the room. */
  lemma {:induction false} ParticipantsKnewThePassword(bank: Bank, states: seq<Db>, events: seq<Event>, k: nat, room: int, user: int)
    requires Run(bank, states, events) && k < |states| && (room, user) in states[k].participants
    ensures exists i :: 0 <= i < k && JoinedBy(states[i], events[i], room, user)
  {
    if k > 0 {
      StepIs(bank, states, events, k - 1);
      if (room, user) in states[k - 1].participants {
        ParticipantsKnewThePassword(bank, states, events, k - 1, room, user);
      } else {
        JoinedExactly(states[k - 1], bank, events[k - 1], room, user);
        assert JoinedBy(states[k - 1], events[k - 1], room, user);
      }
    }
  }
}
