/**
 What an exception does that leaves get_exam_paper inside its transaction: the transaction stays open,
 every later BEGIN IMMEDIATE fails, and nobody is handed a paper any more.
 */
module RoomStuck {
  import opened RoomSchema
  import opened QuestionPicker
  import opened RoomSpec
  import opened RoomMoves
  import opened RoomRuns
  import opened RoomPapers
  import opened SecondPaper
  import Draws
  import Wrappers

  // ---------- one call ----------

  /** The call gets as far as pick_questions: nothing failed before, and no paper was found. */
  ghost predicate Picking(s: Db, bank: Bank, c: Call, faults: Faults)
    requires c.GetPaper?
  {
    Opening(s, bank, c, faults).1.Some?
  }

  /** What the call asks pick_questions for. */
  function Asked(s: Db, c: Call): Settings
    requires c.GetPaper? && c.room in s.rooms
  {
    Effective(s.rooms[c.room].settings)
  }

  ghost predicate MightThrow(s: Db, bank: Bank, c: Call, faults: Faults)
    requires c.GetPaper?
  {
    Picking(s, bank, c, faults) && MayThrow(bank, Asked(s, c), faults)
  }

  ghost predicate MustThrow(s: Db, bank: Bank, c: Call, faults: Faults)
    requires c.GetPaper?
  {
    Picking(s, bank, c, faults) && !MayPick(bank, Asked(s, c), faults)
  }

  /** Loading never throws, for no question whose options do not parse is on a paper; so a call throws just when its picking does. */
  lemma OnlyPickingThrows(s: Db, bank: Bank, c: Call, faults: Faults)
    requires c.GetPaper? && PapersInv(s, bank)
    ensures Throws(s, bank, c, faults) <==> Picking(s, bank, c, faults) && c.thrown
  {
    if MayAsk(s, c.room, c.user, faults) {
      var (s1, id) := EnsureExam(s, c.room, c.user, c.now, c.now + s.rooms[c.room].duration, faults);
      if id.Some? { PapersAreReadable(s, s1, bank, id.value); }
    }
  }

  lemma PapersAreReadable(s: Db, s1: Db, bank: Bank, id: int)
    requires PapersInv(s, bank) && s1.papers == s.papers
    ensures !Unreadable(bank, OnPaper(s1, bank, id))
  {
    forall q | q in OnPaper(s1, bank, id) ensures bank[q].readable {
      var k := (id, q);
      assert k in s.papers;
    }
  }

  /** The call with another outcome of pick_questions. */
  function With(c: Call, drawn: seq<int>, thrown: bool): Call
    requires c.GetPaper?
  {
    c.(drawn := drawn, thrown := thrown)
  }

  lemma PickingIsBeforehand(s: Db, bank: Bank, c: Call, faults: Faults, drawn: seq<int>, thrown: bool)
    requires c.GetPaper?
    ensures Picking(s, bank, With(c, drawn, thrown), faults) <==> Picking(s, bank, c, faults)
  {
  }

  ghost predicate CanEnd(s: Db, bank: Bank, c: Call, faults: Faults, drawn: seq<int>, thrown: bool, throws: bool)
    requires c.GetPaper?
  {
    Plausible(s, bank, Event(With(c, drawn, thrown), faults)) && (Throws(s, bank, With(c, drawn, thrown), faults) <==> throws)
  }

  /** Whether a call can end in an exception is decided by the tables, the bank and the faults before it picks. */
  lemma CanThrowExactly(s: Db, bank: Bank, c: Call, faults: Faults)
    requires c.GetPaper? && PapersInv(s, bank)
    ensures (exists drawn, thrown :: CanEnd(s, bank, c, faults, drawn, thrown, true)) <==> MightThrow(s, bank, c, faults)
  {
    if MightThrow(s, bank, c, faults) {
      PickingIsBeforehand(s, bank, c, faults, [], true);
      OnlyPickingThrows(s, bank, With(c, [], true), faults);
      assert CanEnd(s, bank, c, faults, [], true, true);
    }
    if drawn, thrown :| CanEnd(s, bank, c, faults, drawn, thrown, true) {
      PickingIsBeforehand(s, bank, c, faults, drawn, thrown);
      OnlyPickingThrows(s, bank, With(c, drawn, thrown), faults);
    }
  }

  /** ... and so is whether it can end without one. */
  lemma CanReturnExactly(s: Db, bank: Bank, c: Call, faults: Faults)
    requires c.GetPaper? && PapersInv(s, bank)
    ensures (exists drawn, thrown :: CanEnd(s, bank, c, faults, drawn, thrown, false)) <==> !MustThrow(s, bank, c, faults)
  {
    if !MustThrow(s, bank, c, faults) {
      var drawn := [];
      if Picking(s, bank, c, faults) { drawn := Draws.PickExists(bank, Asked(s, c), faults); }
      PickingIsBeforehand(s, bank, c, faults, drawn, false);
      OnlyPickingThrows(s, bank, With(c, drawn, false), faults);
      assert CanEnd(s, bank, c, faults, drawn, false, false);
    }
    if drawn, thrown :| CanEnd(s, bank, c, faults, drawn, thrown, false) {
      PickingIsBeforehand(s, bank, c, faults, drawn, thrown);
      OnlyPickingThrows(s, bank, With(c, drawn, thrown), faults);
    }
  }

  // ---------- runs ----------

  /** Which calls leave a transaction open: only those that might throw, and all those that must. Nothing closes it. */
  lemma OpenStaysAt(bank: Bank, states: seq<Db>, events: seq<Event>, k: nat)
    requires Run(bank, states, events) && k < |events|
    ensures var s, s', c, faults := states[k], states[k + 1], events[k].call, events[k].faults;
            && (s.open ==> s'.open && !Issues(s, bank, events[k]))
            && (s'.open ==> s.open || (c.GetPaper? && MightThrow(s, bank, c, faults)))
            && (c.GetPaper? && MustThrow(s, bank, c, faults) ==> s'.open)
            && (s'.open <==> s.open || (c.GetPaper? && Picking(s, bank, c, faults) && c.thrown))
  {
    StepMoves(bank, states, events, k);
    RunKeepsPapersInv(bank, states, events, k);
    if events[k].call.GetPaper? { OnlyPickingThrows(states[k], bank, events[k].call, events[k].faults); }
  }

  /** Once a call has thrown out of its transaction, no paper is issued in the rest of the run, to anybody in any room. */
  lemma {:induction false} NoPaperAfterAThrow(bank: Bank, states: seq<Db>, events: seq<Event>, i: nat, j: nat)
    requires Run(bank, states, events) && i <= j < |states| && states[i].open
    ensures states[j].open
    ensures j < |events| ==> !Issues(states[j], bank, events[j])
    decreases j
  {
    if i < j {
      NoPaperAfterAThrow(bank, states, events, i, j - 1);
      OpenStaysAt(bank, states, events, j - 1);
    }
    if j < |events| { OpenStaysAt(bank, states, events, j); }
  }

  /** With a bank whose options all parse, no transaction is ever left open. */
  lemma {:induction false} ReadableBankNeverThrows(bank: Bank, states: seq<Db>, events: seq<Event>, k: nat)
    requires Run(bank, states, events) && k < |states| && !Unreadable(bank, bank.Keys)
    ensures !states[k].open
  {
    if k > 0 {
      ReadableBankNeverThrows(bank, states, events, k - 1);
      OpenStaysAt(bank, states, events, k - 1);
      NothingThrows(bank);
    }
  }

  lemma NothingThrows(bank: Bank)
    requires !Unreadable(bank, bank.Keys)
    ensures forall st, faults :: !MayThrow(bank, st, faults)
  {
    forall d ensures !Unreadable(bank, Tier(bank, d)) {}
  }

  // ---------- any bad question, some room ----------

  /** Settings that ask for the whole bank, and for no tier. */
  function Everything(bank: Bank): Settings {
    Settings(|bank|, 0, 0, 0)
  }

  /** A room that asks for the whole bank cannot be served as soon as one question does not parse. */
  lemma EverythingThrows(bank: Bank)
    requires Unreadable(bank, bank.Keys)
    ensures MayThrow(bank, Effective(Everything(bank)), {}) && !MayPick(bank, Effective(Everything(bank)), {})
  {
    var q :| q in bank && !bank[q].readable;
    Wrappers.SubsetSize({q}, bank.Keys);
    assert TierSum(bank, Everything(bank), {}) == 0;
    assert ToppedUp(bank, Everything(bank), {}) == |bank|;
    assert Readable(bank, bank.Keys) <= bank.Keys - {q};
    Wrappers.SubsetSize(Readable(bank, bank.Keys), bank.Keys - {q});
  }

  lemma FirstPaperPicks(bank: Bank, st: Settings)
    ensures Picking(BeforeWith(st), bank, GetPaper(1, 9, 20, [], true), {})
    ensures Asked(BeforeWith(st), GetPaper(1, 9, 20, [], true)) == Effective(st)
  {
    FirstRow(st);
    assert OnPaper(EmptyWith(st), bank, 1) == {};
  }

  ghost predicate Sticks(bank: Bank, states: seq<Db>, events: seq<Event>) {
    && Run(bank, states, events) && |events| == 4
    && (forall i :: 0 <= i < 4 ==> events[i].faults == {})
    && states[4].open
  }

  /** No statement has to fail for that, and the first paper asked for may do it, whichever bank has a question that does not parse. */
  lemma AnyBadQuestionSticks(bank: Bank)
    requires Unreadable(bank, bank.Keys)
    ensures exists states: seq<Db>, events: seq<Event> :: Sticks(bank, states, events)
  {
    var st := Everything(bank);
    var states, events := OpenedRun(bank, st);
    EverythingThrows(bank);
    FirstPaperPicks(bank, st);
    states, events := RunSnoc(bank, states, events, Event(GetPaper(1, 9, 20, [], true), {}));
    OpenStaysAt(bank, states, events, 3);
    assert Sticks(bank, states, events);
  }

  ghost predicate NeverSticks(bank: Bank) {
    forall states: seq<Db>, events: seq<Event>, k: nat :: Run(bank, states, events) && k < |states| ==> !states[k].open
  }

  /** A bank keeps the server handing out papers in every run exactly when the options of all its questions parse. */
  lemma SticksExactly(bank: Bank)
    ensures NeverSticks(bank) <==> !Unreadable(bank, bank.Keys)
  {
    if Unreadable(bank, bank.Keys) {
      AnyBadQuestionSticks(bank);
      var states: seq<Db>, events: seq<Event> :| Sticks(bank, states, events);
      assert Run(bank, states, events) && states[4].open;
    } else {
      forall states: seq<Db>, events: seq<Event>, k: nat | Run(bank, states, events) && k < |states| ensures !states[k].open {
        ReadableBankNeverThrows(bank, states, events, k);
      }
    }
  }
}
