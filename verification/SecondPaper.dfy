/**
 A run in which one student is handed two papers in one room: the SELECT that should have found
 the first paper fails in the second call, and the failure reads as an empty result.
 */
module SecondPaper {
  import opened Wrappers
  import opened RoomSchema
  import opened QuestionPicker
  import opened RoomSpec
  import opened RoomMoves
  import opened RoomRuns

  function TwoQuestions(): Bank {
    map[1 := Question(Easy, "A", true), 2 := Question(Easy, "B", true)]
  }

  function OneEasy(): Settings {
    Settings(1, 1, 0, 0)
  }

  function TheRoom(st: Settings, status: Status, startedAt: Option<nat>): Room {
    Room((5, 7), 60, st, status, "", 7, startedAt)
  }

  function Tables(rooms: map<int, Room>, joined: set<(int, int)>, exams: map<int, Exam>, papers: map<(int, int), int>): Db {
    Db(rooms, joined, exams, papers, map[], map[], |rooms| + 1, |exams| + 1, false)
  }

  /** A room with these settings is in progress, and one student has joined it. */
  function BeforeWith(st: Settings): Db {
    Tables(map[1 := TheRoom(st, InProgress, Some(10))], {(1, 9)}, map[], map[])
  }

  function Before(): Db {
    BeforeWith(OneEasy())
  }

  function TheExam(): map<int, Exam> {
    map[1 := Exam(1, 9, 20, 80, 1, None)]
  }

  function FirstGiven(): Db {
    Tables(Before().rooms, {(1, 9)}, TheExam(), map[(1, 1) := 1])
  }

  lemma RoomIsOpened(bank: Bank, st: Settings)
    ensures var s0 := Tables(map[], {}, map[], map[]);
            var s1 := Tables(map[1 := TheRoom(st, Waiting, None)], {}, map[], map[]);
            var s2 := s1.(participants := {(1, 9)});
            && Next(s0, bank, Event(Call.CreateRoom(7, "", 60, st, 5), {})) == s1
            && Next(s1, bank, Event(Call.JoinRoom(1, 9, ""), {})) == s2
            && Next(s2, bank, Event(Call.StartRoom(1, 7, 10), {})) == BeforeWith(st)
  {
    var s0 := Tables(map[], {}, map[], map[]);
    assert !CodeTaken(s0, (5, 7));
    var s1 := Tables(map[1 := TheRoom(st, Waiting, None)], {}, map[], map[]);
    assert Next(s0, bank, Event(Call.CreateRoom(7, "", 60, st, 5), {})) == s1;
    var s2 := s1.(participants := {(1, 9)});
    assert Next(s1, bank, Event(Call.JoinRoom(1, 9, ""), {})) == s2;
  }

  lemma BothAreReadable(faults: Faults)
    requires faults <= {LoadPaper, Commit}
    ensures MayPick(TwoQuestions(), Effective(OneEasy()), faults)
  {
    var bank := TwoQuestions();
    assert Tier(bank, Easy) == {1, 2} && Readable(bank, {1, 2}) == {1, 2} && bank.Keys == {1, 2};
    forall d ensures Got(bank, OneEasy(), faults, d) <= |Readable(bank, Tier(bank, d))| {
      assert d.Easy? || d.Medium? || d.Hard?;
    }
  }

  /** Either question alone is a paper pick_questions may pick. */
  lemma OneIsPicked(q: int, faults: Faults)
    requires q in TwoQuestions() && faults <= {LoadPaper, Commit}
    ensures ValidPick(TwoQuestions(), Effective(OneEasy()), faults, [q])
    ensures !Unreadable(TwoQuestions(), Ids([q])) && MayPick(TwoQuestions(), Effective(OneEasy()), faults)
  {
    BothAreReadable(faults);
    var bank := TwoQuestions();
    assert Tier(bank, Easy) == {1, 2};
    assert Of(bank, [q], Easy) == {q} && Of(bank, [q], Medium) == {} && Of(bank, [q], Hard) == {};
    forall d ensures |Of(bank, [q], d)| == Got(bank, OneEasy(), faults, d) {
      assert d.Easy? || d.Medium? || d.Hard?;
    }
  }

  lemma PickIsPlausible(s: Db, bank: Bank, e: Event, settings: Settings)
    requires e.call.GetPaper? && !e.call.thrown && e.call.room in s.rooms && s.rooms[e.call.room].settings == settings
    requires MayPick(bank, Effective(settings), e.faults)
    requires ValidPick(bank, Effective(settings), e.faults, e.call.drawn) && !Unreadable(bank, Ids(e.call.drawn))
    ensures Plausible(s, bank, e)
  {
  }

  function EmptyWith(st: Settings): Db {
    Tables(BeforeWith(st).rooms, {(1, 9)}, map[1 := Exam(1, 9, 20, 80, 0, None)], map[])
  }

  function FirstEmpty(): Db {
    EmptyWith(OneEasy())
  }

  lemma FirstOpens()
    ensures Opening(Before(), TwoQuestions(), GetPaper(1, 9, 20, [1], false), {}) == (FirstEmpty(), Some(1))
  {
    FirstRow(OneEasy());
    assert OnPaper(FirstEmpty(), TwoQuestions(), 1) == {};
  }

  lemma FirstRow(st: Settings)
    ensures MayAsk(BeforeWith(st), 1, 9, {}) && BeforeWith(st).rooms[1].duration == 60
    ensures EnsureExam(BeforeWith(st), 1, 9, 20, 80, {}) == (EmptyWith(st), Some(1))
  {
    assert !HasExam(BeforeWith(st), 1, 9);
  }

  lemma FirstTables()
    ensures PaperSucceeds(Before(), TwoQuestions(), GetPaper(1, 9, 20, [1], false), {})
    ensures AfterGetPaper(Before(), TwoQuestions(), GetPaper(1, 9, 20, [1], false), {}) == FirstGiven()
  {
    FirstOpens();
    SavesOne(map[], 1, 1, {});
    OneRow(map[], 1, 1);
    var exams := FirstEmpty().exams;
    assert exams[1 := exams[1].(total := 1)] == TheExam();
  }

  lemma FirstIsPlausible()
    ensures Plausible(Before(), TwoQuestions(), Event(GetPaper(1, 9, 20, [1], false), {}))
  {
    OneIsPicked(1, {});
    PickIsPlausible(Before(), TwoQuestions(), Event(GetPaper(1, 9, 20, [1], false), {}), OneEasy());
  }

  lemma FirstIsGiven()
    ensures var e := Event(GetPaper(1, 9, 20, [1], false), {});
            && Issues(Before(), TwoQuestions(), e)
            && Next(Before(), TwoQuestions(), e) == FirstGiven()
  {
    FirstTables();
  }

  lemma OneRow(papers: map<(int, int), int>, exam: int, q: int)
    ensures WithPaper(papers, exam, [q]) == papers[(exam, q) := 1]
  {
    assert [q][..0] == [];
    assert WithPaper(papers, exam, [q][..0]) == papers;
  }

  lemma SecondRow()
    ensures MayAsk(FirstGiven(), 1, 9, {LoadPaper}) && FirstGiven().rooms[1].duration == 60
    ensures EnsureExam(FirstGiven(), 1, 9, 30, 90, {LoadPaper}) == (FirstGiven(), Some(1))
  {
    assert IsExamOf(FirstGiven(), 1, 1, 9);
    assert ExamId(FirstGiven(), 1, 9) == 1;
  }

  lemma SecondOpens()
    ensures Opening(FirstGiven(), TwoQuestions(), GetPaper(1, 9, 30, [2], false), {LoadPaper}) == (FirstGiven(), Some(1))
  {
    SecondRow();
  }

  lemma SecondIsPlausible()
    ensures Plausible(FirstGiven(), TwoQuestions(), Event(GetPaper(1, 9, 30, [2], false), {LoadPaper}))
  {
    OneIsPicked(2, {LoadPaper});
    PickIsPlausible(FirstGiven(), TwoQuestions(), Event(GetPaper(1, 9, 30, [2], false), {LoadPaper}), OneEasy());
  }

  lemma SecondIsGiven()
    ensures Issues(FirstGiven(), TwoQuestions(), Event(GetPaper(1, 9, 30, [2], false), {LoadPaper}))
  {
    SecondOpens();
    SavesOne(FirstGiven().papers, 1, 2, {LoadPaper});
  }

  lemma SavesOne(papers: map<(int, int), int>, exam: int, q: int, faults: Faults)
    requires (exam, q) !in papers && faults <= {LoadPaper}
    ensures SaveSucceeds(papers, exam, [q], faults)
  {
  }

  lemma RunSnoc(bank: Bank, states: seq<Db>, events: seq<Event>, e: Event) returns (more: seq<Db>, all: seq<Event>)
    requires Run(bank, states, events) && Plausible(states[|events|], bank, e)
    ensures Run(bank, more, all) && |all| == |events| + 1
    ensures states <= more && more[|all|] == Next(states[|events|], bank, e)
    ensures events <= all && all[|events|] == e
  {
    var s := states[|events|];
    more, all := Appended(bank, states, events, e, s, Next(s, bank, e));
  }

  lemma Appended(bank: Bank, states: seq<Db>, events: seq<Event>, e: Event, s: Db, s': Db) returns (more: seq<Db>, all: seq<Event>)
    requires Run(bank, states, events) && s == states[|events|] && IsStep(bank, s, e, s')
    ensures Run(bank, more, all) && more == states + [s'] && all == events + [e]
  {
    more, all := states + [s'], events + [e];
    forall i | 0 <= i < |all| ensures StepAt(bank, more, all, i) {
      if i < |events| {
        StepOfPrefix(bank, states, events, more, all, i);
      } else {
        assert more[i] == s && more[i + 1] == s' && all[i] == e;
      }
    }
  }

  lemma StepOfPrefix(bank: Bank, states: seq<Db>, events: seq<Event>, more: seq<Db>, all: seq<Event>, i: nat)
    requires Run(bank, states, events) && i < |events| && states <= more && events <= all && |more| == |all| + 1
    ensures StepAt(bank, more, all, i)
  {
    assert StepAt(bank, states, events, i);
    assert more[i] == states[i] && more[i + 1] == states[i + 1] && all[i] == events[i];
  }

  lemma OpenedRun(bank: Bank, st: Settings) returns (states: seq<Db>, events: seq<Event>)
    ensures Run(bank, states, events) && |events| == 3 && states[3] == BeforeWith(st)
    ensures forall i :: 0 <= i < 3 ==> events[i].faults == {}
  {
    RoomIsOpened(bank, st);
    states, events := [Tables(map[], {}, map[], map[])], [];
    states, events := RunSnoc(bank, states, events, Event(Call.CreateRoom(7, "", 60, st, 5), {}));
    states, events := RunSnoc(bank, states, events, Event(Call.JoinRoom(1, 9, ""), {}));
    states, events := RunSnoc(bank, states, events, Event(Call.StartRoom(1, 7, 10), {}));
  }

  ghost predicate GivesTwo(bank: Bank, states: seq<Db>, events: seq<Event>) {
    && Run(bank, states, events) && |events| == 5
    && Issues(states[3], bank, events[3]) && Issues(states[4], bank, events[4])
    && events[3].call.room == events[4].call.room && events[3].call.user == events[4].call.user
  }

  /** At most one paper per student and room is false of the code as soon as a SELECT may fail. */
  lemma TwoPapersForOneStudent()
    ensures exists states: seq<Db>, events: seq<Event> :: GivesTwo(TwoQuestions(), states, events)
  {
    var states, events := OpenedRun(TwoQuestions(), OneEasy());
    FirstIsPlausible();
    FirstIsGiven();
    states, events := RunSnoc(TwoQuestions(), states, events, Event(GetPaper(1, 9, 20, [1], false), {}));
    SecondIsPlausible();
    SecondIsGiven();
    states, events := RunSnoc(TwoQuestions(), states, events, Event(GetPaper(1, 9, 30, [2], false), {LoadPaper}));
    assert GivesTwo(TwoQuestions(), states, events);
  }
}
