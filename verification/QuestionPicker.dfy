/** pick_questions of server/src/room.cpp: three tiers, a top-up, and a shuffled trim. */
module QuestionPicker {
  import opened Wrappers
  import opened RoomSchema

  // ---------- lists of ids ----------

  predicate Distinct(s: seq<int>) {
    forall i, j :: 0 <= i < j < |s| ==> s[i] != s[j]
  }

  function Ids(s: seq<int>): set<int> {
    set q | q in s
  }

  lemma {:induction false} DistinctSize(s: seq<int>)
    requires Distinct(s)
    ensures |Ids(s)| == |s|
  {
    if s != [] {
      var n := |s| - 1;
      DistinctSize(s[..n]);
      assert s == s[..n] + [s[n]];
      assert Ids(s) == Ids(s[..n]) + {s[n]};
      assert s[n] !in Ids(s[..n]);
    }
  }

  // ---------- what is asked for ----------

  function Wanted(st: Settings, d: Difficulty): int {
    match d
    case Easy => st.easy
    case Medium => st.medium
    case Hard => st.hard
  }

  /** The settings get_exam_paper passes on: no total means the sum, and no sum means ten questions. */
  function Effective(st: Settings): Settings {
    var total := if st.total <= 0 then st.easy + st.medium + st.hard else st.total;
    if total <= 0 then Settings(10, 4, 4, 2) else st.(total := total)
  }

  function Tier(bank: Bank, d: Difficulty): set<int> {
    set q | q in bank && bank[q].difficulty == d
  }

  /** How many of n rows a scan delivers, from row i on, before it breaks or ends. */
  function Reached(n: nat, scan: Scan, faults: Faults, i: nat): (k: nat)
    requires i <= n
    ensures i <= k <= n
    ensures forall j :: i <= j < k ==> FetchRow(scan, j) !in faults
    ensures k < n ==> FetchRow(scan, k) in faults
    decreases n - i
  {
    if i == n || FetchRow(scan, i) in faults then i else Reached(n, scan, faults, i + 1)
  }

  /** How many rows a SELECT with this limit delivers out of so many. */
  function Scanned(limit: int, size: nat, scan: Scan, faults: Faults): (k: nat)
    ensures k <= size && (k == 0 || k <= limit)
    ensures Fetch(scan) !in faults && (forall i :: FetchRow(scan, i) !in faults) && limit >= 0 ==> k == Min(limit, size)
  {
    if Fetch(scan) in faults || limit <= 0 then 0 else Reached(Min(limit, size), scan, faults, 0)
  }

  /** How many questions the fetch of one tier delivers. */
  function Got(bank: Bank, st: Settings, faults: Faults, d: Difficulty): nat {
    Scanned(Wanted(st, d), |Tier(bank, d)|, TierScan(d), faults)
  }

  function TierSum(bank: Bank, st: Settings, faults: Faults): nat {
    Got(bank, st, faults, Easy) + Got(bank, st, faults, Medium) + Got(bank, st, faults, Hard)
  }

  function PickSize(bank: Bank, st: Settings, faults: Faults): nat {
    var sum := TierSum(bank, st, faults);
    if st.total <= 0 then sum
    else if sum >= st.total then st.total
    else sum + ToppedUp(bank, st, faults)
  }

  /** How many questions the top-up delivers, if it is made at all. */
  function ToppedUp(bank: Bank, st: Settings, faults: Faults): nat {
    var sum := TierSum(bank, st, faults);
    if st.total <= 0 || sum >= st.total || sum > |bank| then 0
    else Scanned(st.total - sum, |bank| - sum, TopUpScan, faults)
  }

  function Of(bank: Bank, qs: seq<int>, d: Difficulty): set<int> {
    set q | q in qs && q in bank && bank[q].difficulty == d
  }

  /**
   The lists pick_questions may return: distinct questions of the bank, as many as can be had,
   keeping the tiers when they fit under the total and keeping to the tiers when they do not.
   */
  ghost predicate ValidPick(bank: Bank, st: Settings, faults: Faults, qs: seq<int>) {
    var sum := TierSum(bank, st, faults);
    && Distinct(qs)
    && Ids(qs) <= bank.Keys
    && |qs| == PickSize(bank, st, faults)
    && (st.total <= 0 || sum <= st.total ==> forall d :: |Of(bank, qs, d)| >= Got(bank, st, faults, d))
    && (st.total <= 0 || sum >= st.total ==> forall d :: |Of(bank, qs, d)| <= Got(bank, st, faults, d))
  }

  /** Some of these questions has options that do not parse. */
  ghost predicate Unreadable(bank: Bank, qs: set<int>) {
    exists q :: q in qs && q in bank && !bank[q].readable
  }

  function Readable(bank: Bank, qs: set<int>): set<int> {
    set q | q in qs && q in bank && bank[q].readable
  }

  /** A tier that is read holds a question whose options do not parse, or the top-up reads at all and such a question is left. */
  ghost predicate MayThrow(bank: Bank, st: Settings, faults: Faults) {
    || (exists d :: Got(bank, st, faults, d) > 0 && Unreadable(bank, Tier(bank, d)))
    || (ToppedUp(bank, st, faults) > 0 && Unreadable(bank, bank.Keys))
  }

  /** Each tier has as many questions that parse as are read from it, and the bank as many as are read in all. */
  ghost predicate MayPick(bank: Bank, st: Settings, faults: Faults) {
    && (forall d :: Got(bank, st, faults, d) <= |Readable(bank, Tier(bank, d))|)
    && TierSum(bank, st, faults) + ToppedUp(bank, st, faults) <= |Readable(bank, bank.Keys)|
  }

  // ---------- how it is done ----------

  /** SELECT ... ORDER BY RANDOM() LIMIT n; a negative limit means all rows. */
  method SelectRandom(pool: set<int>, limit: int) returns (rows: seq<int>)
    ensures Distinct(rows) && Ids(rows) <= pool
    ensures |rows| == if limit < 0 then |pool| else Min(limit, |pool|)
  {
    rows := [];
    var left := pool;
    while left != {}
      invariant Distinct(rows) && left == pool - Ids(rows) && Ids(rows) <= pool
      invariant |left| == |pool| - |rows|
      invariant limit < 0 || |rows| <= limit
      decreases |left|
    {
      if limit >= 0 && |rows| == limit { break; }
      Inhabited(left);
      var q :| q in left;
      rows := rows + [q];
      assert Ids(rows) == Ids(rows[..|rows| - 1]) + {q};
      left := left - {q};
    }
  }

  /** All of a set, in any order. */
  method InAnyOrder(all: set<int>) returns (rows: seq<int>)
    ensures Distinct(rows) && Ids(rows) == all && |rows| == |all|
  {
    rows := SelectRandom(all, -1);
    DistinctSize(rows);
    SubsetSize(Ids(rows), all);
    assert all - Ids(rows) == {};
  }

  /** std::shuffle: any permutation may come out. */
  method Shuffle(qs: seq<int>) returns (r: seq<int>)
    requires Distinct(qs)
    ensures Distinct(r) && Ids(r) == Ids(qs) && |r| == |qs|
  {
    DistinctSize(qs);
    r := InAnyOrder(Ids(qs));
  }

  /** A question whose options do not parse throws; so does everything here, then. */
  method FetchTier(bank: Bank, faults: Faults, d: Difficulty, count: int) returns (rows: seq<int>, threw: bool)
    ensures threw ==> Scanned(count, |Tier(bank, d)|, TierScan(d), faults) > 0 && Unreadable(bank, Tier(bank, d))
    ensures !threw ==>
              && Distinct(rows) && Ids(rows) <= Tier(bank, d) && !Unreadable(bank, Ids(rows))
              && |rows| == Scanned(count, |Tier(bank, d)|, TierScan(d), faults)
  {
    if count <= 0 || Fetch(TierScan(d)) in faults { return [], false; }
    rows := SelectRandom(Tier(bank, d), count);
    rows, threw := ReadRows(bank, rows, TierScan(d), faults);
  }

  /** Takes the rows one by one until the scan ends or breaks, and throws at the first whose options do not parse. */
  method ReadRows(bank: Bank, rows: seq<int>, scan: Scan, faults: Faults) returns (read: seq<int>, threw: bool)
    ensures threw ==> Reached(|rows|, scan, faults, 0) > 0 && Unreadable(bank, Ids(rows))
    ensures !threw ==> read == rows[..Reached(|rows|, scan, faults, 0)] && !Unreadable(bank, Ids(read))
  {
    var i := 0;
    read, threw := [], false;
    while i < |rows| && FetchRow(scan, i) !in faults
      invariant 0 <= i <= |rows| && read == rows[..i]
      invariant Reached(|rows|, scan, faults, 0) == Reached(|rows|, scan, faults, i)
      invariant !threw && !Unreadable(bank, Ids(read))
    {
      var q := rows[i];
      if q in bank && !bank[q].readable {
        assert q in Ids(rows);
        return read, true;
      }
      read := read + [rows[i]];
      i := i + 1;
    }
  }

  method PickQuestions(bank: Bank, st: Settings, faults: Faults) returns (qs: seq<int>, threw: bool)
    ensures threw ==> MayThrow(bank, st, faults)
    ensures !threw ==> ValidPick(bank, st, faults, qs) && !Unreadable(bank, Ids(qs)) && MayPick(bank, st, faults)
  {
    qs, threw := AddTiers(bank, st, faults);
    if threw { return; }
    ExactTiersAreValid(bank, st, faults, qs);
    assert qs + [] == qs;
    NoneThrown(bank, st, faults, qs, []);
    if st.total > 0 && |qs| < st.total {
      qs, threw := AddMissing(bank, st, faults, qs);
      if threw { return; }
    }
    if st.total > 0 && |qs| > st.total {
      ghost var tiers := qs;
      qs := Shuffle(qs);
      qs := qs[..st.total];
      FewerOfEach(bank, tiers, qs);
    }
  }

  /** The three calls of add. */
  method AddTiers(bank: Bank, st: Settings, faults: Faults) returns (qs: seq<int>, threw: bool)
    ensures threw ==> exists d :: Got(bank, st, faults, d) > 0 && Unreadable(bank, Tier(bank, d))
    ensures !threw ==> ExactTiers(bank, st, faults, qs) && !Unreadable(bank, Ids(qs))
  {
    var easy, medium, hard;
    easy, threw := FetchTier(bank, faults, Easy, st.easy);
    assert threw ==> Got(bank, st, faults, Easy) > 0 && Unreadable(bank, Tier(bank, Easy));
    if threw { return [], true; }
    medium, threw := FetchTier(bank, faults, Medium, st.medium);
    assert threw ==> Got(bank, st, faults, Medium) > 0 && Unreadable(bank, Tier(bank, Medium));
    if threw { return [], true; }
    hard, threw := FetchTier(bank, faults, Hard, st.hard);
    assert threw ==> Got(bank, st, faults, Hard) > 0 && Unreadable(bank, Tier(bank, Hard));
    if threw { return [], true; }
    qs := easy;
    qs := qs + medium;
    qs := qs + hard;
    TiersTogether(bank, easy, medium, hard);
    ReadableTogether(bank, easy, medium);
    ReadableTogether(bank, easy + medium, hard);
  }

  lemma ReadableTogether(bank: Bank, a: seq<int>, b: seq<int>)
    requires !Unreadable(bank, Ids(a)) && !Unreadable(bank, Ids(b))
    ensures !Unreadable(bank, Ids(a + b))
  {
    forall q | q in Ids(a + b) && q in bank ensures bank[q].readable {
      assert q in Ids(a) || q in Ids(b);
    }
  }

  /** SELECT ... WHERE id NOT IN (those picked) ORDER BY RANDOM() LIMIT (those missing) */
  method AddMissing(bank: Bank, st: Settings, faults: Faults, tiers: seq<int>) returns (qs: seq<int>, threw: bool)
    requires ExactTiers(bank, st, faults, tiers) && st.total > 0 && |tiers| < st.total && !Unreadable(bank, Ids(tiers))
    ensures threw ==> ToppedUp(bank, st, faults) > 0 && Unreadable(bank, bank.Keys)
    ensures !threw ==> ValidPick(bank, st, faults, qs) && !Unreadable(bank, Ids(qs)) && MayPick(bank, st, faults)
  {
    ExactTiersAreValid(bank, st, faults, tiers);
    DistinctSize(tiers);
    SubsetSize(Ids(tiers), bank.Keys);
    if Fetch(TopUpScan) in faults {
      assert tiers + [] == tiers;
      NoneThrown(bank, st, faults, tiers, []);
      return tiers, false;
    }
    var missing := st.total - |tiers|;
    var extra := SelectRandom(bank.Keys - Ids(tiers), missing);
    extra, threw := ReadRows(bank, extra, TopUpScan, faults);
    if threw { return tiers, true; }
    qs := tiers + extra;
    MoreKeepsTiers(bank, tiers, extra);
    ExactTiersCover(bank, st, faults, tiers);
    ReadableTogether(bank, tiers, extra);
    NoneThrown(bank, st, faults, tiers, extra);
  }

  /** What has been read without an exception shows that there was enough to read. */
  lemma NoneThrown(bank: Bank, st: Settings, faults: Faults, tiers: seq<int>, extra: seq<int>)
    requires ExactTiers(bank, st, faults, tiers) && !Unreadable(bank, Ids(tiers))
    requires Distinct(tiers + extra) && Ids(tiers + extra) <= bank.Keys && !Unreadable(bank, Ids(tiers + extra))
    ensures |extra| >= ToppedUp(bank, st, faults) ==> MayPick(bank, st, faults)
  {
    ExactTiersCover(bank, st, faults, tiers);
    forall d ensures Got(bank, st, faults, d) <= |Readable(bank, Tier(bank, d))| {
      forall q | q in Of(bank, tiers, d) ensures q in Readable(bank, Tier(bank, d)) { assert q in Ids(tiers); }
      SubsetSize(Of(bank, tiers, d), Readable(bank, Tier(bank, d)));
    }
    DistinctSize(tiers + extra);
    forall q | q in Ids(tiers + extra) ensures q in Readable(bank, bank.Keys) {}
    SubsetSize(Ids(tiers + extra), Readable(bank, bank.Keys));
  }

  lemma ExactTiersCover(bank: Bank, st: Settings, faults: Faults, qs: seq<int>)
    requires ExactTiers(bank, st, faults, qs)
    ensures forall d :: |Of(bank, qs, d)| == Got(bank, st, faults, d)
  {
    forall d ensures |Of(bank, qs, d)| == Got(bank, st, faults, d) {
      assert d.Easy? || d.Medium? || d.Hard?;
    }
  }

  lemma ExactTiersAreValid(bank: Bank, st: Settings, faults: Faults, qs: seq<int>)
    requires ExactTiers(bank, st, faults, qs)
    ensures forall d :: |Of(bank, qs, d)| == Got(bank, st, faults, d)
    ensures st.total <= 0 || |qs| == st.total || (|qs| < st.total && Fetch(TopUpScan) in faults) ==> ValidPick(bank, st, faults, qs)
  {
    ExactTiersCover(bank, st, faults, qs);
  }

  /** The list before topping up and trimming: each tier delivered what it could. */
  ghost predicate ExactTiers(bank: Bank, st: Settings, faults: Faults, qs: seq<int>) {
    && Distinct(qs) && Ids(qs) <= bank.Keys
    && |qs| == TierSum(bank, st, faults)
    && |Of(bank, qs, Easy)| == Got(bank, st, faults, Easy)
    && |Of(bank, qs, Medium)| == Got(bank, st, faults, Medium)
    && |Of(bank, qs, Hard)| == Got(bank, st, faults, Hard)
  }

  lemma DistinctConcat(a: seq<int>, b: seq<int>)
    requires Distinct(a) && Distinct(b) && Ids(a) !! Ids(b)
    ensures Distinct(a + b) && Ids(a + b) == Ids(a) + Ids(b)
  {
    forall i, j | 0 <= i < j < |a + b| ensures (a + b)[i] != (a + b)[j] {
      if i < |a| <= j {
        assert (a + b)[i] in Ids(a) && (a + b)[j] in Ids(b);
      }
    }
  }

  lemma TiersTogether(bank: Bank, easy: seq<int>, medium: seq<int>, hard: seq<int>)
    requires Distinct(easy) && Ids(easy) <= Tier(bank, Easy)
    requires Distinct(medium) && Ids(medium) <= Tier(bank, Medium)
    requires Distinct(hard) && Ids(hard) <= Tier(bank, Hard)
    ensures var qs := easy + medium + hard;
            && Distinct(qs) && Ids(qs) <= bank.Keys
            && |Of(bank, qs, Easy)| == |easy| && |Of(bank, qs, Medium)| == |medium| && |Of(bank, qs, Hard)| == |hard|
  {
    DistinctConcat(easy, medium);
    DistinctConcat(easy + medium, hard);
    var qs := easy + medium + hard;
    assert forall q :: q in qs ==> q in easy || q in medium || q in hard;
    assert forall q :: q in easy ==> q in Ids(easy) && q in Tier(bank, Easy);
    assert forall q :: q in medium ==> q in Ids(medium) && q in Tier(bank, Medium);
    assert forall q :: q in hard ==> q in Ids(hard) && q in Tier(bank, Hard);
    OnlyThatTier(bank, qs, easy, Easy);
    OnlyThatTier(bank, qs, medium, Medium);
    OnlyThatTier(bank, qs, hard, Hard);
  }

  lemma OnlyThatTier(bank: Bank, qs: seq<int>, part: seq<int>, d: Difficulty)
    requires Distinct(part) && Ids(part) <= Tier(bank, d) && Ids(part) <= Ids(qs)
    requires forall q :: q in qs && q !in part ==> q in bank && bank[q].difficulty != d
    ensures |Of(bank, qs, d)| == |part|
  {
    assert forall q :: q in part <==> q in Ids(part);
    assert forall q :: q in qs <==> q in Ids(qs);
    forall q ensures q in Of(bank, qs, d) <==> q in Ids(part) {
      if q in Ids(part) { assert q in Ids(qs) && q in Tier(bank, d); }
    }
    assert Of(bank, qs, d) == Ids(part);
    DistinctSize(part);
  }

  lemma MoreKeepsTiers(bank: Bank, qs: seq<int>, extra: seq<int>)
    requires Distinct(qs) && Distinct(extra) && Ids(extra) <= bank.Keys - Ids(qs) && Ids(qs) <= bank.Keys
    ensures Distinct(qs + extra) && Ids(qs + extra) <= bank.Keys
    ensures forall d :: |Of(bank, qs + extra, d)| >= |Of(bank, qs, d)|
  {
    DistinctConcat(qs, extra);
    forall d ensures |Of(bank, qs + extra, d)| >= |Of(bank, qs, d)| {
      SubsetSize(Of(bank, qs, d), Of(bank, qs + extra, d));
    }
  }

  lemma FewerOfEach(bank: Bank, before: seq<int>, after: seq<int>)
    requires Ids(after) <= Ids(before) <= bank.Keys
    ensures Ids(after) <= bank.Keys
    ensures forall d :: |Of(bank, after, d)| <= |Of(bank, before, d)|
  {
    assert forall q :: q in after ==> q in Ids(after);
    assert forall q :: q in Ids(before) ==> q in before;
    forall d ensures |Of(bank, after, d)| <= |Of(bank, before, d)| {
      SubsetSize(Of(bank, after, d), Of(bank, before, d));
    }
  }

  // ---------- what it is worth ----------

  /** A list has at least n questions of a difficulty, or all there are. */
  predicate HasAtLeast(bank: Bank, qs: seq<int>, d: Difficulty, n: int) {
    |set q | q in qs && q in bank && bank[q].difficulty == d| >= Min(n, |set q | q in bank && bank[q].difficulty == d|)
  }

  predicate HasExactly(bank: Bank, qs: seq<int>, d: Difficulty, n: int) {
    |set q | q in qs && q in bank && bank[q].difficulty == d| == n
  }

  predicate HasQuotas(bank: Bank, qs: seq<int>, easy: int, medium: int, hard: int) {
    HasAtLeast(bank, qs, Easy, easy) && HasAtLeast(bank, qs, Medium, medium) && HasAtLeast(bank, qs, Hard, hard)
  }

  /**
   What a room is promised for the settings it was created with: as many different questions as its total says,
   or without a total as its counts say together, or without counts ten; as far as the bank goes.
   The counts are honoured where they are not negative and fit under the total; without counts they are 4, 4 and 2.
   */
  predicate AsAsked(bank: Bank, st: Settings, qs: seq<int>) {
    var sum := st.easy + st.medium + st.hard;
    var total := if st.total > 0 then st.total else if sum > 0 then sum else 10;
    && Distinct(qs) && Ids(qs) <= bank.Keys
    && |qs| == Min(total, |bank|)
    && (st.total <= 0 && sum <= 0 ==> HasQuotas(bank, qs, 4, 4, 2))
    && (sum > 0 && sum <= total && st.easy >= 0 && st.medium >= 0 && st.hard >= 0 ==> HasQuotas(bank, qs, st.easy, st.medium, st.hard))
  }

  /** What is picked without failing statements is what the room was promised. */
  lemma PickedAsAsked(bank: Bank, st: Settings, qs: seq<int>)
    requires ValidPick(bank, Effective(st), {}, qs)
    ensures AsAsked(bank, st, qs)
  {
    PaperSizeIsExact(bank, st, qs);
    var used := Effective(st);
    if used.easy >= 0 && used.medium >= 0 && used.hard >= 0 && used.easy + used.medium + used.hard <= used.total {
      QuotasSurvive(bank, used, qs);
    }
  }

  /** Whatever the room's settings, a picked paper has exactly the questions they ask for or all there are, all different. */
  lemma PaperSizeIsExact(bank: Bank, st: Settings, qs: seq<int>)
    requires ValidPick(bank, Effective(st), {}, qs)
    ensures Distinct(qs) && |Ids(qs)| == |qs|
    ensures st.total > 0 ==> |qs| == Min(st.total, |bank|)
    ensures st.total <= 0 < st.easy + st.medium + st.hard ==> |qs| == Min(st.easy + st.medium + st.hard, |bank|)
    ensures st.total <= 0 && st.easy + st.medium + st.hard <= 0 ==> |qs| == Min(10, |bank|)
    ensures |qs| > 0 <==> bank != map[]
  {
    DistinctSize(qs);
    TiersFitTheBank(bank, Effective(st), {});
  }

  /** Even with failing statements no more is picked, and something is picked if any statement delivers. */
  lemma FaultsOnlyShorten(bank: Bank, st: Settings, faults: Faults, qs: seq<int>)
    requires ValidPick(bank, Effective(st), faults, qs)
    ensures var sum := st.easy + st.medium + st.hard;
            |qs| <= Min(if st.total > 0 then st.total else if sum > 0 then sum else 10, |bank|)
    ensures qs == [] ==> bank == map[] || Fetch(TopUpScan) in faults || FetchRow(TopUpScan, 0) in faults
  {
    TiersFitTheBank(bank, Effective(st), faults);
  }

  lemma TiersFitTheBank(bank: Bank, st: Settings, faults: Faults)
    ensures TierSum(bank, st, faults) <= |bank|
  {
    assert bank.Keys == Tier(bank, Easy) + Tier(bank, Medium) + Tier(bank, Hard) by {
      forall q | q in bank ensures q in Tier(bank, Easy) + Tier(bank, Medium) + Tier(bank, Hard) {
        var d := bank[q].difficulty;
        assert d.Easy? || d.Medium? || d.Hard?;
      }
    }
  }

  lemma OfDifficulty(bank: Bank, qs: seq<int>, d: Difficulty)
    ensures (set q | q in qs && q in bank && bank[q].difficulty == d) == Of(bank, qs, d)
    ensures (set q | q in bank && bank[q].difficulty == d) == Tier(bank, d)
  {
  }

  /** Non-negative counts that fit under the total are honoured as far as the bank allows. */
  lemma QuotasSurvive(bank: Bank, st: Settings, qs: seq<int>)
    requires ValidPick(bank, st, {}, qs)
    requires st.easy >= 0 && st.medium >= 0 && st.hard >= 0
    requires 0 < st.total && st.easy + st.medium + st.hard <= st.total
    ensures HasQuotas(bank, qs, st.easy, st.medium, st.hard)
  {
    forall d { OfDifficulty(bank, qs, d); }
    assert Got(bank, st, {}, Easy) == Min(st.easy, |Tier(bank, Easy)|);
    assert Got(bank, st, {}, Medium) == Min(st.medium, |Tier(bank, Medium)|);
    assert Got(bank, st, {}, Hard) == Min(st.hard, |Tier(bank, Hard)|);
  }

  /** When they add up to the total and every tier has enough, they are met exactly. */
  lemma QuotasAreExact(bank: Bank, st: Settings, qs: seq<int>)
    requires ValidPick(bank, st, {}, qs)
    requires st.easy >= 0 && st.medium >= 0 && st.hard >= 0
    requires 0 < st.total == st.easy + st.medium + st.hard
    requires st.easy <= |set q | q in bank && bank[q].difficulty == Easy|
    requires st.medium <= |set q | q in bank && bank[q].difficulty == Medium|
    requires st.hard <= |set q | q in bank && bank[q].difficulty == Hard|
    ensures HasExactly(bank, qs, Easy, st.easy) && HasExactly(bank, qs, Medium, st.medium) && HasExactly(bank, qs, Hard, st.hard)
  {
    forall d { OfDifficulty(bank, qs, d); }
    assert Got(bank, st, {}, Easy) == st.easy && Got(bank, st, {}, Medium) == st.medium && Got(bank, st, {}, Hard) == st.hard;
    forall d ensures |Of(bank, qs, d)| == Got(bank, st, {}, d) {}
  }

  /** When the tiers deliver the total or more, no difficulty is on the paper beyond its count. */
  lemma OvershootKeepsToTheTiers(bank: Bank, st: Settings, faults: Faults, qs: seq<int>)
    requires ValidPick(bank, st, faults, qs)
    requires 0 < st.total <= TierSum(bank, st, faults)
    ensures |qs| == st.total
    ensures |set q | q in qs && q in bank && bank[q].difficulty == Easy| <= (if st.easy <= 0 then 0 else st.easy)
    ensures |set q | q in qs && q in bank && bank[q].difficulty == Medium| <= (if st.medium <= 0 then 0 else st.medium)
    ensures |set q | q in qs && q in bank && bank[q].difficulty == Hard| <= (if st.hard <= 0 then 0 else st.hard)
  {
    forall d { OfDifficulty(bank, qs, d); }
    forall d ensures |Of(bank, qs, d)| <= Got(bank, st, faults, d) {}
    assert |Of(bank, qs, Easy)| <= Got(bank, st, faults, Easy) && |Of(bank, qs, Medium)| <= Got(bank, st, faults, Medium);
    assert |Of(bank, qs, Hard)| <= Got(bank, st, faults, Hard);
  }
}
