/**
 Exactly when pick_questions can throw, and exactly when it can do without: what its four SELECTs may
 deliver is a draw, and a draw throws over a question whose options do not parse.
 */
module Draws {
  import opened Wrappers
  import opened RoomSchema
  import opened QuestionPicker

  /** The rows delivered by the fetch of each tier, and by the top-up. */
  datatype Draw = Draw(easy: seq<int>, medium: seq<int>, hard: seq<int>, extra: seq<int>)

  /** n different rows of a pool. */
  ghost predicate Rows(rows: seq<int>, pool: set<int>, n: nat) {
    Distinct(rows) && Ids(rows) <= pool && |rows| == n
  }

  function Tiers(w: Draw): seq<int> {
    w.easy + w.medium + w.hard
  }

  /** Each SELECT is ORDER BY RANDOM(), so any rows of its pool may come; the top-up leaves out what the tiers gave. */
  ghost predicate IsDraw(bank: Bank, st: Settings, faults: Faults, w: Draw) {
    && Rows(w.easy, Tier(bank, Easy), Got(bank, st, faults, Easy))
    && Rows(w.medium, Tier(bank, Medium), Got(bank, st, faults, Medium))
    && Rows(w.hard, Tier(bank, Hard), Got(bank, st, faults, Hard))
    && Rows(w.extra, bank.Keys - Ids(Tiers(w)), ToppedUp(bank, st, faults))
  }

  ghost predicate DrawThrows(bank: Bank, w: Draw) {
    Unreadable(bank, Ids(w.easy)) || Unreadable(bank, Ids(w.medium)) || Unreadable(bank, Ids(w.hard)) || Unreadable(bank, Ids(w.extra))
  }

  // ---------- choosing rows ----------

  lemma {:induction false} Choose(pool: set<int>, n: nat) returns (rows: seq<int>)
    requires n <= |pool|
    ensures Rows(rows, pool, n)
  {
    rows := [];
    if n > 0 {
      Inhabited(pool);
      var q :| q in pool;
      rows := ChooseWith(pool, n, q);
    }
  }

  lemma {:induction false} ChooseWith(pool: set<int>, n: nat, q: int) returns (rows: seq<int>)
    requires 0 < n <= |pool| && q in pool
    ensures Rows(rows, pool, n) && q in Ids(rows)
    decreases n
  {
    var others := [];
    SubsetSize({q}, pool);
    if n > 1 {
      assert pool - {q} != {};
      Inhabited(pool - {q});
      var p :| p in pool - {q};
      others := ChooseWith(pool - {q}, n - 1, p);
    }
    rows := [q] + others;
    assert Ids(rows) == {q} + Ids(others);
    forall i, j | 0 <= i < j < |rows| ensures rows[i] != rows[j] {
      assert rows[j] in Ids(others);
      if i > 0 { assert rows[i] == others[i - 1] && rows[j] == others[j - 1]; }
    }
  }

  /** As many questions of a pool that parse, if there are enough. */
  lemma ChooseReadable(bank: Bank, pool: set<int>, n: nat) returns (rows: seq<int>)
    requires n <= |Readable(bank, pool)|
    ensures Rows(rows, pool, n) && !Unreadable(bank, Ids(rows))
  {
    rows := Choose(Readable(bank, pool), n);
  }

  /** Rows of a pool, with one that does not parse if one is asked for. */
  lemma ChooseBad(bank: Bank, pool: set<int>, n: nat, bad: bool) returns (rows: seq<int>)
    requires n <= |pool| && (bad ==> n > 0 && Unreadable(bank, pool))
    ensures Rows(rows, pool, n) && (bad ==> Unreadable(bank, Ids(rows)))
  {
    if bad {
      var q :| q in pool && q in bank && !bank[q].readable;
      rows := ChooseWith(pool, n, q);
    } else {
      rows := Choose(pool, n);
    }
  }

  lemma TiersOfDraw(bank: Bank, st: Settings, faults: Faults, w: Draw)
    requires Rows(w.easy, Tier(bank, Easy), Got(bank, st, faults, Easy))
    requires Rows(w.medium, Tier(bank, Medium), Got(bank, st, faults, Medium))
    requires Rows(w.hard, Tier(bank, Hard), Got(bank, st, faults, Hard))
    ensures ExactTiers(bank, st, faults, Tiers(w))
    ensures |bank.Keys - Ids(Tiers(w))| == |bank| - TierSum(bank, st, faults)
    ensures ToppedUp(bank, st, faults) <= |bank.Keys - Ids(Tiers(w))|
  {
    TiersTogether(bank, w.easy, w.medium, w.hard);
    DistinctSize(Tiers(w));
    SubsetSize(Ids(Tiers(w)), bank.Keys);
  }

  lemma DrawnTogether(bank: Bank, w: Draw)
    ensures DrawThrows(bank, w) <==> Unreadable(bank, Ids(Tiers(w) + w.extra))
  {
    var all := Tiers(w) + w.extra;
    forall q ensures q in Ids(all) <==> q in Ids(w.easy) || q in Ids(w.medium) || q in Ids(w.hard) || q in Ids(w.extra) {}
  }

  // ---------- when it throws ----------

  /** pick_questions may throw exactly when some draw of its SELECTs does. */
  lemma ThrowsExactly(bank: Bank, st: Settings, faults: Faults)
    ensures MayThrow(bank, st, faults) <==> exists w :: IsDraw(bank, st, faults, w) && DrawThrows(bank, w)
  {
    if MayThrow(bank, st, faults) {
      var w := BadDraw(bank, st, faults);
    }
    if w :| IsDraw(bank, st, faults, w) && DrawThrows(bank, w) {
      BadDrawNeedsABadQuestion(bank, st, faults, w);
    }
  }

  lemma BadDraw(bank: Bank, st: Settings, faults: Faults) returns (w: Draw)
    requires MayThrow(bank, st, faults)
    ensures IsDraw(bank, st, faults, w) && DrawThrows(bank, w)
  {
    var easy := ChooseBad(bank, Tier(bank, Easy), Got(bank, st, faults, Easy), BadTier(bank, st, faults, Easy));
    var medium := ChooseBad(bank, Tier(bank, Medium), Got(bank, st, faults, Medium), BadTier(bank, st, faults, Medium));
    var hard := ChooseBad(bank, Tier(bank, Hard), Got(bank, st, faults, Hard), BadTier(bank, st, faults, Hard));
    w := Draw(easy, medium, hard, []);
    TiersOfDraw(bank, st, faults, w);
    var pool := bank.Keys - Ids(Tiers(w));
    var left := ToppedUp(bank, st, faults) > 0 && Unreadable(bank, pool);
    var extra := ChooseBad(bank, pool, ToppedUp(bank, st, faults), left);
    w := Draw(easy, medium, hard, extra);
    if !(exists d :: BadTier(bank, st, faults, d)) && !left {
      var q :| q in bank.Keys && !bank[q].readable;
      assert q !in pool;
      assert q in Ids(easy) || q in Ids(medium) || q in Ids(hard);
    } else if d :| BadTier(bank, st, faults, d) {
      assert d.Easy? || d.Medium? || d.Hard?;
    }
  }

  ghost predicate BadTier(bank: Bank, st: Settings, faults: Faults, d: Difficulty) {
    Got(bank, st, faults, d) > 0 && Unreadable(bank, Tier(bank, d))
  }

  lemma BadDrawNeedsABadQuestion(bank: Bank, st: Settings, faults: Faults, w: Draw)
    requires IsDraw(bank, st, faults, w) && DrawThrows(bank, w)
    ensures MayThrow(bank, st, faults)
  {
    if Unreadable(bank, Ids(w.easy)) {
      assert Unreadable(bank, Tier(bank, Easy)) && Got(bank, st, faults, Easy) > 0;
    } else if Unreadable(bank, Ids(w.medium)) {
      assert Unreadable(bank, Tier(bank, Medium)) && Got(bank, st, faults, Medium) > 0;
    } else if Unreadable(bank, Ids(w.hard)) {
      assert Unreadable(bank, Tier(bank, Hard)) && Got(bank, st, faults, Hard) > 0;
    }
  }

  // ---------- when it need not ----------

  /** pick_questions may return exactly when some draw of its SELECTs does not throw. */
  lemma PicksExactly(bank: Bank, st: Settings, faults: Faults)
    ensures MayPick(bank, st, faults) <==> exists w :: IsDraw(bank, st, faults, w) && !DrawThrows(bank, w)
  {
    if MayPick(bank, st, faults) {
      var w := GoodDraw(bank, st, faults);
    }
    if w :| IsDraw(bank, st, faults, w) && !DrawThrows(bank, w) {
      GoodDrawNeedsEnough(bank, st, faults, w);
    }
  }

  lemma GoodDraw(bank: Bank, st: Settings, faults: Faults) returns (w: Draw)
    requires MayPick(bank, st, faults)
    ensures IsDraw(bank, st, faults, w) && !DrawThrows(bank, w)
  {
    var easy := ChooseReadable(bank, Tier(bank, Easy), Got(bank, st, faults, Easy));
    var medium := ChooseReadable(bank, Tier(bank, Medium), Got(bank, st, faults, Medium));
    var hard := ChooseReadable(bank, Tier(bank, Hard), Got(bank, st, faults, Hard));
    w := Draw(easy, medium, hard, []);
    TiersOfDraw(bank, st, faults, w);
    DrawnTogether(bank, w);
    ReadableLeft(bank, Tiers(w));
    var extra := ChooseReadable(bank, bank.Keys - Ids(Tiers(w)), ToppedUp(bank, st, faults));
    w := Draw(easy, medium, hard, extra);
  }

  lemma ReadableLeft(bank: Bank, qs: seq<int>)
    requires Distinct(qs) && Ids(qs) <= bank.Keys
    ensures |Readable(bank, bank.Keys - Ids(qs))| >= |Readable(bank, bank.Keys)| - |qs|
  {
    var all, left := Readable(bank, bank.Keys), Readable(bank, bank.Keys - Ids(qs));
    DistinctSize(qs);
    forall q | q in all ensures q in left + Ids(qs) {}
    SubsetSize(all, left + Ids(qs));
  }

  lemma GoodDrawNeedsEnough(bank: Bank, st: Settings, faults: Faults, w: Draw)
    requires IsDraw(bank, st, faults, w) && !DrawThrows(bank, w)
    ensures MayPick(bank, st, faults)
  {
    TiersOfDraw(bank, st, faults, w);
    DrawnTogether(bank, w);
    DistinctConcat(Tiers(w), w.extra);
    NoneThrown(bank, st, faults, Tiers(w), w.extra);
  }

  /** A good draw makes a list that pick_questions may return. */
  lemma PickExists(bank: Bank, st: Settings, faults: Faults) returns (qs: seq<int>)
    requires MayPick(bank, st, faults)
    ensures ValidPick(bank, st, faults, qs) && !Unreadable(bank, Ids(qs))
  {
    var w := GoodDraw(bank, st, faults);
    TiersOfDraw(bank, st, faults, w);
    DrawnTogether(bank, w);
    var tiers := Tiers(w);
    ExactTiersCover(bank, st, faults, tiers);
    if 0 < st.total < |tiers| {
      qs := tiers[..st.total];
      FewerOfEach(bank, tiers, qs);
      forall q | q in Ids(qs) ensures q in Ids(tiers + w.extra) {}
    } else {
      qs := tiers + w.extra;
      MoreKeepsTiers(bank, tiers, w.extra);
      if w.extra == [] { assert qs == tiers; }
    }
  }
}
