/** Automatic goal checking: a pending goal whose target is reached is
    marked done, with the given time stamp. */
module Goals {
  import opened Base
  import opened Intervals
  import opened Store
  import opened Progress

  const PendingStatus: string := "pending"
  const DoneStatus: string := "done"
  const FailedStatus: string := "failed"

  const PagesKind: string := "pages"
  const AyahsKind: string := "ayahs"

  /** Python's truth value of a nullable integer column: set and not 0. */
  predicate Truthy(x: Option<int>)
  {
    x.Some? && x.value != 0
  }

  /** A row spells out ayah a of surah s: it is a memorised row of s and
      a lies in `range(from_ayah, to_ayah + 1)`. */
  predicate Spells(row: AyahRow, s: int, a: int)
  {
    row.surah == s && row.isMemorized && row.fromAyah <= a <= row.toAyah
  }

  /** Some row of rows spells out ayah a of surah s. */
  predicate SpelledBy(rows: seq<AyahRow>, s: int, a: int)
  {
    exists i :: 0 <= i < |rows| && Spells(rows[i], s, a)
  }

  lemma SpelledByCons(rows: seq<AyahRow>, s: int, a: int)
    requires |rows| > 0
    ensures SpelledBy(rows, s, a) <==> Spells(rows[0], s, a) || SpelledBy(rows[1..], s, a)
  {
    if SpelledBy(rows, s, a) && !Spells(rows[0], s, a) {
      var i :| 0 <= i < |rows| && Spells(rows[i], s, a);
      assert rows[1..][i - 1] == rows[i];
    }
    if SpelledBy(rows[1..], s, a) {
      var i :| 0 <= i < |rows[1..]| && Spells(rows[1..][i], s, a);
      assert rows[i + 1] == rows[1..][i];
    }
  }

  /** The ayah numbers of surah s that the memorised rows spell out, each
      row read as `range(from_ayah, to_ayah + 1)`: a reversed row spells
      out nothing. */
  function ExpandedAyahs(rows: seq<AyahRow>, s: int): (r: set<int>)
    ensures forall a :: a in r <==> SpelledBy(rows, s, a)
  {
    if |rows| == 0 then {}
    else
      var rest := ExpandedAyahs(rows[1..], s);
      var here := if rows[0].surah == s && rows[0].isMemorized then Span(rows[0].fromAyah, rows[0].toAyah) else {};
      assert forall a :: SpelledBy(rows, s, a) <==> a in here || a in rest by {
        forall a ensures SpelledBy(rows, s, a) <==> a in here || a in rest {
          SpelledByCons(rows, s, a);
        }
      }
      here + rest
  }

  /** A page goal: its kind is "pages" and both bounds are truthy. */
  predicate IsPageGoal(g: Goal)
  {
    g.targetKind == PagesKind && Truthy(g.pageFrom) && Truthy(g.pageTo)
  }

  /** An ayah goal, as the `elif` branch sees it. */
  predicate IsAyahGoal(g: Goal)
  {
    !IsPageGoal(g) && g.targetKind == AyahsKind && Truthy(g.surah) && Truthy(g.fromAyah) && Truthy(g.toAyah)
  }

  /** The test `auto_check_goals` applies to one goal, as written: a page
      goal counts its memorised pages between the bounds against
      `page_to - page_from + 1`; an ayah goal asks that every ayah of
      `range(from_ayah, to_ayah + 1)` be spelled out by a memorised row. */
  predicate GoalAchieved(st: Store, g: Goal)
  {
    if IsPageGoal(g) then
      |MemorizedIn(st.pages, g.pageFrom.value, g.pageTo.value)| >= g.pageTo.value - g.pageFrom.value + 1
    else if IsAyahGoal(g) then
      Span(g.fromAyah.value, g.toAyah.value) <= ExpandedAyahs(st.ranges, g.surah.value)
    else false
  }

  /** A page goal with its bounds in order is achieved exactly when every
      page between them is memorised. */
  lemma PageGoalMeaning(st: Store, g: Goal)
    requires IsPageGoal(g) && g.pageFrom.value <= g.pageTo.value
    ensures GoalAchieved(st, g) <==>
              forall p :: g.pageFrom.value <= p <= g.pageTo.value ==> p in MemorizedPages(st.pages)
  {
    MemorizedInCount(st.pages, g.pageFrom.value, g.pageTo.value);
  }

  /** An ayah goal is achieved exactly when every ayah of its range is
      memorised, provided every memorised row has its ends in order (as
      add_ayah_range and the page sync write them). */
  lemma AyahGoalMeaning(st: Store, g: Goal)
    requires IsAyahGoal(g)
    requires forall i :: 0 <= i < |st.ranges| && st.ranges[i].isMemorized ==> st.ranges[i].fromAyah <= st.ranges[i].toAyah
    ensures GoalAchieved(st, g) <==>
              forall a :: g.fromAyah.value <= a <= g.toAyah.value ==> Memorized(st.ranges, g.surah.value, a)
  {
    var s := g.surah.value;
    forall a
      ensures a in ExpandedAyahs(st.ranges, s) <==> Memorized(st.ranges, s, a)
    {
      if Memorized(st.ranges, s, a) {
        var i :| 0 <= i < |st.ranges| && st.ranges[i].surah == s && st.ranges[i].isMemorized
               && NormRange(st.ranges[i]).lo <= a <= NormRange(st.ranges[i]).hi;
        assert NormRange(st.ranges[i]) == Range(st.ranges[i].fromAyah, st.ranges[i].toAyah);
      }
      if a in ExpandedAyahs(st.ranges, s) {
        var i :| 0 <= i < |st.ranges| && Spells(st.ranges[i], s, a);
        assert NormRange(st.ranges[i]) == Range(st.ranges[i].fromAyah, st.ranges[i].toAyah);
      }
    }
  }

  /** As written, a goal whose bounds are entered backwards is achieved
      whatever has been memorised: the page count is compared with a
      target of zero or less, and the ayah target is empty. */
  lemma ReversedGoalAlwaysAchieved(st: Store, g: Goal)
    requires (IsPageGoal(g) && g.pageFrom.value > g.pageTo.value)
          || (IsAyahGoal(g) && g.fromAyah.value > g.toAyah.value)
    ensures GoalAchieved(st, g)
  {
    if IsAyahGoal(g) {
      assert Span(g.fromAyah.value, g.toAyah.value) == {};
    }
  }

  /** The evidently intended test: the bounds are put in order first, as
      add_ayah_range does for ranges. */
  predicate GoalAchievedFixed(st: Store, g: Goal)
  {
    if IsPageGoal(g) then
      var (lo, hi) := Ordered(g.pageFrom.value, g.pageTo.value);
      |MemorizedIn(st.pages, lo, hi)| >= hi - lo + 1
    else if IsAyahGoal(g) then
      var (lo, hi) := Ordered(g.fromAyah.value, g.toAyah.value);
      Span(lo, hi) <= ExpandedAyahs(st.ranges, g.surah.value)
    else false
  }

  function Ordered(a: int, b: int): (r: (int, int))
    ensures r.0 <= r.1 && {r.0, r.1} == {a, b}
  {
    if b < a then (b, a) else (a, b)
  }

  /** The corrected test differs from the code's only on goals entered
      backwards. */
  lemma FixedAgreesWhenOrdered(st: Store, g: Goal)
    requires IsPageGoal(g) ==> g.pageFrom.value <= g.pageTo.value
    requires IsAyahGoal(g) ==> g.fromAyah.value <= g.toAyah.value
    ensures GoalAchievedFixed(st, g) == GoalAchieved(st, g)
  {
  }

  /** With the intended test an ayah goal is achieved exactly when every
      ayah between its bounds, in either order, is spelled out by a
      memorised row; a reversed goal is not achieved for free. */
  lemma AyahGoalFixedMeaning(st: Store, g: Goal)
    requires IsAyahGoal(g)
    ensures GoalAchievedFixed(st, g) <==>
              forall a :: (g.fromAyah.value <= a <= g.toAyah.value || g.toAyah.value <= a <= g.fromAyah.value)
                          ==> a in ExpandedAyahs(st.ranges, g.surah.value)
  {
    var (lo, hi) := Ordered(g.fromAyah.value, g.toAyah.value);
    assert forall a :: a in Span(lo, hi) <==>
             (g.fromAyah.value <= a <= g.toAyah.value || g.toAyah.value <= a <= g.fromAyah.value);
    assert GoalAchievedFixed(st, g) == (Span(lo, hi) <= ExpandedAyahs(st.ranges, g.surah.value));
  }

  /** With the intended test a page goal is achieved exactly when every page
      between its bounds, in either order, is memorised. */
  lemma PageGoalFixedMeaning(st: Store, g: Goal)
    requires IsPageGoal(g)
    ensures GoalAchievedFixed(st, g) <==>
              forall p :: (g.pageFrom.value <= p <= g.pageTo.value || g.pageTo.value <= p <= g.pageFrom.value)
                          ==> p in MemorizedPages(st.pages)
  {
    var (lo, hi) := Ordered(g.pageFrom.value, g.pageTo.value);
    MemorizedInCount(st.pages, lo, hi);
  }

  /** A concrete case: a goal for pages 20 back to 5 with nothing memorised
      is achieved as written and not with the intended test. */
  lemma ReversedPageGoalExample()
    ensures
      var st := Store(map[], [], []);
      var g := Goal(1, PagesKind, Some(20), Some(5), None, None, None, PendingStatus, None);
      GoalAchieved(st, g) && !GoalAchievedFixed(st, g)
  {
    var st := Store(map[], [], []);
    var g := Goal(1, PagesKind, Some(20), Some(5), None, None, None, PendingStatus, None);
    PageGoalFixedMeaning(st, g);
    assert 5 !in MemorizedPages(st.pages);
  }

  // ---------------------------------------------------------------------
  // auto_check_goals
  // ---------------------------------------------------------------------

  /** The store after a check and the number of goals it updated. */
  datatype GoalCheck = GoalCheck(store: Store, updated: int)

  /** Which achievement test a check applies: the code's own
      (GoalAchieved) or the corrected one (GoalAchievedFixed). */
  datatype GoalTest = AsWritten | Corrected

  /** Goal g's target is reached under the given test. */
  predicate Reached(test: GoalTest, st: Store, g: Goal)
  {
    match test
    case AsWritten => GoalAchieved(st, g)
    case Corrected => GoalAchievedFixed(st, g)
  }

  /** The two tests agree on every goal whose bounds are in order. */
  lemma TestsAgreeWhenOrdered(st: Store, g: Goal)
    requires IsPageGoal(g) ==> g.pageFrom.value <= g.pageTo.value
    requires IsAyahGoal(g) ==> g.fromAyah.value <= g.toAyah.value
    ensures Reached(AsWritten, st, g) == Reached(Corrected, st, g)
  {
    FixedAgreesWhenOrdered(st, g);
  }

  /** One goal after the check. */
  function CheckGoal(test: GoalTest, st: Store, g: Goal, now: string): Goal
  {
    if g.status == PendingStatus && Reached(test, st, g) then g.(status := DoneStatus, achievedAt := Some(now)) else g
  }

  /** How many of goals[k..] the check updates. */
  function CountUpdated(test: GoalTest, st: Store, goals: seq<Goal>, k: nat): nat
    decreases |goals| - k
  {
    if k >= |goals| then 0
    else (if goals[k].status == PendingStatus && Reached(test, st, goals[k]) then 1 else 0) + CountUpdated(test, st, goals, k + 1)
  }

  /** `auto_check_goals` under the given test (AsWritten is the code as it
      stands, Corrected the intended behaviour): every pending goal whose
      target is reached becomes done at `now`; no other goal and nothing
      else changes, no goal is ever failed, and the count is the number of
      goals changed. */
  function AutoCheckGoals(test: GoalTest, st: Store, now: string): (r: GoalCheck)
    ensures r.store.pages == st.pages && r.store.ranges == st.ranges
    ensures |r.store.goals| == |st.goals|
    ensures forall i :: 0 <= i < |st.goals| ==>
              r.store.goals[i] == st.goals[i].(status := r.store.goals[i].status, achievedAt := r.store.goals[i].achievedAt)
    ensures forall i :: 0 <= i < |st.goals| ==>
              (r.store.goals[i] != st.goals[i] <==> st.goals[i].status == PendingStatus && Reached(test, st, st.goals[i]))
    ensures forall i :: 0 <= i < |st.goals| && r.store.goals[i] != st.goals[i] ==>
              r.store.goals[i].status == DoneStatus && r.store.goals[i].achievedAt == Some(now)
    ensures forall i :: 0 <= i < |st.goals| && r.store.goals[i].status == FailedStatus ==> st.goals[i].status == FailedStatus
    ensures forall i :: 0 <= i < |st.goals| && !IsPageGoal(st.goals[i]) && !IsAyahGoal(st.goals[i]) ==>
              r.store.goals[i] == st.goals[i]
    ensures r.updated == CountUpdated(test, st, st.goals, 0)
  {
    var goals := seq(|st.goals|, i requires 0 <= i < |st.goals| => CheckGoal(test, st, st.goals[i], now));
    GoalCheck(st.(goals := goals), CountUpdated(test, st, st.goals, 0))
  }

  /** Every goal of the store has its bounds in order. */
  predicate AllOrdered(st: Store)
  {
    forall i :: 0 <= i < |st.goals| ==>
      (IsPageGoal(st.goals[i]) ==> st.goals[i].pageFrom.value <= st.goals[i].pageTo.value) &&
      (IsAyahGoal(st.goals[i]) ==> st.goals[i].fromAyah.value <= st.goals[i].toAyah.value)
  }

  lemma {:induction false} CountsAgreeWhenOrdered(st: Store, now: string, k: nat)
    requires AllOrdered(st)
    ensures CountUpdated(AsWritten, st, st.goals, k) == CountUpdated(Corrected, st, st.goals, k)
    decreases |st.goals| - k
  {
    if k < |st.goals| {
      TestsAgreeWhenOrdered(st, st.goals[k]);
      CountsAgreeWhenOrdered(st, now, k + 1);
    }
  }

  /** On a store whose goals all have their bounds in order, the code's
      check and the corrected one produce the same store and count. */
  lemma AutoCheckGoalsAgreeWhenOrdered(st: Store, now: string)
    requires AllOrdered(st)
    ensures AutoCheckGoals(AsWritten, st, now) == AutoCheckGoals(Corrected, st, now)
  {
    var a := AutoCheckGoals(AsWritten, st, now);
    var b := AutoCheckGoals(Corrected, st, now);
    forall i | 0 <= i < |st.goals|
      ensures a.store.goals[i] == b.store.goals[i]
    {
      TestsAgreeWhenOrdered(st, st.goals[i]);
    }
    CountsAgreeWhenOrdered(st, now, 0);
  }

  /** A concrete case: a pending goal for pages 20 back to 5 with nothing
      memorised is marked done by the code's check and stays pending under
      the corrected one. */
  lemma AutoCheckReversedGoalExample(now: string)
    ensures
      var g := Goal(1, PagesKind, Some(20), Some(5), None, None, None, PendingStatus, None);
      var st := Store(map[], [], [g]);
      AutoCheckGoals(AsWritten, st, now).store.goals == [g.(status := DoneStatus, achievedAt := Some(now))] &&
      AutoCheckGoals(AsWritten, st, now).updated == 1 &&
      AutoCheckGoals(Corrected, st, now).store == st &&
      AutoCheckGoals(Corrected, st, now).updated == 0
  {
    var g := Goal(1, PagesKind, Some(20), Some(5), None, None, None, PendingStatus, None);
    var st := Store(map[], [], [g]);
    ReversedPageGoalExample();
    assert Store(map[], [], []).pages == st.pages;
    assert GoalAchieved(st, g) && !GoalAchievedFixed(st, g);
    var a := AutoCheckGoals(AsWritten, st, now);
    var b := AutoCheckGoals(Corrected, st, now);
    assert CountUpdated(AsWritten, st, st.goals, 1) == 0;
    assert CountUpdated(Corrected, st, st.goals, 1) == 0;
    assert b.store.goals == st.goals;
  }

  /** The check updates goal g: it is pending and its target is reached. */
  predicate WillUpdate(test: GoalTest, st: Store, g: Goal)
  {
    g.status == PendingStatus && Reached(test, st, g)
  }

  /** The positions k.. of goals that the check updates. */
  function UpdatedFrom(test: GoalTest, st: Store, goals: seq<Goal>, k: nat): set<int>
  {
    set i | k <= i < |goals| && WillUpdate(test, st, goals[i])
  }

  lemma {:induction false} CountIsUpdatedFrom(test: GoalTest, st: Store, goals: seq<Goal>, k: nat)
    requires k <= |goals|
    ensures CountUpdated(test, st, goals, k) == |UpdatedFrom(test, st, goals, k)|
    decreases |goals| - k
  {
    if k < |goals| {
      CountIsUpdatedFrom(test, st, goals, k + 1);
      var later := UpdatedFrom(test, st, goals, k + 1);
      assert k !in later;
      if WillUpdate(test, st, goals[k]) {
        assert UpdatedFrom(test, st, goals, k) == later + {k};
        assert |later + {k}| == |later| + 1;
      } else {
        assert UpdatedFrom(test, st, goals, k) == UpdatedFrom(test, st, goals, k + 1);
      }
    } else {
      assert UpdatedFrom(test, st, goals, k) == {};
    }
  }

  /** The count is the number of goals whose row changed. */
  lemma UpdatedCountsChanges(test: GoalTest, st: Store, now: string)
    ensures
      var r := AutoCheckGoals(test, st, now);
      r.updated == |set i | 0 <= i < |st.goals| && r.store.goals[i] != st.goals[i]|
  {
    var r := AutoCheckGoals(test, st, now);
    CountIsUpdatedFrom(test, st, st.goals, 0);
    assert (set i | 0 <= i < |st.goals| && r.store.goals[i] != st.goals[i]) == UpdatedFrom(test, st, st.goals, 0);
  }

  /** A second check straight after the first updates nothing. */
  lemma AutoCheckGoalsIdempotent(test: GoalTest, st: Store, now: string, later: string)
    ensures
      var once := AutoCheckGoals(test, st, now);
      var twice := AutoCheckGoals(test, once.store, later);
      twice.store == once.store && twice.updated == 0
  {
    var once := AutoCheckGoals(test, st, now).store;
    var twice := AutoCheckGoals(test, once, later);
    forall i | 0 <= i < |once.goals|
      ensures !(once.goals[i].status == PendingStatus && Reached(test, once, once.goals[i]))
    {
      assert Reached(test, once, once.goals[i]) == Reached(test, st, once.goals[i]);
      assert Reached(test, once, st.goals[i]) == Reached(test, st, st.goals[i]);
    }
    NoneUpdated(test, once, later, 0);
    assert twice.store.goals == once.goals;
  }

  lemma {:induction false} NoneUpdated(test: GoalTest, st: Store, now: string, k: nat)
    requires forall i :: 0 <= i < |st.goals| ==> !(st.goals[i].status == PendingStatus && Reached(test, st, st.goals[i]))
    ensures CountUpdated(test, st, st.goals, k) == 0
    decreases |st.goals| - k
  {
    if k < |st.goals| {
      NoneUpdated(test, st, now, k + 1);
    }
  }
}
