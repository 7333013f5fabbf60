/**
 * `HabitTracker` (api/main.py): an in-memory store of habits keyed by id and
 * a log of daily entries keyed by `(habit_id, date)`, with the operations
 * that change it (`create_habit`, `log_habit`, `_update_habit_stats`) and
 * those that read it (`get_habits`, `get_habit_progress`, `get_analytics`,
 * and the band selection of `get_insights`).
 *
 * The clock is a parameter: `today` is the current day number and `now` the
 * current timestamp string.  The store starts empty; loading and saving the
 * JSON file are not part of this model.
 */
module Tracker {
  import opened Counting
  import opened Habits
  import opened Stats
  import opened Analytics
  import opened Insights
  import opened Progress

  /** `e` is keyed `(id, day)`. */
  predicate Matches(e: Entry, id: HabitId, day: Day) {
    e.habitId == id && e.date == day
  }

  /** Where the search of `log_habit` stops: the first entry keyed `(id, day)`, or `|es|`. */
  function FirstMatch(es: seq<Entry>, id: HabitId, day: Day): (i: nat)
    ensures i <= |es|
    ensures i < |es| ==> Matches(es[i], id, day)
    ensures forall j :: 0 <= j < i ==> !Matches(es[j], id, day)
  {
    if es == [] then 0
    else if Matches(es[0], id, day) then 0
    else 1 + FirstMatch(es[1..], id, day)
  }

  /**
   * The log after `log_habit(id, completed, notes)` on `day` at time `now`:
   * the first entry keyed `(id, day)` is updated in place, or a new entry is
   * appended when there is none.
   */
  function Upsert(es: seq<Entry>, id: HabitId, day: Day, completed: bool, notes: string, now: string)
    : seq<Entry>
  {
    var i := FirstMatch(es, id, day);
    if i < |es| then es[i := es[i].(completed := completed, notes := notes, timestamp := now)]
    else es + [Entry(id, day, completed, notes, now)]
  }

  /**
   * Upsert touches one entry: with an entry for `(id, day)` already present
   * the length is unchanged, the first such entry becomes the logged one and
   * every other entry stays as it was; otherwise the logged entry is
   * appended at the end.
   */
  lemma UpsertTouchesOneEntry(es: seq<Entry>, id: HabitId, day: Day, completed: bool, notes: string, now: string)
    ensures (exists j :: 0 <= j < |es| && Matches(es[j], id, day)) ==>
              var i := FirstMatch(es, id, day);
              && i < |es|
              && |Upsert(es, id, day, completed, notes, now)| == |es|
              && Upsert(es, id, day, completed, notes, now)[i] == Entry(id, day, completed, notes, now)
              && forall j :: 0 <= j < |es| && j != i ==> Upsert(es, id, day, completed, notes, now)[j] == es[j]
    ensures (forall j :: 0 <= j < |es| ==> !Matches(es[j], id, day)) ==>
              Upsert(es, id, day, completed, notes, now) == es + [Entry(id, day, completed, notes, now)]
  {
    if exists j :: 0 <= j < |es| && Matches(es[j], id, day) {
      var j :| 0 <= j < |es| && Matches(es[j], id, day);
      assert FirstMatch(es, id, day) <= j;
    }
  }

  /** Every entry after an upsert was already in the log or is the logged one. */
  lemma UpsertMembers(es: seq<Entry>, id: HabitId, day: Day, completed: bool, notes: string, now: string)
    ensures forall e :: e in Upsert(es, id, day, completed, notes, now) ==>
              e in es || e == Entry(id, day, completed, notes, now)
  {
    var r := Upsert(es, id, day, completed, notes, now);
    var i := FirstMatch(es, id, day);
    forall e | e in r ensures e in es || e == Entry(id, day, completed, notes, now) {
      var k :| 0 <= k < |r| && r[k] == e;
      if k != i && k < |es| {
        assert r[k] == es[k];
      }
    }
  }

  /**
   * Upsert never duplicates a key: afterwards `(id, day)` occurs as often as
   * before, and once when it did not occur.
   */
  lemma UpsertKeyCount(es: seq<Entry>, id: HabitId, day: Day, completed: bool, notes: string, now: string)
    ensures Count(Upsert(es, id, day, completed, notes, now), KeyIs(id, day))
         == if Count(es, KeyIs(id, day)) == 0 then 1 else Count(es, KeyIs(id, day))
  {
    var i := FirstMatch(es, id, day);
    var p := KeyIs(id, day);
    var x := Entry(id, day, completed, notes, now);
    if i < |es| {
      CountUpdate(es, i, es[i].(completed := completed, notes := notes, timestamp := now), p);
      FilterMembers(es, p);
      assert es[i] in Filter(es, p);
    } else {
      CountNone(es, p);
      CountAppend(es, [x], p);
      CountSingleton(x, p);
    }
  }

  /** Upsert keeps the `(habit, date)` keys of the log unique. */
  lemma UpsertKeepsUniqueKeys(es: seq<Entry>, id: HabitId, day: Day, completed: bool, notes: string, now: string)
    requires UniqueKeys(es)
    ensures UniqueKeys(Upsert(es, id, day, completed, notes, now))
  {
    var r := Upsert(es, id, day, completed, notes, now);
    var i := FirstMatch(es, id, day);
    if i < |es| {
      assert forall j :: 0 <= j < |r| ==> r[j].habitId == es[j].habitId && r[j].date == es[j].date;
    } else {
      forall a, b | 0 <= a < b < |r| ensures !(r[a].habitId == r[b].habitId && r[a].date == r[b].date) {
        assert r[a] == es[a];
        if b < |es| {
          assert r[b] == es[b];
        }
      }
    }
  }

  /** With unique keys, every entry for `(id, day)` after the upsert reads back as logged. */
  lemma UpsertReadsBack(es: seq<Entry>, id: HabitId, day: Day, completed: bool, notes: string, now: string)
    requires UniqueKeys(es)
    ensures Entry(id, day, completed, notes, now) in Upsert(es, id, day, completed, notes, now)
    ensures forall e :: e in Upsert(es, id, day, completed, notes, now) && Matches(e, id, day) ==>
              e == Entry(id, day, completed, notes, now)
  {
    var r := Upsert(es, id, day, completed, notes, now);
    var i := FirstMatch(es, id, day);
    forall e | e in r && Matches(e, id, day) ensures e == Entry(id, day, completed, notes, now) {
      var k :| 0 <= k < |r| && r[k] == e;
      if k != i && k < |es| {
        assert r[k] == es[k];
        assert i < |es| && Matches(es[i], id, day);
        assert k < i || i < k;
      }
    }
    if i < |es| {
      assert r[i] == Entry(id, day, completed, notes, now);
    } else {
      assert r[|es|] == Entry(id, day, completed, notes, now);
    }
  }

  /** Logging for habit `id` leaves the entries of every other habit as they were. */
  lemma UpsertOtherHabits(es: seq<Entry>, id: HabitId, day: Day, completed: bool, notes: string, now: string,
                          other: HabitId)
    requires other != id
    ensures EntriesOf(Upsert(es, id, day, completed, notes, now), other) == EntriesOf(es, other)
  {
    var i := FirstMatch(es, id, day);
    var x := Entry(id, day, completed, notes, now);
    if i < |es| {
      FilterUpdateIgnored(es, i, es[i].(completed := completed, notes := notes, timestamp := now), OfHabit(other));
    } else {
      FilterAppend(es, [x], OfHabit(other));
      FilterSingleton(x, OfHabit(other));
    }
  }

  /**
   * Logging a completion on a day after every entry of the habit adds one
   * to its streak, even when days were skipped since the last entry.
   */
  lemma LoggingCompletionExtendsStreak(es: seq<Entry>, id: HabitId, day: Day, notes: string, now: string)
    requires forall e :: e in es && e.habitId == id ==> e.date < day
    ensures Streak(Upsert(es, id, day, true, notes, now), id) == Streak(es, id) + 1
  {
    assert forall j :: 0 <= j < |es| ==> !Matches(es[j], id, day) by {
      forall j | 0 <= j < |es| ensures !Matches(es[j], id, day) {
        assert es[j] in es;
      }
    }
    UpsertTouchesOneEntry(es, id, day, true, notes, now);
    CompletionExtendsStreak(es, id, Entry(id, day, true, notes, now));
  }

  /** Logging a miss on or after the habit's latest entry day resets its streak to 0. */
  lemma LoggingMissEndsStreak(es: seq<Entry>, id: HabitId, day: Day, notes: string, now: string)
    requires forall e :: e in es && e.habitId == id ==> e.date <= day
    ensures Streak(Upsert(es, id, day, false, notes, now), id) == 0
  {
    var logged := Entry(id, day, false, notes, now);
    var i := FirstMatch(es, id, day);
    var back := if i < |es| then es[i + 1..] else [];
    UpsertSplits(es, id, day, false, notes, now);
    forall y | y in es[..i] && y.habitId == id ensures y.date < day {
      var k :| 0 <= k < i && es[..i][k] == y;
      assert es[k] == y;
    }
    forall y | y in back ensures y in es {
      var k :| 0 <= k < |back| && back[k] == y;
      assert es[i + 1 + k] == y;
    }
    MissFirstEndsStreak(Upsert(es, id, day, false, notes, now), id, es[..i], logged, back);
  }

  /** The upserted log is the log before the first match, the logged entry, and what followed the match. */
  lemma UpsertSplits(es: seq<Entry>, id: HabitId, day: Day, completed: bool, notes: string, now: string)
    ensures var i := FirstMatch(es, id, day);
            Upsert(es, id, day, completed, notes, now)
            == es[..i] + ([Entry(id, day, completed, notes, now)] + (if i < |es| then es[i + 1..] else []))
  {
    var i := FirstMatch(es, id, day);
    if i < |es| {
      var logged := Entry(id, day, completed, notes, now);
      assert es[i].(completed := completed, notes := notes, timestamp := now) == logged;
      SplitAt(es[i := logged], i);
    }
  }

  /** A habit whose derived fields agree with the log `es`. */
  ghost predicate StatsAgree(h: Habit, es: seq<Entry>) {
    h.totalCompletions == TotalCompletions(es, h.id) && h.streakCount == Streak(es, h.id)
  }

  /** The derived fields of a habit depend only on that habit's entries. */
  lemma AgreeOnSameEntries(h: Habit, es: seq<Entry>, es': seq<Entry>)
    requires EntriesOf(es, h.id) == EntriesOf(es', h.id)
    ensures StatsAgree(h, es) <==> StatsAgree(h, es')
  {
  }

  /**
   * Logging an entry for habit `id` and refreshing that habit leaves every
   * habit of the store in agreement with the new log.
   */
  lemma LoggedStoreAgrees(habits: map<HabitId, Habit>, es: seq<Entry>, id: HabitId, day: Day,
                          completed: bool, notes: string, now: string, habits': map<HabitId, Habit>)
    requires id in habits
    requires forall k :: k in habits ==> habits[k].id == k && StatsAgree(habits[k], es)
    requires habits' == habits[id := Refreshed(habits[id], Upsert(es, id, day, completed, notes, now))]
    ensures forall k :: k in habits' ==> StatsAgree(habits'[k], Upsert(es, id, day, completed, notes, now))
  {
    var es' := Upsert(es, id, day, completed, notes, now);
    forall k | k in habits' ensures StatsAgree(habits'[k], es') {
      if k != id {
        UpsertOtherHabits(es, id, day, completed, notes, now, k);
        AgreeOnSameEntries(habits[k], es, es');
      }
    }
  }

  /** `h` with its derived fields recomputed from the log `es`. */
  function Refreshed(h: Habit, es: seq<Entry>): Habit {
    h.(totalCompletions := TotalCompletions(es, h.id), streakCount := Streak(es, h.id))
  }

  /** The result of `get_habit_progress`; the rate is exact, before rounding. */
  datatype ProgressResult =
    | NoHabit                 // unknown id: the empty dictionary
    | DivisionByZero          // `days <= 0`: the empty progress list is divided by
    | Report(habit: Habit, records: seq<DayRecord>, completionRate: real,
             totalDays: nat, completedDays: nat)

  /**
   * The `while current_date <= end_date` loop of `get_habit_progress`: one
   * record per day from `lo` to `hi`, oldest first, none when `lo > hi`.
   */
  method DayRecords(window: map<Day, Entry>, lo: Day, hi: Day) returns (records: seq<DayRecord>)
    ensures |records| == if lo <= hi then hi - lo + 1 else 0
    ensures forall k :: 0 <= k < |records| ==> records[k] == RecordFor(window, lo + k)
  {
    records := [];
    var current := lo;
    while current <= hi
      invariant lo <= current
      invariant lo <= hi ==> current <= hi + 1
      invariant hi < lo ==> current == lo
      invariant |records| == current - lo
      invariant forall k :: 0 <= k < |records| ==> records[k] == RecordFor(window, lo + k)
      decreases hi - current
    {
      records := records + [RecordFor(window, current)];
      current := current + 1;
    }
  }

  /**
   * The computation of `_update_habit_stats`: the entries of habit `id`,
   * newest first; the completions among them; and the completed run at
   * their head.
   */
  method HabitStats(es: seq<Entry>, id: HabitId) returns (total: nat, streak: nat)
    ensures total == TotalCompletions(es, id)
    ensures streak == Streak(es, id)
  {
    var hs := ByRecency(es, id);
    total := Count(hs, IsCompleted);
    TotalByRecency(es, id);
    streak := CurrentStreak(hs);
  }

  /**
   * The streak loop of `_update_habit_stats`: walking the newest-first
   * entries, count completions and stop at the first miss.
   */
  method CurrentStreak(hs: seq<Entry>) returns (streak: nat)
    ensures streak == LeadingRun(hs)
  {
    streak := 0;
    for i := 0 to |hs|
      invariant streak == i
      invariant forall j :: 0 <= j < i ==> hs[j].completed
    {
      if !hs[i].completed {
        LeadingRunIs(hs, streak);
        return;
      }
      streak := streak + 1;
    }
    LeadingRunIs(hs, streak);
  }

  class HabitTracker {
    /** The keys of `habits` in insertion order. */
    var order: seq<HabitId>
    var habits: map<HabitId, Habit>
    var entries: seq<Entry>

    ghost predicate Valid()
      reads this
    {
      WellFormed(order, habits)
    }

    /** Every habit's derived fields agree with the log. */
    ghost predicate Consistent()
      reads this
    {
      Valid() && forall k :: k in habits ==> StatsAgree(habits[k], entries)
    }

    constructor ()
      ensures Valid() && Consistent()
      ensures order == [] && habits == map[] && entries == []
    {
      order := [];
      habits := map[];
      entries := [];
    }

    /**
     * `create_habit` with the id `id` chosen by the caller: the habit is
     * stored active and with no completions, replacing any habit with the
     * same id in place; the log is not touched.
     */
    method CreateHabit(id: HabitId, name: string, description: string, category: string,
                       targetFrequency: string, targetCount: int, now: string) returns (r: HabitId)
      requires Valid()
      modifies this
      ensures Valid()
      ensures r == id
      ensures habits == old(habits)[id := Habit(id, name, description, category, targetFrequency,
                                                targetCount, now, true, 0, 0)]
      ensures order == if id in old(habits) then old(order) else old(order) + [id]
      ensures entries == old(entries)
      ensures old(Consistent()) && id !in old(habits) && EntriesOf(entries, id) == [] ==> Consistent()
    {
      var habit := Habit(id, name, description, category, targetFrequency, targetCount, now, true, 0, 0);
      if id !in habits {
        order := order + [id];
      }
      habits := habits[id := habit];
      r := id;
    }

    /**
     * `log_habit` on day `today` at time `now`: an unknown id changes
     * nothing and gives false; otherwise the entry for `(id, today)` is
     * upserted and the habit's derived fields are recomputed.
     */
    method LogHabit(id: HabitId, completed: bool, notes: string, today: Day, now: string)
      returns (ok: bool)
      requires Valid()
      modifies this
      ensures Valid() && order == old(order)
      ensures ok == (id in old(habits))
      ensures !ok ==> habits == old(habits) && entries == old(entries)
      ensures ok ==> entries == Upsert(old(entries), id, today, completed, notes, now)
      ensures ok ==> habits == old(habits)[id := Refreshed(old(habits)[id], entries)]
      ensures ok ==> StatsAgree(habits[id], entries)
      ensures old(Consistent()) ==> Consistent()
    {
      if id !in habits {
        return false;
      }
      RecordEntry(id, completed, notes, today, now);
      UpdateHabitStats(id);
      ok := true;
      if old(Consistent()) {
        LoggedStoreAgrees(old(habits), old(entries), id, today, completed, notes, now, habits);
      }
    }

    /**
     * The upsert step of `log_habit`: the first entry keyed `(id, today)` is
     * found by a linear search and updated in place, or a new entry is appended.
     */
    method RecordEntry(id: HabitId, completed: bool, notes: string, today: Day, now: string)
      modifies this`entries
      ensures entries == Upsert(old(entries), id, today, completed, notes, now)
    {
      var i := 0;
      while i < |entries| && !Matches(entries[i], id, today)
        invariant i <= |entries|
        invariant forall j :: 0 <= j < i ==> !Matches(entries[j], id, today)
      {
        i := i + 1;
      }
      assert i == FirstMatch(entries, id, today);
      if i < |entries| {
        entries := entries[i := entries[i].(completed := completed, notes := notes, timestamp := now)];
      } else {
        entries := entries + [Entry(id, today, completed, notes, now)];
      }
    }

    /**
     * `_update_habit_stats`: the habit's total completions and streak are
     * recomputed from its entries, newest first; nothing else changes.
     */
    method UpdateHabitStats(id: HabitId)
      requires Valid() && id in habits
      modifies this`habits
      ensures Valid()
      ensures habits == old(habits)[id := Refreshed(old(habits)[id], entries)]
    {
      var total, streak := HabitStats(entries, id);
      habits := habits[id := habits[id].(totalCompletions := total, streakCount := streak)];
    }

    /** `get_habits`. */
    function GetHabits(activeOnly: bool): seq<Habit>
      reads this
      requires Valid()
    {
      Listed(order, habits, activeOnly)
    }

    /**
     * `get_habit_progress` for the `days` days ending on `today`: one record
     * per day, oldest first, each showing the habit's entry for that day or
     * a blank miss, with the number and the share of completed days.
     */
    method GetHabitProgress(id: HabitId, days: int, today: Day) returns (r: ProgressResult)
      requires Valid()
      ensures id !in habits <==> r == NoHabit
      ensures id in habits && days <= 0 <==> r == DivisionByZero
      ensures r.Report? ==>
                && r.habit == habits[id]
                && |r.records| == r.totalDays == days
                && (forall k :: 0 <= k < days ==> r.records[k].date == today - (days - 1) + k)
                && (forall k :: 0 <= k < days ==>
                      r.records[k] == RecordFor(Window(entries, id, today - (days - 1), today),
                                                today - (days - 1) + k))
                && r.completedDays == Count(r.records, DayDone) <= r.totalDays
                && r.completionRate == (r.completedDays as real) / (days as real) * 100.0
    {
      if id !in habits {
        return NoHabit;
      }
      var start := today - (days - 1);
      var window := CollectWindow(id, start, today);
      var records := DayRecords(window, start, today);
      if |records| == 0 {
        return DivisionByZero;
      }
      var done := Count(records, DayDone);
      r := Report(habits[id], records, (done as real) / (|records| as real) * 100.0, |records|, done);
    }

    /** The `entries_dict` loop of `get_habit_progress`: the window of habit `id` over `[lo, hi]`. */
    method CollectWindow(id: HabitId, lo: Day, hi: Day) returns (window: map<Day, Entry>)
      ensures window == Window(entries, id, lo, hi)
    {
      window := map[];
      var i := 0;
      while i < |entries|
        invariant i <= |entries|
        invariant window == Window(entries[..i], id, lo, hi)
      {
        assert entries[..i + 1][..i] == entries[..i];
        var e := entries[i];
        if e.habitId == id && lo <= e.date <= hi {
          window := window[e.date := e];
        }
        i := i + 1;
      }
      assert entries[..|entries|] == entries;
    }

    /** `get_analytics` on day `today`. */
    function GetAnalytics(today: Day): Summary
      reads this
      requires Valid()
    {
      Summarize(InOrder(order, habits), entries, today)
    }

    /** The bands `get_insights` chooses on day `today`. */
    function GetInsights(today: Day): Insight
      reads this
      requires Valid()
    {
      InsightFor(GetAnalytics(today), BestStreak(GetHabits(true)))
    }
  }
}
