/**
 * The day-by-day view of `get_habit_progress` (api/main.py): the entries of
 * one habit inside a window of days are gathered into a dictionary keyed by
 * date, and each day of the window becomes one record, with days that have
 * no entry shown as not completed and without notes.
 */
module Progress {
  import opened Habits

  /** One row of the progress list. */
  datatype DayRecord = DayRecord(date: Day, completed: bool, notes: string)

  /**
   * `entries_dict` after scanning `es` in order: each entry of habit `id`
   * dated within `[lo, hi]` is stored under its date, replacing any earlier one.
   */
  function Window(es: seq<Entry>, id: HabitId, lo: Day, hi: Day): map<Day, Entry> {
    if es == [] then map[]
    else
      var w := Window(es[..|es| - 1], id, lo, hi);
      var e := es[|es| - 1];
      if e.habitId == id && lo <= e.date <= hi then w[e.date := e] else w
  }

  /** The record shown for day `d`: the stored entry's status and notes, or a blank miss. */
  function RecordFor(w: map<Day, Entry>, d: Day): DayRecord {
    if d in w then DayRecord(d, w[d].completed, w[d].notes) else DayRecord(d, false, "")
  }

  predicate DayDone(r: DayRecord) { r.completed }

  /** Habit `id` has an entry dated `d` somewhere in `es`. */
  predicate LoggedOn(es: seq<Entry>, id: HabitId, d: Day) {
    exists i :: 0 <= i < |es| && es[i].habitId == id && es[i].date == d
  }

  /**
   * A day is in the window exactly when it lies in `[lo, hi]` and the habit
   * has an entry on it.
   */
  lemma {:induction false} WindowDomain(es: seq<Entry>, id: HabitId, lo: Day, hi: Day, d: Day)
    ensures d in Window(es, id, lo, hi) <==> lo <= d <= hi && LoggedOn(es, id, d)
  {
    if es != [] {
      var init := es[..|es| - 1];
      WindowDomain(init, id, lo, hi, d);
      if LoggedOn(es, id, d) {
        var i :| 0 <= i < |es| && es[i].habitId == id && es[i].date == d;
        if i < |init| {
          assert init[i] == es[i];
        }
      }
      if LoggedOn(init, id, d) {
        var i :| 0 <= i < |init| && init[i].habitId == id && init[i].date == d;
        assert es[i] == init[i];
      }
    }
  }

  /** The entry stored for a day of the window is the last entry of the log for that day. */
  lemma {:induction false} WindowLastEntry(es: seq<Entry>, id: HabitId, lo: Day, hi: Day, d: Day)
    requires d in Window(es, id, lo, hi)
    ensures exists i :: 0 <= i < |es| && es[i] == Window(es, id, lo, hi)[d]
                        && es[i].habitId == id && es[i].date == d
                        && forall j :: i < j < |es| ==> !(es[j].habitId == id && es[j].date == d)
  {
    var init := es[..|es| - 1];
    var e := es[|es| - 1];
    if e.habitId == id && lo <= e.date <= hi && e.date == d {
      assert es[|es| - 1] == Window(es, id, lo, hi)[d];
    } else {
      WindowLastEntry(init, id, lo, hi, d);
      WindowDomain(init, id, lo, hi, d);
      var i :| 0 <= i < |init| && init[i] == Window(init, id, lo, hi)[d]
               && init[i].habitId == id && init[i].date == d
               && forall j :: i < j < |init| ==> !(init[j].habitId == id && init[j].date == d);
      assert es[i] == init[i];
      forall j | i < j < |es| ensures !(es[j].habitId == id && es[j].date == d) {
        if j < |init| {
          assert es[j] == init[j];
        }
      }
    }
  }

  /**
   * With one entry per `(habit, date)`, a logged day inside the window is
   * shown with that entry's status and notes.
   */
  lemma LoggedDayShown(es: seq<Entry>, id: HabitId, lo: Day, hi: Day, e: Entry)
    requires UniqueKeys(es)
    requires e in es && e.habitId == id && lo <= e.date <= hi
    ensures RecordFor(Window(es, id, lo, hi), e.date) == DayRecord(e.date, e.completed, e.notes)
  {
    var k :| 0 <= k < |es| && es[k] == e;
    WindowDomain(es, id, lo, hi, e.date);
    WindowLastEntry(es, id, lo, hi, e.date);
    var i :| 0 <= i < |es| && es[i] == Window(es, id, lo, hi)[e.date]
             && es[i].habitId == id && es[i].date == e.date
             && forall j :: i < j < |es| ==> !(es[j].habitId == id && es[j].date == e.date);
    assert i == k;
  }

  /** A day on which the habit has no entry is shown as not completed, with no notes. */
  lemma MissingDayDefaults(es: seq<Entry>, id: HabitId, lo: Day, hi: Day, d: Day)
    requires forall e :: e in es && e.habitId == id ==> e.date != d
    ensures RecordFor(Window(es, id, lo, hi), d) == DayRecord(d, false, "")
  {
    WindowDomain(es, id, lo, hi, d);
  }
}
