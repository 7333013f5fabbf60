/**
 * The records the tracker stores: habits and their daily entries.
 *
 * Dates are day numbers.  The tracker writes dates as ISO `YYYY-MM-DD`
 * strings and compares them as strings, which orders them exactly as the
 * day numbers are ordered here.  Timestamps (`created_date`, an entry's
 * `timestamp`) are opaque strings supplied by the caller's clock.
 */
module Habits {

  type HabitId = string
  type Day = int

  /** A tracked habit; `streakCount` and `totalCompletions` are derived from the log. */
  datatype Habit = Habit(
    id: HabitId,
    name: string,
    description: string,
    category: string,
    targetFrequency: string,
    targetCount: int,
    createdDate: string,
    isActive: bool,
    streakCount: nat,
    totalCompletions: nat)

  /** One day's record for one habit, keyed by `(habitId, date)`. */
  datatype Entry = Entry(
    habitId: HabitId,
    date: Day,
    completed: bool,
    notes: string,
    timestamp: string)

  function DateOf(e: Entry): int { e.date }

  function StreakOf(h: Habit): int { h.streakCount }

  predicate IsCompleted(e: Entry) { e.completed }

  predicate IsActive(h: Habit) { h.isActive }

  /** The test "belongs to habit `id`". */
  function OfHabit(id: HabitId): Entry -> bool {
    (e: Entry) => e.habitId == id
  }

  /** The test "is the entry of habit `id` for day `day`". */
  function KeyIs(id: HabitId, day: Day): Entry -> bool {
    (e: Entry) => e.habitId == id && e.date == day
  }

  /** The test "was logged as completed on `day`", for any habit. */
  function CompletedOn(day: Day): Entry -> bool {
    (e: Entry) => e.date == day && e.completed
  }

  /** No two entries share a `(habitId, date)` key. */
  predicate UniqueKeys(es: seq<Entry>) {
    forall i, j :: 0 <= i < j < |es| ==>
      !(es[i].habitId == es[j].habitId && es[i].date == es[j].date)
  }

  /** The test "belongs to category `c`". */
  function InCategory(c: string): Habit -> bool {
    (h: Habit) => h.category == c
  }

  /**
   * The habit store: `habits` keyed by id, with `order` the order in which
   * the keys were first inserted (the iteration order of the dictionary).
   */
  ghost predicate WellFormed(order: seq<HabitId>, habits: map<HabitId, Habit>) {
    && (forall i, j :: 0 <= i < j < |order| ==> order[i] != order[j])
    && (forall k :: k in habits <==> k in order)
    && (forall k :: k in habits ==> habits[k].id == k)
  }
}
