# Habit tracker core in Dafny

This project models the in-memory habit store of the habit-tracking backend
in `api/main.py` and proves properties about it. The store is the
`HabitTracker` class:

- a dictionary of habits keyed by id, kept in insertion order;
- a log of daily entries keyed by `(habit_id, date)`.

Its operations are modelled as follows:

- `create_habit` stores a habit.
- `log_habit` upserts today's entry and then recomputes the habit's derived fields (`_update_habit_stats`).
- `get_habits`, `get_habit_progress` and `get_analytics` are read-only views.
- The band-selection part of `get_insights` chooses which motivational message category fires.

Modules:

- `Counting` (counting.dfy) — generic `Count` and `Filter` over sequences, with their algebra.
- `Sorting` (sorting.dfy) — a stable descending sort. It has the behaviour of Python's `sorted(..., reverse=True)`: sorted, a permutation, and stable on equal keys.
- `Habits` (habits.dfy) — the `Habit` and `HabitEntry` records and the store invariant.
- `Stats` (stats.dfy) — total completions and streak as functions of the log. It also characterises the streak without sorting.
- `Analytics` (analytics.dfy) — the habit listing and the analytics summary: category breakdown, today's rate and top five streaks.
- `Insights` (insights.dfy) — the completion-rate, streak and habit-count bands.
- `Progress` (progress.dfy) — the date window and the per-day records of the progress view.
- `Tracker` (tracker.dfy) — the upsert on the log, and the `HabitTracker` class. The class fields are `order`, `habits` and `entries`, and its methods are the state-changing operations with their loops.

Modelling choices:

- A date is an integer day number. The source compares ISO `YYYY-MM-DD` strings, which order dates the same way.
- The clock is a parameter: `today` is a day number and `now` a timestamp string.
- The caller supplies the habit id.
- Rates are exact reals.

Where the code and the intended design disagree, the model follows the code:

- **Habit ids can collide.** `create_habit` builds the id from the dictionary size and a timestamp in seconds, so two ids can be equal. An equal id overwrites the stored habit in place. `CreateHabit` models that overwrite.
- **Unknown habit in the progress view.** It returns an empty result (`NoHabit`), not an error.
- **`days <= 0` in the progress view.** The window is empty and the rate divides by zero. This is modelled as the `DivisionByZero` result.
- **`today_completed` counts every completed entry dated today.** That includes entries of inactive or unknown habits. So with no active habit the rate is `100 × today_completed`, not 0, and a rate above 100 selects the "Outstanding" band, not "Perfect day".
- **Unique `(habit_id, date)` keys are not guaranteed.** `log_habit` keeps them unique, but nothing checks the stored log. The streak lemmas about logging a completion or a miss hold for any log, duplicate keys included. The lemmas that do need unique keys say so in their `requires`: `EntriesOfDistinctDates`, `StreakIsCompletionsSinceLastMiss`, `LatestMissEndsStreak`, `UpsertKeepsUniqueKeys`, `UpsertReadsBack` and `LoggedDayShown`.

## Model

| member | source | states |
|---|---|---|
| Tracker.Upsert | api/main.py:149-168 | definition, no contract; its properties are in `Tracker.UpsertTouchesOneEntry`, `UpsertMembers`, `UpsertKeyCount`, `UpsertKeepsUniqueKeys`, `UpsertReadsBack`, `UpsertOtherHabits`, `UpsertSplits` |
| Stats.EntriesOf | api/main.py:181 | definition, no contract; its properties are in `Stats.EntriesOfMembers`, `EntriesOfDistinctDates` |
| Stats.ByRecency | api/main.py:180-184 | definition, no contract; its properties are in `Stats.ByRecencyMembers` and the `Sorting.SortDesc*` lemmas |
| Stats.TotalCompletions | api/main.py:186-187 | definition, no contract; its properties are in `Stats.TotalByRecency`, `StreakAtMostTotal`, `StreakWithoutMisses` |
| Stats.Streak | api/main.py:189-197 | definition, no contract; its properties are in `Stats.StreakIsCompletionsSinceLastMiss`, `LatestMissEndsStreak`, `MissFirstEndsStreak`, `CompletionExtendsStreak`, `GapKeepsStreak`, `MissResetsStreak`, and `Tracker.CurrentStreak` |
| Progress.Window | api/main.py:216-221 | definition, no contract; its properties are in `Progress.WindowDomain`, `WindowLastEntry`, and `Tracker.HabitTracker.CollectWindow` |
| Progress.RecordFor | api/main.py:224-234 | definition, no contract; its properties are in `Progress.LoggedDayShown`, `MissingDayDefaults`, and `Tracker.DayRecords` |
| Analytics.Listed | api/main.py:199-205 | definition, no contract; its properties are in `Analytics.ListedMembers` |
| Analytics.CategoryCounts | api/main.py:250-253 | definition, no contract; its properties are in `Analytics.CategoryCountsCorrect`, `CategoryNames` |
| Analytics.TopStreaks | api/main.py:261 | definition, no contract; its properties are in `Analytics.TopStreaksOrdered`, `TopStreaksHighest`, `TopStreaksStable`, `BestIsFirstTopStreak` |
| Analytics.CompletionRate | api/main.py:268 | definition, no contract; its properties are in `Analytics.CompletionRateBounds` |
| Analytics.Summarize | api/main.py:246-270 | definition, no contract; its properties are in `Analytics.AnalyticsCorrect`, `BestStreaksOfStore`, `TodayCountsAnyHabit`, `OrphanEntryFillsRate` |
| Insights.RateBandOf | api/main.py:452-460 | definition, no contract; its properties are in `Insights.RateBandMonotone`, `AboveHundredIsOutstanding`, `FullDayIsPerfect` |
| Insights.StreakBandOf | api/main.py:462-469 | definition, no contract; its properties are in `Insights.StreakBandMonotone`, `NoStreakBandIffNoStreak` |
| Insights.CountBandOf | api/main.py:471-481 | definition, no contract; its properties are in `Insights.FocusIffActive` |
| Insights.InsightFor | api/main.py:452-481 | definition, no contract; its properties are in `Insights.FocusIffActive`, `FullDayIsPerfect` |
| Tracker.Refreshed | api/main.py:186-197 | definition, no contract; its properties are in `Tracker.LoggedStoreAgrees`, `AgreeOnSameEntries`, and `Tracker.HabitTracker.UpdateHabitStats` |
| Tracker.HabitTracker.GetHabits | api/main.py:199-205 | definition, no contract; its properties are in `Analytics.ListedMembers`, applied to the store's `order` and `habits` |
| Tracker.HabitTracker.GetAnalytics | api/main.py:246-270 | definition, no contract; its properties are in `Analytics.AnalyticsCorrect` and `BestStreaksOfStore`, applied to the store |
| Tracker.HabitTracker.GetInsights | api/main.py:446-481 | definition, no contract; its properties are in the `Insights` lemmas, applied to the store's summary and best streak |
| Stats.LeadingRun | api/main.py:189-197 | the streak loop's count: every entry before it is completed, and the entry right after it (if any) is not |
| Stats.LeadingRunIs | api/main.py:189-197 | a run of completed entries ending at a miss or at the end of the list is the leading run |
| Sorting.SortDesc | api/main.py:180-184 | the sorted list is a permutation of the input |
| Sorting.SortDescDescending | api/main.py:180-184 | `sorted(..., reverse=True)` yields keys in non-increasing order |
| Sorting.SortDescStrictly | api/main.py:180-184 | with pairwise distinct keys the sorted order is strictly decreasing |
| Sorting.SortDescStable | api/main.py:180-184 | the sort is stable: the elements with any one key keep their input order |
| Sorting.DescendingSplit | api/main.py:261 | in a descending list nothing after a cut point has a higher key than anything before it |
| Stats.EntriesOfMembers | api/main.py:181 | a habit's entries are exactly the log entries with its id |
| Stats.ByRecencyMembers | api/main.py:180-184 | the newest-first list holds exactly the habit's entries |
| Stats.TotalByRecency | api/main.py:186-187 | counting completions on the sorted list gives the habit's total completions |
| Stats.StreakAtMostTotal | api/main.py:186-197 | the streak never exceeds the total completions |
| Stats.StreakWithoutMisses | api/main.py:189-197 | with no miss logged, the streak equals the total, whatever the gaps between dates |
| Stats.EntriesOfDistinctDates | api/main.py:181 | with unique `(habit, date)` keys, one habit's entries have pairwise distinct dates |
| Stats.StreakIsCompletionsSinceLastMiss | api/main.py:180-197 | with unique keys, the streak equals the number of completed entries dated after every miss of that habit |
| Stats.LatestMissEndsStreak | api/main.py:189-197 | a miss on the habit's latest logged day gives streak 0 |
| Stats.MissResetsStreak | api/main.py:186-197 | four entries of one habit on increasing dates, completed, completed, missed, completed: streak 1, total 3 |
| Stats.OnlyLastSinceMiss | api/main.py:189-197 | in a four-entry log where only the third entry is a miss, only the fourth entry comes after every miss |
| Stats.GapKeepsStreak | api/main.py:189-197 | two completions of a habit with unlogged days between them: the skipped days do not break the streak, which is 2 |
| Stats.CompletionExtendsStreak | api/main.py:189-197 | appending a completion dated after all of the habit's entries adds exactly 1 to its streak, for any log, duplicate keys included |
| Stats.MissFirstEndsStreak | api/main.py:180-197 | a miss dated on or after every other entry of the habit, and strictly after those logged before it, gives streak 0: the stable sort puts it first even when later entries share its date |
| Analytics.InOrder | api/main.py:201 | the listing has one habit per key, in the dictionary's insertion order |
| Analytics.ListedMembers | api/main.py:199-205 | `get_habits` lists each stored habit, or with `active_only` exactly the active ones; its length is the number of habits, or the number of active ones |
| Analytics.Bump | api/main.py:253 | a `defaultdict` increment adds the category to the set of keys |
| Analytics.BumpCounts | api/main.py:253 | one increment adds 1 to the total and to that category's count only, and keeps the keys distinct and the counts positive |
| Analytics.CategoryCountsCorrect | api/main.py:250-253 | the category counts sum to the number of habits, no category appears twice, every count is positive, and each category's count is the number of its habits |
| Analytics.CategoryNames | api/main.py:250-253 | exactly the categories of the habits appear in the breakdown |
| Analytics.TopStreaksOrdered | api/main.py:260-261 | `best_streaks` has min(5, active) habits in non-increasing streak order |
| Analytics.TopStreaksHighest | api/main.py:261 | the kept habits come from the active ones, and no habit left out has a higher streak than one kept |
| Analytics.TopStreaksStable | api/main.py:261 | the kept habits with a given streak are the first such habits in insertion order |
| Analytics.BestStreak | api/main.py:463 | `max(streak_count, default=0)`: at least every streak, 0 for no habit, and otherwise attained by some habit |
| Analytics.BestIsFirstTopStreak | api/main.py:463 | the best streak is the streak at the head of `best_streaks` |
| Analytics.Items | api/main.py:269 | definition, no contract of its own beyond the element-wise shape; what the items mean on the store is in `Analytics.BestStreaksOfStore` |
| Analytics.TopItemFrom | api/main.py:261-269 | every `best_streaks` item is the name and streak of one of the active habits |
| Analytics.UnlistedItemNotHigher | api/main.py:261-269 | an active habit whose item is not listed has a streak no higher than any listed item |
| Analytics.BestStreaksOfStore | api/main.py:246-270 | on the store, every `best_streaks` item is the name and streak of an active stored habit, and an active habit left out of the list has a streak no higher than any listed one |
| Analytics.CompletionRateBounds | api/main.py:268 | the rate is non-negative; it is 0 iff nothing was completed today; it is at most 100 when completed ≤ active, exactly 100 when all active habits are done; with no active habit it is 100 × completed |
| Analytics.AnalyticsCorrect | api/main.py:246-270 | `total_habits` = `today_total` = number of active habits; the category counts sum to it; there are min(5, active) streak items in non-increasing order; the rate is 0 iff `today_completed` is 0 |
| Analytics.TodayCountsAnyHabit | api/main.py:255-258 | one more completed entry dated today adds 1 to `today_completed` whichever habit it belongs to; `today_total` is unchanged |
| Analytics.OrphanEntryFillsRate | api/main.py:255-268 | with no habits, one completed entry today gives `today_total` 0 and a rate of 100 |
| Insights.RateBandMonotone | api/main.py:452-460 | up to 100, a higher completion rate never selects a lower band |
| Insights.AboveHundredIsOutstanding | api/main.py:452-460 | a rate above 100 selects "Outstanding", below "Perfect day" |
| Insights.StreakBandMonotone | api/main.py:462-469 | a longer best streak never selects a lower streak band |
| Insights.NoStreakBandIffNoStreak | api/main.py:462-469 | no streak band fires iff every active habit has streak 0 |
| Insights.FocusIffActive | api/main.py:471-481 | the category message fires, and a habit-count band is chosen, iff some habit is active |
| Insights.FullDayIsPerfect | api/main.py:452-460 | completed today = active ≥ 1 selects "Perfect day"; nothing completed selects the lowest band |
| Progress.WindowDomain | api/main.py:216-221 | a day is in `entries_dict` iff it lies in the window and the habit has an entry that day |
| Progress.WindowLastEntry | api/main.py:216-221 | the entry stored for a day is the habit's last entry for that day in the log |
| Progress.LoggedDayShown | api/main.py:224-234 | with unique keys, a logged day in the window shows that entry's status and notes |
| Progress.MissingDayDefaults | api/main.py:224-234 | a day without an entry of the habit shows `completed = false` and empty notes |
| Tracker.FirstMatch | api/main.py:149-153 | the `next(...)` search stops at the first entry keyed `(id, today)`, or at the end when there is none |
| Tracker.UpsertTouchesOneEntry | api/main.py:155-168 | an existing key: the length is unchanged, the first matching entry becomes the logged one and all others stay; no key: the new entry is appended at the end |
| Tracker.UpsertMembers | api/main.py:155-168 | after the upsert every entry was already logged or is the new one |
| Tracker.UpsertKeyCount | api/main.py:149-168 | the upsert never duplicates a key: its count stays, or becomes 1 when it was 0 |
| Tracker.UpsertKeepsUniqueKeys | api/main.py:149-168 | unique `(habit_id, date)` keys stay unique |
| Tracker.UpsertReadsBack | api/main.py:155-168 | with unique keys, the entry for `(id, today)` is present and carries the logged status and notes |
| Tracker.UpsertOtherHabits | api/main.py:155-168 | the entries of every other habit are unchanged |
| Tracker.LoggingCompletionExtendsStreak | api/main.py:142-197 | logging a completion after all of the habit's entries raises its streak by exactly 1, even across skipped days, for any log, duplicate keys included |
| Tracker.LoggingMissEndsStreak | api/main.py:142-197 | logging a miss on or after the habit's latest entry day resets its streak to 0, for any log, duplicate keys included |
| Tracker.UpsertSplits | api/main.py:149-168 | the upserted log is the log before the first match, then the logged entry, then what followed the match (nothing when the entry is appended) |
| Tracker.LoggedStoreAgrees | api/main.py:142-197 | if every habit agreed with the log, then after the upsert and the refresh of the logged habit every habit agrees with the new log |
| Tracker.AgreeOnSameEntries | api/main.py:175-197 | a habit's derived fields depend only on that habit's own entries |
| Tracker.HabitTracker.constructor | api/main.py:83-89 | the store starts with no habits and no entries, and is consistent |
| Tracker.HabitTracker.CreateHabit | api/main.py:123-140 | stores the habit active with zero streak and zero completions, replacing an equal id in place. Every other habit and the log are unchanged, and a new id goes last in the order. The store stays well formed, and consistent when the id is new and has no entries |
| Tracker.HabitTracker.LogHabit | api/main.py:142-173 | an unknown id returns false and changes nothing. A known id returns true, upserts the entry and recomputes that habit's derived fields from the new log; other habits and the order are unchanged. Consistency of every habit with the log is preserved |
| Tracker.HabitTracker.RecordEntry | api/main.py:149-168 | the linear search and the in-place update or append yield exactly the upserted log |
| Tracker.HabitTracker.UpdateHabitStats | api/main.py:175-197 | sets the habit's `total_completions` and `streak_count` to its total and streak over the current log; no other habit changes |
| Tracker.HabitStats | api/main.py:179-197 | counting the completions of the habit's newest-first entries and walking them up to the first miss yields exactly its total completions and its streak |
| Tracker.CurrentStreak | api/main.py:189-195 | the `for ... break` loop counts exactly the leading run of completed entries |
| Tracker.HabitTracker.CollectWindow | api/main.py:216-221 | the loop over the log builds exactly the window of the habit's entries in `[lo, hi]`, keyed by date, later entries replacing earlier ones |
| Tracker.DayRecords | api/main.py:223-234 | one record per day from `lo` to `hi`, oldest first, each showing that day's window entry or a blank miss; none when `lo > hi` |
| Tracker.HabitTracker.GetHabitProgress | api/main.py:207-244 | unknown id gives NoHabit; `days <= 0` gives DivisionByZero. Otherwise: `days` records on consecutive ascending dates ending today, each showing that day's window entry or a blank miss; `completed_days` ≤ `total_days` = `days`; rate = 100 × completed/days |

## Left out

- JSON persistence: `load_data` and `save_data` (api/main.py:91-121) are file I/O with swallowed exceptions. The store starts empty, and every method is proved for any well-formed state. `save_data` calls after each change are not modelled.
- The clock (`datetime.now()`, `date.today()`): it is replaced by the `today` and `now` parameters. Dates are day numbers, so the calendar range limits of Python's `date` (an `OverflowError` for a huge `days`) are not modelled.
- The id scheme of `create_habit` (api/main.py:126): the caller supplies the id. Uniqueness is not claimed, because the source's scheme can collide.
- Float arithmetic and `round(..., 1)` (api/main.py:236, 241, 268): rates are exact reals. The insight bands compare the rounded rate, so for rates within 0.05 of 50, 80 or 100 the chosen band can differ from the model's.
- Object identity: the source mutates the stored `Habit` and `HabitEntry` objects in place. The model replaces the map value or the sequence element. Views return `asdict` copies, so no aliasing is observable.
- The most-common-category choice (api/main.py:473): it depends on `max` over dictionary order and only feeds message text. Only whether the category message fires is modelled.
- Message texts, `random.choice` over tips (api/main.py:484-491), the habit templates (api/main.py:506-546), `get_shareable_progress` (api/main.py:556-582), the authentication provider, the tool wrappers and the server startup: these are presentation, randomness and transport.
