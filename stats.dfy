/**
 * The statistics engine: the derived fields of a habit as functions of the
 * entry log (api/main.py, `_update_habit_stats`).
 *
 * `habit_entries` is the habit's entries sorted by date, newest first;
 * `total_completions` counts its completed entries and `streak_count` is the
 * length of its leading run of completed entries.  Days without an entry do
 * not interrupt the run: only an entry logged as not completed does.
 */
module Stats {
  import opened Counting
  import opened Sorting
  import opened Habits

  /** The entries of habit `id`, in log order. */
  function EntriesOf(es: seq<Entry>, id: HabitId): seq<Entry> {
    Filter(es, OfHabit(id))
  }

  /** `habit_entries`: the entries of habit `id`, newest first (stable on equal dates). */
  function ByRecency(es: seq<Entry>, id: HabitId): seq<Entry> {
    SortDesc(EntriesOf(es, id), DateOf)
  }

  /** `total_completions`: how many entries of habit `id` are completed. */
  function TotalCompletions(es: seq<Entry>, id: HabitId): nat {
    Count(EntriesOf(es, id), IsCompleted)
  }

  /** Length of the run of completed entries at the front of `s`. */
  function LeadingRun(s: seq<Entry>): (n: nat)
    ensures n <= |s|
    ensures forall i :: 0 <= i < n ==> s[i].completed
    ensures n < |s| ==> !s[n].completed
  {
    if s == [] || !s[0].completed then 0 else 1 + LeadingRun(s[1..])
  }

  /** A run of `n` completed entries followed by a miss or by the end is the leading run. */
  lemma LeadingRunIs(s: seq<Entry>, n: nat)
    requires n <= |s|
    requires forall i :: 0 <= i < n ==> s[i].completed
    requires n < |s| ==> !s[n].completed
    ensures LeadingRun(s) == n
  {
  }

  /** `streak_count`: the leading completed run of the newest-first entries of habit `id`. */
  function Streak(es: seq<Entry>, id: HabitId): nat {
    LeadingRun(ByRecency(es, id))
  }

  /** `e` is dated after every entry of `hs` that was logged as not completed. */
  predicate AfterEveryMiss(e: Entry, hs: seq<Entry>) {
    forall m :: m in hs && !m.completed ==> m.date < e.date
  }

  /** The test "completed, and dated after every miss in `hs`". */
  function SinceLastMiss(hs: seq<Entry>): Entry -> bool {
    (e: Entry) => e.completed && AfterEveryMiss(e, hs)
  }

  lemma {:induction false} EntriesOfMembers(es: seq<Entry>, id: HabitId)
    ensures forall e :: e in EntriesOf(es, id) <==> e in es && e.habitId == id
  {
    FilterMembers(es, OfHabit(id));
  }

  /** The newest-first order holds exactly the habit's entries. */
  lemma ByRecencyMembers(es: seq<Entry>, id: HabitId)
    ensures forall e :: e in ByRecency(es, id) <==> e in es && e.habitId == id
  {
    EntriesOfMembers(es, id);
    var hs := EntriesOf(es, id);
    var s := ByRecency(es, id);
    assert multiset(s) == multiset(hs);
    forall e ensures e in s <==> e in hs {
      assert e in s <==> e in multiset(s);
      assert e in hs <==> e in multiset(hs);
    }
  }

  /** Sorting does not change the number of completions. */
  lemma TotalByRecency(es: seq<Entry>, id: HabitId)
    ensures Count(ByRecency(es, id), IsCompleted) == TotalCompletions(es, id)
  {
    CountPermutation(ByRecency(es, id), EntriesOf(es, id), IsCompleted);
  }

  /** A streak never exceeds the habit's completions. */
  lemma StreakAtMostTotal(es: seq<Entry>, id: HabitId)
    ensures Streak(es, id) <= TotalCompletions(es, id)
  {
    var s := ByRecency(es, id);
    var n := LeadingRun(s);
    assert s == s[..n] + s[n..];
    CountAppend(s[..n], s[n..], IsCompleted);
    CountAll(s[..n], IsCompleted);
    TotalByRecency(es, id);
  }

  /**
   * Gaps do not break a streak: when no entry of the habit is a miss, the
   * streak is every completion, however far apart their dates are.
   */
  lemma StreakWithoutMisses(es: seq<Entry>, id: HabitId)
    requires forall e :: e in es && e.habitId == id ==> e.completed
    ensures Streak(es, id) == TotalCompletions(es, id)
  {
    var s := ByRecency(es, id);
    ByRecencyMembers(es, id);
    forall i | 0 <= i < |s| ensures s[i].completed {
      assert s[i] in s;
    }
    assert LeadingRun(s) == |s|;
    CountAll(s, IsCompleted);
    TotalByRecency(es, id);
  }

  /** With unique keys a habit's entries have pairwise distinct dates. */
  lemma {:induction false} EntriesOfDistinctDates(es: seq<Entry>, id: HabitId)
    requires UniqueKeys(es)
    ensures DistinctKeys(EntriesOf(es, id), DateOf)
  {
    if es != [] {
      var init := es[..|es| - 1];
      var last := es[|es| - 1];
      assert UniqueKeys(init);
      EntriesOfDistinctDates(init, id);
      var hs := EntriesOf(init, id);
      assert EntriesOf(es, id) == hs + (if last.habitId == id then [last] else []);
      if last.habitId == id {
        EntriesOfMembers(init, id);
        forall i | 0 <= i < |hs| ensures hs[i].date != last.date {
          assert hs[i] in init;
          var j :| 0 <= j < |init| && init[j] == hs[i];
        }
        var r := hs + [last];
        forall i, j | 0 <= i < j < |r| ensures DateOf(r[i]) != DateOf(r[j]) {
          if j == |hs| {
            assert r[i] == hs[i] && r[j] == last;
          } else {
            assert r[i] == hs[i] && r[j] == hs[j];
          }
        }
      }
    }
  }

  /**
   * The streak, characterised without sorting: when every `(habit, date)`
   * key occurs at most once, `streak_count` is the number of the habit's
   * completed entries dated after every one of its misses.
   */
  lemma StreakIsCompletionsSinceLastMiss(es: seq<Entry>, id: HabitId)
    requires UniqueKeys(es)
    ensures Streak(es, id) == Count(EntriesOf(es, id), SinceLastMiss(EntriesOf(es, id)))
  {
    var hs := EntriesOf(es, id);
    var s := ByRecency(es, id);
    EntriesOfDistinctDates(es, id);
    SortDescStrictly(hs, DateOf);
    assert forall e :: e in s <==> e in hs by {
      EntriesOfMembers(es, id);
      ByRecencyMembers(es, id);
    }
    RunIsSinceLastMiss(s, hs);
    CountLeading(s, SinceLastMiss(hs), LeadingRun(s));
    CountPermutation(s, hs, SinceLastMiss(hs));
  }

  /**
   * In a list with strictly decreasing dates, holding the same entries as
   * `hs`, the entries completed after every miss are exactly the leading
   * completed run.
   */
  lemma RunIsSinceLastMiss(s: seq<Entry>, hs: seq<Entry>)
    requires StrictlyDescending(s, DateOf)
    requires forall e :: e in s <==> e in hs
    ensures forall i :: 0 <= i < |s| ==> (SinceLastMiss(hs)(s[i]) <==> i < LeadingRun(s))
  {
    var k := LeadingRun(s);
    forall i | 0 <= i < |s| ensures SinceLastMiss(hs)(s[i]) <==> i < k {
      if i < k {
        forall m | m in hs && !m.completed ensures m.date < s[i].date {
          var j :| 0 <= j < |s| && s[j] == m;
          assert j > i;
        }
      } else {
        assert s[k] in hs && !s[k].completed;
        assert i == k || s[k].date > s[i].date;
      }
    }
  }

  /** A miss on the habit's latest logged day leaves it with no streak. */
  lemma LatestMissEndsStreak(es: seq<Entry>, id: HabitId, miss: Entry)
    requires UniqueKeys(es)
    requires miss in es && miss.habitId == id && !miss.completed
    requires forall e :: e in es && e.habitId == id ==> e.date <= miss.date
    ensures Streak(es, id) == 0
  {
    var hs := EntriesOf(es, id);
    EntriesOfMembers(es, id);
    StreakIsCompletionsSinceLastMiss(es, id);
    forall e | e in hs ensures !SinceLastMiss(hs)(e) {
      assert miss in hs;
    }
    CountNone(hs, SinceLastMiss(hs));
  }

  /**
   * Four entries of one habit on increasing dates, completed, completed,
   * missed, completed: the miss cuts the streak to the one completion after
   * it, while the total still counts all three.
   */
  lemma MissResetsStreak(es: seq<Entry>, id: HabitId)
    requires |es| == 4
    requires forall i :: 0 <= i < 4 ==> es[i].habitId == id
    requires es[0].completed && es[1].completed && !es[2].completed && es[3].completed
    requires es[0].date < es[1].date < es[2].date < es[3].date
    ensures Streak(es, id) == 1 && TotalCompletions(es, id) == 3
  {
    assert EntriesOf(es, id) == es by {
      forall x | x in es ensures OfHabit(id)(x) {
        var i :| 0 <= i < 4 && es[i] == x;
      }
      FilterAll(es, OfHabit(id));
    }
    assert UniqueKeys(es) by {
      forall i, j | 0 <= i < j < |es| ensures es[i].date != es[j].date {
        assert i == 0 || i == 1 || i == 2;
        assert j == 1 || j == 2 || j == 3;
      }
    }
    StreakIsCompletionsSinceLastMiss(es, id);
    OnlyLastSinceMiss(es);
    Count4(es, IsCompleted);
  }

  lemma OnlyLastSinceMiss(es: seq<Entry>)
    requires |es| == 4
    requires es[0].completed && es[1].completed && !es[2].completed && es[3].completed
    requires es[0].date < es[1].date < es[2].date < es[3].date
    ensures Count(es, SinceLastMiss(es)) == 1
  {
    var p := SinceLastMiss(es);
    forall m | m in es && !m.completed ensures m.date < es[3].date {
      assert m == es[2];
    }
    assert !p(es[0]) && !p(es[1]) && !p(es[2]) && p(es[3]);
    Count4(es, p);
  }

  lemma Count4(es: seq<Entry>, p: Entry -> bool)
    requires |es| == 4
    ensures Count(es, p) == Count2Of(es[0], es[1], p) + Count2Of(es[2], es[3], p)
  {
    assert es == [es[0], es[1]] + [es[2], es[3]];
    CountAppend([es[0], es[1]], [es[2], es[3]], p);
    Count2(es[0], es[1], p);
    Count2(es[2], es[3], p);
  }

  function Count2Of(x: Entry, y: Entry, p: Entry -> bool): nat {
    (if p(x) then 1 else 0) + (if p(y) then 1 else 0)
  }

  lemma Count2(x: Entry, y: Entry, p: Entry -> bool)
    ensures Count([x, y], p) == (if p(x) then 1 else 0) + (if p(y) then 1 else 0)
  {
    assert [x, y] == [x] + [y];
    CountAppend([x], [y], p);
    CountSingleton(x, p);
    CountSingleton(y, p);
  }

  /**
   * A miss of habit `id` dated on or after all its other entries, and
   * strictly after those logged before it, ends the streak, even when later
   * entries share its date: the stable sort keeps it ahead of them.
   */
  lemma MissFirstEndsStreak(es: seq<Entry>, id: HabitId, front: seq<Entry>, miss: Entry, back: seq<Entry>)
    requires es == front + ([miss] + back)
    requires miss.habitId == id && !miss.completed
    requires forall y :: y in front && y.habitId == id ==> y.date < miss.date
    requires forall y :: y in back && y.habitId == id ==> y.date <= miss.date
    ensures Streak(es, id) == 0
  {
    FilterAppend(front, [miss] + back, OfHabit(id));
    FilterCons(miss, back, OfHabit(id));
    FilterMembers(front, OfHabit(id));
    FilterMembers(back, OfHabit(id));
    SortDescFirstOfTop(Filter(front, OfHabit(id)), miss, Filter(back, OfHabit(id)), DateOf);
  }

  /**
   * Two completions of the habit with days between them and no entry for
   * those days: the skipped days do not break the streak, which is 2.
   */
  lemma GapKeepsStreak(es: seq<Entry>, id: HabitId)
    requires |es| == 2 && es[0].habitId == id && es[1].habitId == id
    requires es[0].completed && es[1].completed && es[0].date + 1 < es[1].date
    ensures Streak(es, id) == 2
  {
    assert forall e :: e in es ==> e == es[0] || e == es[1];
    StreakWithoutMisses(es, id);
    FilterAll(es, OfHabit(id));
    assert es == [es[0], es[1]];
    Count2(es[0], es[1], IsCompleted);
  }

  /**
   * Logging a completion dated after every entry of the habit adds one to
   * its streak, however many days passed since the last entry.
   */
  lemma CompletionExtendsStreak(es: seq<Entry>, id: HabitId, e: Entry)
    requires e.habitId == id && e.completed
    requires forall x :: x in es && x.habitId == id ==> x.date < e.date
    ensures Streak(es + [e], id) == Streak(es, id) + 1
  {
    var hs := EntriesOf(es, id);
    EntriesOfAppended(es, id, e);
    EntriesOfMembers(es, id);
    SortDescNewestLast(hs, e, DateOf);
    LeadingRunCompleted(e, SortDesc(hs, DateOf));
  }

  /** Appending an entry of habit `id` to the log appends it to the habit's entries. */
  lemma EntriesOfAppended(es: seq<Entry>, id: HabitId, e: Entry)
    requires e.habitId == id
    ensures EntriesOf(es + [e], id) == EntriesOf(es, id) + [e]
  {
    assert (es + [e])[..|es|] == es;
  }

  /** A completed entry in front lengthens the leading run by one. */
  lemma LeadingRunCompleted(e: Entry, t: seq<Entry>)
    requires e.completed
    ensures LeadingRun([e] + t) == LeadingRun(t) + 1
  {
    assert ([e] + t)[1..] == t;
  }
}
