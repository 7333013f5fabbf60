/**
 * The read-only views of the store: the habit listing of `get_habits` and
 * the dashboard numbers of `get_analytics` (api/main.py), as functions of
 * the habits in insertion order and of the entry log.
 */
module Analytics {
  import opened Counting
  import opened Sorting
  import opened Habits

  /** The habits of the store in the dictionary's iteration order. */
  function InOrder(order: seq<HabitId>, habits: map<HabitId, Habit>): (r: seq<Habit>)
    requires forall k :: k in order ==> k in habits
    ensures |r| == |order|
    ensures forall i :: 0 <= i < |order| ==> r[i] == habits[order[i]]
  {
    if order == [] then [] else [habits[order[0]]] + InOrder(order[1..], habits)
  }

  /** `get_habits`: every habit, or only the active ones, in insertion order. */
  function Listed(order: seq<HabitId>, habits: map<HabitId, Habit>, activeOnly: bool): seq<Habit>
    requires forall k :: k in order ==> k in habits
  {
    var all := InOrder(order, habits);
    if activeOnly then Filter(all, IsActive) else all
  }

  /**
   * The listing holds each stored habit once, in insertion order, and with
   * `activeOnly` exactly the active ones.
   */
  lemma ListedMembers(order: seq<HabitId>, habits: map<HabitId, Habit>, activeOnly: bool)
    requires WellFormed(order, habits)
    ensures forall h :: h in Listed(order, habits, activeOnly)
                        <==> h in habits.Values && (activeOnly ==> h.isActive)
    ensures !activeOnly ==> |Listed(order, habits, activeOnly)| == |order|
    ensures activeOnly ==> |Listed(order, habits, activeOnly)| == Count(InOrder(order, habits), IsActive)
  {
    var all := InOrder(order, habits);
    forall h ensures h in all <==> h in habits.Values {
      if h in all {
        var i :| 0 <= i < |all| && all[i] == h;
        assert order[i] in habits;
      }
      if h in habits.Values {
        var k :| k in habits && habits[k] == h;
        var i :| 0 <= i < |order| && order[i] == k;
        assert all[i] == h;
      }
    }
    FilterMembers(all, IsActive);
  }

  /** One entry of the `categories` dictionary. */
  datatype CategoryCount = CategoryCount(category: string, count: nat)

  /** The categories named in `cs`. */
  function Names(cs: seq<CategoryCount>): set<string> {
    if cs == [] then {} else {cs[0].category} + Names(cs[1..])
  }

  /** The sum of the counts in `cs`. */
  function Total(cs: seq<CategoryCount>): nat {
    if cs == [] then 0 else cs[0].count + Total(cs[1..])
  }

  /** The count recorded for category `c` (0 when `c` is absent). */
  function CountFor(cs: seq<CategoryCount>, c: string): nat {
    if cs == [] then 0
    else (if cs[0].category == c then cs[0].count else 0) + CountFor(cs[1..], c)
  }

  /** No category is named twice. */
  predicate DistinctNames(cs: seq<CategoryCount>) {
    cs == [] || (cs[0].category !in Names(cs[1..]) && DistinctNames(cs[1..]))
  }

  /** Every recorded count is at least one. */
  predicate Positive(cs: seq<CategoryCount>) {
    forall i :: 0 <= i < |cs| ==> cs[i].count >= 1
  }

  /**
   * `categories[c] += 1` on a `defaultdict(int)`: an existing key keeps its
   * place and is incremented, a new key is added at the end with count 1.
   */
  function Bump(cs: seq<CategoryCount>, c: string): (r: seq<CategoryCount>)
    ensures Names(r) == Names(cs) + {c}
  {
    if cs == [] then [CategoryCount(c, 1)]
    else if cs[0].category == c then [cs[0].(count := cs[0].count + 1)] + cs[1..]
    else
      assert ([cs[0]] + Bump(cs[1..], c))[1..] == Bump(cs[1..], c);
      [cs[0]] + Bump(cs[1..], c)
  }

  /** The category breakdown of `get_analytics`, built in the order of `hs`. */
  function CategoryCounts(hs: seq<Habit>): seq<CategoryCount> {
    if hs == [] then [] else Bump(CategoryCounts(hs[..|hs| - 1]), hs[|hs| - 1].category)
  }

  lemma {:induction false} BumpCounts(cs: seq<CategoryCount>, c: string)
    ensures Total(Bump(cs, c)) == Total(cs) + 1
    ensures forall d :: CountFor(Bump(cs, c), d) == CountFor(cs, d) + (if d == c then 1 else 0)
    ensures DistinctNames(cs) ==> DistinctNames(Bump(cs, c))
    ensures Positive(cs) ==> Positive(Bump(cs, c))
  {
    if cs != [] && cs[0].category != c {
      BumpCounts(cs[1..], c);
      var r := [cs[0]] + Bump(cs[1..], c);
      assert r[1..] == Bump(cs[1..], c);
      if Positive(cs) {
        forall i | 0 <= i < |r| ensures r[i].count >= 1 {
          if i > 0 {
            assert r[i] == Bump(cs[1..], c)[i - 1];
            assert Positive(cs[1..]) by {
              forall j | 0 <= j < |cs[1..]| ensures cs[1..][j].count >= 1 {
                assert cs[1..][j] == cs[j + 1];
              }
            }
          }
        }
      }
    } else if cs != [] {
      var r := [cs[0].(count := cs[0].count + 1)] + cs[1..];
      assert r[1..] == cs[1..];
    }
  }

  /**
   * The category breakdown counts every habit once: the counts add up to the
   * number of habits, and each category appears once with the number of
   * habits in it.
   */
  lemma {:induction false} CategoryCountsCorrect(hs: seq<Habit>)
    ensures Total(CategoryCounts(hs)) == |hs|
    ensures DistinctNames(CategoryCounts(hs)) && Positive(CategoryCounts(hs))
    ensures forall c :: CountFor(CategoryCounts(hs), c) == Count(hs, InCategory(c))
  {
    if hs != [] {
      CategoryCountsCorrect(hs[..|hs| - 1]);
      BumpCounts(CategoryCounts(hs[..|hs| - 1]), hs[|hs| - 1].category);
    }
  }

  /** Exactly the categories of the habits in `hs` appear in the breakdown. */
  lemma {:induction false} CategoryNames(hs: seq<Habit>)
    ensures Names(CategoryCounts(hs)) == Categories(hs)
  {
    if hs != [] {
      CategoryNames(hs[..|hs| - 1]);
      CategoriesOfLast(hs);
    }
  }

  /** The categories of the habits in `hs`. */
  function Categories(hs: seq<Habit>): set<string> {
    set h | h in hs :: h.category
  }

  lemma CategoriesOfLast(hs: seq<Habit>)
    requires hs != []
    ensures Categories(hs) == Categories(hs[..|hs| - 1]) + {hs[|hs| - 1].category}
  {
    var init := hs[..|hs| - 1];
    var last := hs[|hs| - 1];
    assert hs == init + [last];
    forall c ensures c in Categories(hs) <==> c in Categories(init) + {last.category} {
      if c in Categories(hs) {
        var h :| h in hs && h.category == c;
        assert h in init || h == last;
      }
      if c in Categories(init) {
        var h :| h in init && h.category == c;
        assert h in hs;
      }
    }
  }

  /** `best_streaks`: at most five habits, by streak, highest first, ties in input order. */
  function TopStreaks(active: seq<Habit>): seq<Habit> {
    var sorted := SortDesc(active, StreakOf);
    assert |sorted| == |multiset(sorted)| == |active|;
    sorted[..if |sorted| < 5 then |sorted| else 5]
  }

  /** The top streaks are five habits (all, when fewer), in non-increasing order of streak. */
  lemma TopStreaksOrdered(active: seq<Habit>)
    ensures |TopStreaks(active)| == if |active| < 5 then |active| else 5
    ensures Descending(TopStreaks(active), StreakOf)
  {
    var sorted := SortDesc(active, StreakOf);
    assert |sorted| == |multiset(sorted)| == |active|;
    SortDescDescending(active, StreakOf);
  }

  /**
   * The kept habits come from `active`, and none left out has a higher
   * streak than one kept.
   */
  lemma TopStreaksHighest(active: seq<Habit>)
    ensures multiset(TopStreaks(active)) <= multiset(active)
    ensures forall x, y :: x in multiset(active) - multiset(TopStreaks(active)) && y in TopStreaks(active)
                           ==> y.streakCount >= x.streakCount
  {
    var sorted := SortDesc(active, StreakOf);
    var n := |TopStreaks(active)|;
    assert TopStreaks(active) == sorted[..n];
    assert multiset(sorted[..n]) + multiset(sorted[n..]) == multiset(active) by {
      assert sorted == sorted[..n] + sorted[n..];
    }
    SortDescDescending(active, StreakOf);
    DescendingSplit(sorted, StreakOf, n);
  }

  /**
   * Ties keep their order: the kept habits with any one streak value are the
   * first habits of `active` with that value, in the same order.
   */
  lemma TopStreaksStable(active: seq<Habit>, k: int)
    ensures Filter(TopStreaks(active), HasKey(StreakOf, k)) <= Filter(active, HasKey(StreakOf, k))
  {
    var sorted := SortDesc(active, StreakOf);
    assert |sorted| == |multiset(sorted)|;
    SortDescStable(active, StreakOf, k);
    FilterPrefix(sorted, |TopStreaks(active)|, HasKey(StreakOf, k));
  }

  /** `max(streak_count, default=0)` over `hs`. */
  function BestStreak(hs: seq<Habit>): (b: nat)
    ensures forall h :: h in hs ==> h.streakCount <= b
    ensures hs == [] ==> b == 0
    ensures hs != [] ==> exists h :: h in hs && h.streakCount == b
  {
    if hs == [] then 0
    else
      var rest := BestStreak(hs[1..]);
      assert forall h :: h in hs ==> h == hs[0] || h in hs[1..];
      if hs[0].streakCount >= rest then hs[0].streakCount
      else
        assert hs[1..] != [];
        rest
  }

  /** The best streak is the streak at the head of the top-streaks list. */
  lemma BestIsFirstTopStreak(active: seq<Habit>)
    requires active != []
    ensures TopStreaks(active) != []
    ensures BestStreak(active) == TopStreaks(active)[0].streakCount
  {
    var sorted := SortDesc(active, StreakOf);
    assert |sorted| == |multiset(sorted)| == |active|;
    SortDescDescending(active, StreakOf);
    assert sorted[0] in multiset(active);
    var h :| h in active && h.streakCount == BestStreak(active);
    assert h in multiset(sorted);
    var j :| 0 <= j < |sorted| && sorted[j] == h;
    assert j == 0 || StreakOf(sorted[0]) >= StreakOf(sorted[j]);
  }

  /** One entry of `best_streaks`. */
  datatype StreakItem = StreakItem(name: string, streak: nat)

  /** The result of `get_analytics`; the rate is exact, before rounding. */
  datatype Summary = Summary(
    totalHabits: nat,
    categories: seq<CategoryCount>,
    todayCompleted: nat,
    todayTotal: nat,
    todayCompletionRate: real,
    bestStreaks: seq<StreakItem>)

  function Items(hs: seq<Habit>): (r: seq<StreakItem>)
    ensures |r| == |hs|
    ensures forall i :: 0 <= i < |hs| ==> r[i] == StreakItem(hs[i].name, hs[i].streakCount)
  {
    seq(|hs|, i requires 0 <= i < |hs| => StreakItem(hs[i].name, hs[i].streakCount))
  }

  /** `today_completed / max(active, 1) * 100`, computed exactly. */
  function CompletionRate(done: nat, active: nat): real {
    (done as real) / ((if active >= 1 then active else 1) as real) * 100.0
  }

  /**
   * The rate is never negative and is 0 exactly when nothing was completed
   * today; it is at most 100 when no more entries than active habits were
   * completed, exactly 100 when all of them were, and with no active habit
   * the denominator is 1, so the rate is `100 * done`.
   */
  lemma CompletionRateBounds(done: nat, active: nat)
    ensures CompletionRate(done, active) >= 0.0
    ensures CompletionRate(done, active) == 0.0 <==> done == 0
    ensures done <= active ==> CompletionRate(done, active) <= 100.0
    ensures done == active >= 1 ==> CompletionRate(done, active) == 100.0
    ensures active == 0 ==> CompletionRate(done, active) == 100.0 * done as real
  {
    var d := (if active >= 1 then active else 1) as real;
    var q := (done as real) / d;
    assert q * d == done as real;
    assert CompletionRate(done, active) == q * 100.0;
    if done <= active {
      RatioAtMostOne(done as real, d);
    }
    if done == active >= 1 {
      assert d == done as real;
      assert q == d / d == 1.0;
    }
    if q == 0.0 {
      assert done as real == 0.0 * d;
    }
  }

  /** A share of a positive whole is at most the whole. */
  lemma RatioAtMostOne(n: real, d: real)
    requires 0.0 <= n <= d && d > 0.0
    ensures n / d <= 1.0
  {
    var q := n / d;
    assert q * d == n;
    assert (1.0 - q) * d == d - n;
  }

  /** `get_analytics` over the habits `hs` (in insertion order) and the log `es`. */
  function Summarize(hs: seq<Habit>, es: seq<Entry>, today: Day): Summary {
    var active := Filter(hs, IsActive);
    var done := Count(es, CompletedOn(today));
    Summary(
      |active|,
      CategoryCounts(active),
      done,
      |active|,
      CompletionRate(done, |active|),
      Items(TopStreaks(active)))
  }

  /**
   * The totals agree: both habit totals are the number of active habits,
   * the category counts add up to it, at most five streaks are listed,
   * highest first, and the rate is 0 exactly when nothing was done today.
   */
  lemma AnalyticsCorrect(hs: seq<Habit>, es: seq<Entry>, today: Day)
    ensures Summarize(hs, es, today).totalHabits == Summarize(hs, es, today).todayTotal
    ensures Summarize(hs, es, today).totalHabits == Count(hs, IsActive)
    ensures Total(Summarize(hs, es, today).categories) == Summarize(hs, es, today).totalHabits
    ensures |Summarize(hs, es, today).bestStreaks|
         == if Count(hs, IsActive) < 5 then Count(hs, IsActive) else 5
    ensures forall i, j :: 0 <= i < j < |Summarize(hs, es, today).bestStreaks| ==>
              Summarize(hs, es, today).bestStreaks[i].streak >= Summarize(hs, es, today).bestStreaks[j].streak
    ensures Summarize(hs, es, today).todayCompletionRate == 0.0
            <==> Summarize(hs, es, today).todayCompleted == 0
  {
    var active := Filter(hs, IsActive);
    CategoryCountsCorrect(active);
    TopStreaksOrdered(active);
    CompletionRateBounds(Count(es, CompletedOn(today)), |active|);
  }

  /** Every listed streak item is the name and streak of one of the habits. */
  lemma TopItemFrom(active: seq<Habit>, it: StreakItem)
    requires it in Items(TopStreaks(active))
    ensures exists h :: h in active && it == StreakItem(h.name, h.streakCount)
  {
    var top := TopStreaks(active);
    TopStreaksHighest(active);
    var i :| 0 <= i < |top| && Items(top)[i] == it;
    assert top[i] in multiset(active);
  }

  /** A habit whose item is not listed has a streak no higher than any listed item. */
  lemma UnlistedItemNotHigher(active: seq<Habit>, h: Habit, it: StreakItem)
    requires h in active
    requires it in Items(TopStreaks(active))
    requires StreakItem(h.name, h.streakCount) !in Items(TopStreaks(active))
    ensures it.streak >= h.streakCount
  {
    var top := TopStreaks(active);
    TopStreaksHighest(active);
    assert h in multiset(active) - multiset(top);
    var i :| 0 <= i < |top| && Items(top)[i] == it;
    assert top[i] in top;
  }

  /** The item listed for a stored habit. */
  function ItemOf(habits: map<HabitId, Habit>, k: HabitId): StreakItem
    requires k in habits
  {
    StreakItem(habits[k].name, habits[k].streakCount)
  }

  /**
   * On the store: every best-streak item is the name and streak of an
   * active stored habit, and an active habit whose item is not listed has a
   * streak no higher than any listed one.
   */
  lemma BestStreaksOfStore(order: seq<HabitId>, habits: map<HabitId, Habit>, es: seq<Entry>, today: Day)
    requires WellFormed(order, habits)
    ensures forall it :: it in Summarize(InOrder(order, habits), es, today).bestStreaks ==>
              exists k :: k in habits && habits[k].isActive && it == ItemOf(habits, k)
    ensures forall k, it :: k in habits && habits[k].isActive
                            && it in Summarize(InOrder(order, habits), es, today).bestStreaks
                            && ItemOf(habits, k) !in Summarize(InOrder(order, habits), es, today).bestStreaks
                            ==> it.streak >= habits[k].streakCount
  {
    var active := Listed(order, habits, true);
    var best := Items(TopStreaks(active));
    assert Summarize(InOrder(order, habits), es, today).bestStreaks == best;
    ListedMembers(order, habits, true);
    forall it | it in best ensures exists k :: k in habits && habits[k].isActive && it == ItemOf(habits, k) {
      TopItemFrom(active, it);
      var h :| h in active && it == StreakItem(h.name, h.streakCount);
      var k :| k in habits && habits[k] == h;
      assert it == ItemOf(habits, k);
    }
    forall k, it | k in habits && habits[k].isActive && it in best && ItemOf(habits, k) !in best
      ensures it.streak >= habits[k].streakCount
    {
      UnlistedItemNotHigher(active, habits[k], it);
    }
  }

  /**
   * `today_completed` counts every completed entry dated today, whatever
   * habit it belongs to: one more such entry adds one, even for an inactive
   * or deleted habit, while the number of active habits stays the same.
   */
  lemma TodayCountsAnyHabit(hs: seq<Habit>, es: seq<Entry>, today: Day, e: Entry)
    requires e.date == today && e.completed
    ensures Summarize(hs, es + [e], today).todayCompleted == Summarize(hs, es, today).todayCompleted + 1
    ensures Summarize(hs, es + [e], today).todayTotal == Summarize(hs, es, today).todayTotal
  {
    CountAppend(es, [e], CompletedOn(today));
    CountSingleton(e, CompletedOn(today));
  }

  /** With no habit at all, one completed entry for today already reads as 100%. */
  lemma OrphanEntryFillsRate(today: Day, e: Entry)
    requires e.date == today && e.completed
    ensures Summarize([], [e], today).todayTotal == 0
    ensures Summarize([], [e], today).todayCompletionRate == 100.0
  {
    CountSingleton(e, CompletedOn(today));
  }
}
