/**
 * The band selection of the `get_insights` tool (api/main.py): one message
 * for today's completion rate, at most one for the best streak over the
 * active habits, a focus message when some category exists, and at most
 * one for the number of active habits.  The message texts are not modelled,
 * only which band is chosen.
 */
module Insights {
  import opened Counting
  import opened Habits
  import opened Analytics

  datatype Option<T> = None | Some(value: T)

  /** The completion-rate bands: `== 100`, `>= 80`, `>= 50`, otherwise. */
  datatype RateBand = PerfectDay | Outstanding | Halfway | FreshStart

  /** The best-streak bands: `>= 30`, `>= 7`, `>= 1`. */
  datatype StreakBand = HabitMaster | RealConsistency | KeepGoing

  /** The habit-count bands: `>= 5`, `>= 1`. */
  datatype CountBand = SeriousCommitment | FirstSteps

  /** The bands chosen for one call of `get_insights`. */
  datatype Insight = Insight(
    rate: RateBand,
    streak: Option<StreakBand>,
    focus: bool,
    count: Option<CountBand>)

  function RateBandOf(rate: real): RateBand {
    if rate == 100.0 then PerfectDay
    else if rate >= 80.0 then Outstanding
    else if rate >= 50.0 then Halfway
    else FreshStart
  }

  function StreakBandOf(best: int): Option<StreakBand> {
    if best >= 30 then Some(HabitMaster)
    else if best >= 7 then Some(RealConsistency)
    else if best >= 1 then Some(KeepGoing)
    else None
  }

  function CountBandOf(total: int): Option<CountBand> {
    if total >= 5 then Some(SeriousCommitment)
    else if total >= 1 then Some(FirstSteps)
    else None
  }

  /** The bands for an analytics summary and the best streak of the active habits. */
  function InsightFor(s: Summary, best: nat): Insight {
    Insight(RateBandOf(s.todayCompletionRate), StreakBandOf(best), s.categories != [],
            CountBandOf(s.totalHabits))
  }

  /** How encouraging a rate band is, lowest first. */
  function RateRank(b: RateBand): nat {
    match b
    case FreshStart => 0
    case Halfway => 1
    case Outstanding => 2
    case PerfectDay => 3
  }

  function StreakRank(b: Option<StreakBand>): nat {
    match b
    case None => 0
    case Some(KeepGoing) => 1
    case Some(RealConsistency) => 2
    case Some(HabitMaster) => 3
  }

  /** Up to 100 a higher rate never gets a lower band. */
  lemma RateBandMonotone(r1: real, r2: real)
    requires r1 <= r2 <= 100.0
    ensures RateRank(RateBandOf(r1)) <= RateRank(RateBandOf(r2))
  {
  }

  /**
   * A rate above 100, which completed entries of inactive habits can cause,
   * is reported as Outstanding, below a perfect day.
   */
  lemma AboveHundredIsOutstanding(r: real)
    requires r > 100.0
    ensures RateBandOf(r) == Outstanding
    ensures RateRank(RateBandOf(r)) < RateRank(RateBandOf(100.0))
  {
  }

  /** A longer best streak never gets a lower band. */
  lemma StreakBandMonotone(b1: int, b2: int)
    requires b1 <= b2
    ensures StreakRank(StreakBandOf(b1)) <= StreakRank(StreakBandOf(b2))
  {
  }

  /**
   * The streak band is absent exactly when no active habit has a streak;
   * otherwise it is chosen from the longest one.
   */
  lemma NoStreakBandIffNoStreak(active: seq<Habit>)
    ensures StreakBandOf(BestStreak(active)) == None
            <==> forall h :: h in active ==> h.streakCount == 0
  {
    if StreakBandOf(BestStreak(active)) != None {
      var h :| h in active && h.streakCount == BestStreak(active);
    }
  }

  /**
   * For a store whose habits are `hs` in insertion order: the focus message
   * appears and a count band is chosen exactly when some habit is active.
   */
  lemma FocusIffActive(hs: seq<Habit>, es: seq<Entry>, today: Day, best: nat)
    ensures InsightFor(Summarize(hs, es, today), best).focus <==> Count(hs, IsActive) > 0
    ensures InsightFor(Summarize(hs, es, today), best).count == None <==> Count(hs, IsActive) == 0
  {
    AnalyticsCorrect(hs, es, today);
    var active := Filter(hs, IsActive);
    CategoryCountsCorrect(active);
  }

  /**
   * When every active habit was completed today, and nothing else was, the
   * day is reported as perfect; with nothing completed the rate band is the
   * lowest one.
   */
  lemma FullDayIsPerfect(hs: seq<Habit>, es: seq<Entry>, today: Day, best: nat)
    ensures Summarize(hs, es, today).todayCompleted == Summarize(hs, es, today).todayTotal >= 1
            ==> InsightFor(Summarize(hs, es, today), best).rate == PerfectDay
    ensures Summarize(hs, es, today).todayCompleted == 0
            ==> InsightFor(Summarize(hs, es, today), best).rate == FreshStart
  {
    var s := Summarize(hs, es, today);
    CompletionRateBounds(s.todayCompleted, s.todayTotal);
  }
}
