/**
 * The lifetime statistics ledger of src/context/StatsContext.tsx: the
 * `LifetimeStats` record and its three update rules, each a pure transform of
 * the previous record. The clock reading `getLocalDayKey()` takes is a parameter.
 */
module Stats {
  import opened Wrappers
  import opened Format

  datatype LifetimeStats = LifetimeStats(
    totalDeletedCount: int,
    totalFreedBytes: int,
    totalSessionsCompleted: int,
    streakCount: int,
    lastDeletionDay: Option<string>)

  /** Count and bytes at or above the floor every delta clamps to. */
  predicate NonNegative(s: LifetimeStats) {
    s.totalDeletedCount >= 0 && s.totalFreedBytes >= 0
  }

  /** `defaultStats`: every counter zero and no deletion day recorded. */
  function DefaultStats(): (s: LifetimeStats)
    ensures NonNegative(s) && s.totalSessionsCompleted == 0 && s.streakCount == 0
    ensures s.totalDeletedCount == 0 && s.totalFreedBytes == 0 && s.lastDeletionDay == None
  {
    LifetimeStats(0, 0, 0, 0, None)
  }

  /** `Math.max(0, x + delta)`: the sum when it is not negative, else zero. */
  function ClampedAdd(x: int, delta: int): (r: nat)
    ensures r >= x + delta
    ensures r == x + delta || r == 0
  {
    if x + delta < 0 then 0 else x + delta
  }

  /** Two clamped subtractions are one clamped subtraction of the total. */
  lemma ClampedSubtractions(x: int, a: int, b: int)
    requires a >= 0 && b >= 0
    ensures ClampedAdd(ClampedAdd(x, -a), -b) == ClampedAdd(x, -(a + b))
  {
  }

  /** `applyDeletionDelta(countDelta, bytesDelta)`: adds both deltas with a floor of zero; nothing else changes. */
  function ApplyDeletionDelta(prev: LifetimeStats, countDelta: int, bytesDelta: int): (r: LifetimeStats)
    ensures NonNegative(r)
    ensures r.totalDeletedCount == ClampedAdd(prev.totalDeletedCount, countDelta)
    ensures r.totalFreedBytes == ClampedAdd(prev.totalFreedBytes, bytesDelta)
    ensures r.totalSessionsCompleted == prev.totalSessionsCompleted
    ensures r.streakCount == prev.streakCount && r.lastDeletionDay == prev.lastDeletionDay
  {
    prev.(totalDeletedCount := ClampedAdd(prev.totalDeletedCount, countDelta),
          totalFreedBytes := ClampedAdd(prev.totalFreedBytes, bytesDelta))
  }

  /** A delta that did not hit the floor is undone exactly by its negation. */
  lemma DeltaThenInverse(s: LifetimeStats, countDelta: int, bytesDelta: int)
    requires NonNegative(s)
    requires s.totalDeletedCount + countDelta >= 0 && s.totalFreedBytes + bytesDelta >= 0
    ensures ApplyDeletionDelta(ApplyDeletionDelta(s, countDelta, bytesDelta), -countDelta, -bytesDelta) == s
  {
  }

  /** The ledger after a sequence of `applyDeletionDelta` calls, in order. */
  function ApplyAll(s: LifetimeStats, deltas: seq<(int, int)>): LifetimeStats
    decreases |deltas|
  {
    if deltas == [] then s
    else ApplyAll(ApplyDeletionDelta(s, deltas[0].0, deltas[0].1), deltas[1..])
  }

  /**
   * Lifetime count and bytes never go below zero: after any non-empty sequence
   * of deltas from any record, and after any sequence from a non-negative one.
   */
  lemma {:induction false} NonNegativeUnderDeltas(s: LifetimeStats, deltas: seq<(int, int)>)
    requires deltas != [] || NonNegative(s)
    ensures NonNegative(ApplyAll(s, deltas))
    decreases |deltas|
  {
    if deltas != [] {
      NonNegativeUnderDeltas(ApplyDeletionDelta(s, deltas[0].0, deltas[0].1), deltas[1..]);
    }
  }

  /**
   * `recordDeletionSuccessForToday()` on the day `today`: no change when today
   * is already recorded; otherwise the streak grows by one when the last
   * recorded day is yesterday and restarts at 1 when it is not, and today
   * becomes the last recorded day. The counts are untouched.
   */
  function RecordDeletionSuccessForToday(prev: LifetimeStats, today: LocalDate): (r: LifetimeStats)
    requires ValidDate(today)
    ensures prev.lastDeletionDay == Some(DayKey(today)) ==> r == prev
    ensures r.lastDeletionDay == Some(DayKey(today))
    ensures prev.lastDeletionDay != Some(DayKey(today)) ==>
      r.streakCount ==
        if !IsFirstDay(today) && prev.lastDeletionDay == Some(DayKey(PrevDate(today)))
        then prev.streakCount + 1 else 1
    ensures r.totalDeletedCount == prev.totalDeletedCount && r.totalFreedBytes == prev.totalFreedBytes
    ensures r.totalSessionsCompleted == prev.totalSessionsCompleted
  {
    var todayKey := DayKey(today);
    if prev.lastDeletionDay == Some(todayKey) then prev
    else
      var yesterdayKey := YesterdayKey(todayKey);
      YesterdayKeyOfToday(today);
      var nextStreak :=
        if yesterdayKey.Some? && prev.lastDeletionDay == Some(yesterdayKey.value) then prev.streakCount + 1 else 1;
      prev.(streakCount := nextStreak, lastDeletionDay := Some(todayKey))
  }

  /** Recording a second deletion on the same day changes nothing. */
  lemma RecordSameDayIdempotent(s: LifetimeStats, today: LocalDate)
    requires ValidDate(today)
    ensures RecordDeletionSuccessForToday(RecordDeletionSuccessForToday(s, today), today)
         == RecordDeletionSuccessForToday(s, today)
  {
  }

  /** Deleting on day D and then on the day after D grows the streak by one. */
  lemma RecordNextDayExtends(s: LifetimeStats, d: LocalDate)
    requires ValidDate(d)
    ensures var first := RecordDeletionSuccessForToday(s, d);
      RecordDeletionSuccessForToday(first, NextDate(d)).streakCount == first.streakCount + 1
  {
    DayKeyInjective(d, NextDate(d));
    PrevOfNext(d);
  }

  /** Deleting on day D and then two days later (skipping a day) restarts the streak at 1. */
  lemma RecordAfterGapResets(s: LifetimeStats, d: LocalDate)
    requires ValidDate(d)
    ensures var first := RecordDeletionSuccessForToday(s, d);
      RecordDeletionSuccessForToday(first, NextDate(NextDate(d))).streakCount == 1
  {
    var later := NextDate(NextDate(d));
    PrevOfNext(NextDate(d));
    DayKeyInjective(d, later);
    DayKeyInjective(d, PrevDate(later));
  }

  /** Recording a day and applying a delta touch disjoint fields, so they commute. */
  lemma RecordCommutesWithDelta(s: LifetimeStats, today: LocalDate, countDelta: int, bytesDelta: int)
    requires ValidDate(today)
    ensures RecordDeletionSuccessForToday(ApplyDeletionDelta(s, countDelta, bytesDelta), today)
         == ApplyDeletionDelta(RecordDeletionSuccessForToday(s, today), countDelta, bytesDelta)
  {
  }

  /** `incrementSessions()`: one more completed session and nothing else. */
  function IncrementSessions(prev: LifetimeStats): (r: LifetimeStats)
    ensures r.totalSessionsCompleted == prev.totalSessionsCompleted + 1
    ensures r.(totalSessionsCompleted := prev.totalSessionsCompleted) == prev
  {
    prev.(totalSessionsCompleted := prev.totalSessionsCompleted + 1)
  }
}
