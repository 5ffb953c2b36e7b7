/**
 * Scripted runs of the review screen. Most methods mount a fresh screen on
 * the given lifetime stats, load one page, drive a sequence of events and
 * return what the user would then see. The others take any screen that meets
 * their preconditions: the round trips of a deletion from any state, and the
 * events of the corrected screen that keep pending assets out of the deck.
 * Their postconditions are the end-to-end consequences of the event
 * contracts in module Swipe.
 */
module SwipeScenarios {
  import opened Wrappers
  import opened Format
  import opened Stats
  import opened Swipe

  /** A mounted screen whose first page, the whole library, is items. */
  method LoadedScreen(stats: LifetimeStats, items: seq<Asset>) returns (s: SwipeScreen)
    ensures fresh(s) && s.Valid() && s.isMounted
    ensures s.deck == items && s.currentIndex == 0 && !s.hasNextPage && !s.isLoading
    ensures s.sessionDeletedCount == 0 && s.sessionFreedBytes == 0 && !s.sessionCompleted
    ensures s.toastId == None && s.errorToastTimers == 0 && s.sizeCache == map[]
    ensures s.pending == map[] && s.pendingOrder == [] && s.timers == map[] && s.nextTimer == 0
    ensures s.lifetime == stats
  {
    s := new SwipeScreen(stats);
    var started := s.FetchStart(None);
    s.PageLoaded(items, "", false);
  }

  /** The screen of LoadedScreen with the first item's size cached when `cached` holds one. */
  method CachedScreen(stats: LifetimeStats, items: seq<Asset>, cached: Option<nat>) returns (s: SwipeScreen)
    requires |items| > 0
    ensures fresh(s) && s.Valid() && s.isMounted
    ensures s.deck == items && s.currentIndex == 0 && !s.hasNextPage
    ensures s.sessionDeletedCount == 0 && s.sessionFreedBytes == 0
    ensures s.toastId == None && s.errorToastTimers == 0
    ensures s.sizeCache == if cached.Some? then map[items[0].id := cached.value] else map[]
    ensures s.pending == map[] && s.pendingOrder == [] && s.timers == map[] && s.nextTimer == 0
    ensures s.lifetime == stats
  {
    s := LoadedScreen(stats, items);
    if cached.Some? {
      s.PreloadResolved(items[0], cached.value);
    }
  }

  /**
   * The screen of LoadedScreen after the first item is swiped for deletion,
   * its size cached beforehand when `cached` holds one.
   */
  method FirstDeleted(stats: LifetimeStats, items: seq<Asset>, cached: Option<nat>)
    returns (s: SwipeScreen, lookup: Option<Asset>)
    requires |items| > 0
    ensures fresh(s) && s.Valid() && s.isMounted && !s.hasNextPage
    ensures var size := if cached.Some? then cached.value else 0;
      var record := PendingDeletion(items[0].id, items[0], size, 0, 0);
      && s.deck == items[1..] && s.currentIndex == 0
      && s.sessionDeletedCount == 1 && s.sessionFreedBytes == size
      && s.lifetime == ApplyDeletionDelta(stats, 1, size)
      && s.pending == map[items[0].id := record] && s.pendingOrder == [items[0].id]
      && s.timers == map[0 := record] && s.nextTimer == 1
      && s.toastId == Some(items[0].id) && s.errorToastTimers == 0
      && s.sizeCache == (if cached.Some? then map[items[0].id := cached.value] else map[])
      && lookup == (if cached.Some? then None else Some(items[0]))
  {
    s := CachedScreen(stats, items, cached);
    var d := s.SwipeDelete(items[0], 0);
    lookup := s.DeleteAfterHaptics(d);
  }

  /**
   * The screen of FirstDeleted on a cache miss after the size lookup settles
   * with bytes while the deletion is still pending.
   */
  method CorrectedFirstDeleted(stats: LifetimeStats, items: seq<Asset>, bytes: nat) returns (s: SwipeScreen)
    requires NonNegative(stats) && |items| > 0
    ensures fresh(s) && s.Valid() && s.isMounted
    ensures var record := PendingDeletion(items[0].id, items[0], 0, 0, 0);
      && s.deck == items[1..] && s.currentIndex == 0
      && s.sessionDeletedCount == 1 && s.sessionFreedBytes == bytes
      && s.lifetime == stats.(totalDeletedCount := stats.totalDeletedCount + 1,
                              totalFreedBytes := stats.totalFreedBytes + bytes)
      && s.pending == map[items[0].id := record.(sizeBytes := bytes)]
      && s.timers == map[0 := record]
      && s.toastId == Some(items[0].id)
  {
    var lookup;
    s, lookup := FirstDeleted(stats, items, None);
    s.ReconcileResolved(items[0], bytes);
  }

  /**
   * Delete the first item with its size already cached, then undo: the deck,
   * the current item, the session counters and the lifetime stats are back
   * where they started.
   */
  method DeleteThenUndoRestores(stats: LifetimeStats, items: seq<Asset>, bytes: nat)
    returns (deckAfterDelete: seq<Asset>, statsAfterDelete: LifetimeStats,
             deck: seq<Asset>, current: nat, sessionCount: nat, sessionBytes: nat, lifetime: LifetimeStats)
    requires NonNegative(stats) && |items| > 0 && items[0].id != ""
    ensures deckAfterDelete == items[1..]
    ensures statsAfterDelete.totalDeletedCount == stats.totalDeletedCount + 1
    ensures statsAfterDelete.totalFreedBytes == stats.totalFreedBytes + bytes
    ensures deck == items && current == 0
    ensures sessionCount == 0 && sessionBytes == 0
    ensures lifetime == stats
  {
    var s, lookup := FirstDeleted(stats, items, Some(bytes));
    deckAfterDelete, statsAfterDelete := s.deck, s.lifetime;
    s.Undo();
    InsertRemoved(items, 0);
    DeltaThenInverse(stats, 1, bytes);
    deck, current, sessionCount, sessionBytes, lifetime :=
      s.deck, s.currentIndex, s.sessionDeletedCount, s.sessionFreedBytes, s.lifetime;
  }

  /**
   * Delete the first item before its size is known, undo, and only then let
   * the size lookup settle: the deck and the count are restored, but the late
   * size still lands in the lifetime and session bytes.
   */
  method LateSizeAfterUndoInflatesBytes(stats: LifetimeStats, items: seq<Asset>, bytes: nat)
    returns (lookup: Option<Asset>, deck: seq<Asset>, sessionCount: nat, sessionBytes: nat, lifetime: LifetimeStats)
    requires NonNegative(stats) && |items| > 0 && items[0].id != "" && bytes > 0
    ensures lookup == Some(items[0])
    ensures deck == items && sessionCount == 0 && sessionBytes == bytes
    ensures lifetime.totalDeletedCount == stats.totalDeletedCount
    ensures lifetime.totalFreedBytes == stats.totalFreedBytes + bytes
  {
    var s;
    s, lookup := FirstDeleted(stats, items, None);
    s.Undo();
    s.ReconcileResolved(items[0], bytes);
    InsertRemoved(items, 0);
    DeltaThenInverse(stats, 1, 0);
    deck, sessionCount, sessionBytes, lifetime := s.deck, s.sessionDeletedCount, s.sessionFreedBytes, s.lifetime;
  }

  /**
   * The run of LateSizeAfterUndoInflatesBytes with the lookup applied only
   * while the deletion is pending: after the undo the late size is only
   * cached, and every counter is back where it started.
   */
  method LateSizeAfterUndoCorrectedRestores(stats: LifetimeStats, items: seq<Asset>, bytes: nat)
    returns (deck: seq<Asset>, sessionCount: nat, sessionBytes: nat, lifetime: LifetimeStats, cache: map<string, nat>)
    requires NonNegative(stats) && |items| > 0 && items[0].id != ""
    ensures deck == items && sessionCount == 0 && sessionBytes == 0
    ensures lifetime == stats && cache == map[items[0].id := bytes]
  {
    var s, lookup := FirstDeleted(stats, items, None);
    s.Undo();
    s.ReconcileResolvedWhilePending(items[0], bytes);
    InsertRemoved(items, 0);
    DeltaThenInverse(stats, 1, 0);
    deck, sessionCount, sessionBytes, lifetime, cache :=
      s.deck, s.sessionDeletedCount, s.sessionFreedBytes, s.lifetime, s.sizeCache;
  }

  /**
   * Delete the first item before its size is known and let the lookup settle
   * while the deletion is pending: the pending record takes the size, so a
   * later undo takes all of it back out and every counter is restored.
   */
  method CorrectedSizeThenUndoRestores(stats: LifetimeStats, items: seq<Asset>, bytes: nat)
    returns (correctedStats: LifetimeStats, deck: seq<Asset>, sessionCount: nat, sessionBytes: nat, lifetime: LifetimeStats)
    requires NonNegative(stats) && |items| > 0 && items[0].id != ""
    ensures correctedStats.totalDeletedCount == stats.totalDeletedCount + 1
    ensures correctedStats.totalFreedBytes == stats.totalFreedBytes + bytes
    ensures deck == items && sessionCount == 0 && sessionBytes == 0
    ensures lifetime == stats
  {
    var s := CorrectedFirstDeleted(stats, items, bytes);
    correctedStats := s.lifetime;
    s.Undo();
    InsertRemoved(items, 0);
    deck, sessionCount, sessionBytes, lifetime := s.deck, s.sessionDeletedCount, s.sessionFreedBytes, s.lifetime;
  }

  /**
   * Delete the first item before its size is known, let the lookup settle
   * while it is pending, then let the timer fire and the commit fail: the
   * rollback uses the size the timer captured (0), so the corrected bytes stay
   * counted although nothing was deleted.
   */
  method CorrectedSizeThenCommitFailureKeepsBytes(stats: LifetimeStats, items: seq<Asset>, bytes: nat, today: LocalDate)
    returns (committed: PendingDeletion, sessionCount: nat, sessionBytes: nat, lifetime: LifetimeStats)
    requires NonNegative(stats) && |items| > 0 && ValidDate(today)
    ensures committed.asset == items[0] && committed.sizeBytes == 0
    ensures sessionCount == 0 && sessionBytes == bytes
    ensures lifetime.totalDeletedCount == stats.totalDeletedCount
    ensures lifetime.totalFreedBytes == stats.totalFreedBytes + bytes
  {
    var s := CorrectedFirstDeleted(stats, items, bytes);
    committed := s.TimerFired(0);
    s.ScheduledCommitSettled(committed, NotDeleted, today);
    sessionCount, sessionBytes, lifetime := s.sessionDeletedCount, s.sessionFreedBytes, s.lifetime;
  }

  /**
   * Delete the first item with its size cached and let its commit fail: the
   * item stays out of the deck, every counter is back where it started, and
   * the failure toast shows.
   */
  method CommitFailureWithoutCorrectionNetsZero(stats: LifetimeStats, items: seq<Asset>, bytes: nat,
                                                outcome: CommitOutcome, today: LocalDate)
    returns (deck: seq<Asset>, sessionCount: nat, sessionBytes: nat, lifetime: LifetimeStats,
             toast: Option<string>, message: string)
    requires NonNegative(stats) && |items| > 0 && outcome != Deleted && ValidDate(today)
    ensures deck == items[1..] && sessionCount == 0 && sessionBytes == 0
    ensures lifetime == stats
    ensures toast == Some(items[0].id + ERROR_TOAST_SUFFIX) && message == FAILED_MESSAGE
  {
    var s, lookup := FirstDeleted(stats, items, Some(bytes));
    var committed := s.TimerFired(0);
    s.ScheduledCommitSettled(committed, outcome, today);
    DeltaThenInverse(stats, 1, bytes);
    deck, sessionCount, sessionBytes, lifetime := s.deck, s.sessionDeletedCount, s.sessionFreedBytes, s.lifetime;
    toast, message := s.toastId, s.toastMessage;
  }

  /**
   * Delete the first item with its size cached and let its commit succeed:
   * the deletion stays counted and today is recorded in the streak.
   */
  method CommitSuccessKeepsCounts(stats: LifetimeStats, items: seq<Asset>, bytes: nat, today: LocalDate)
    returns (deck: seq<Asset>, sessionCount: nat, sessionBytes: nat, lifetime: LifetimeStats, stillPending: bool)
    requires |items| > 0 && ValidDate(today)
    ensures deck == items[1..] && sessionCount == 1 && sessionBytes == bytes && !stillPending
    ensures lifetime == RecordDeletionSuccessForToday(ApplyDeletionDelta(stats, 1, bytes), today)
    ensures lifetime.lastDeletionDay == Some(DayKey(today))
  {
    var s, lookup := FirstDeleted(stats, items, Some(bytes));
    var committed := s.TimerFired(0);
    s.ScheduledCommitSettled(committed, Deleted, today);
    deck, sessionCount, sessionBytes, lifetime := s.deck, s.sessionDeletedCount, s.sessionFreedBytes, s.lifetime;
    stillPending := items[0].id in s.pending;
  }

  /**
   * After a failed commit the toast is keyed by the id plus "-error", which
   * names no pending record: tapping undo changes nothing.
   */
  method ErrorToastCannotUndo(stats: LifetimeStats, items: seq<Asset>, today: LocalDate)
    returns (deckBefore: seq<Asset>, deckAfter: seq<Asset>, statsBefore: LifetimeStats, statsAfter: LifetimeStats)
    requires |items| > 0 && ValidDate(today)
    ensures deckBefore == deckAfter == items[1..]
    ensures statsBefore == statsAfter
  {
    var s, lookup := FirstDeleted(stats, items, None);
    var committed := s.TimerFired(0);
    s.ScheduledCommitSettled(committed, Threw, today);
    deckBefore, statsBefore := s.deck, s.lifetime;
    s.Undo();
    deckAfter, statsAfter := s.deck, s.lifetime;
  }

  /**
   * Delete the first two items in turn, then undo twice: only the second,
   * the one the toast shows, comes back; undo then clears the toast, so the
   * second tap changes nothing and the first deletion stays pending.
   */
  method UndoOnlyLatest(stats: LifetimeStats, items: seq<Asset>)
    returns (deck: seq<Asset>, current: nat, stillPending: seq<string>)
    requires |items| > 1 && items[0].id != items[1].id && items[1].id != ""
    ensures deck == items[1..] && current == 0
    ensures stillPending == [items[0].id]
  {
    var s, lookup := FirstDeleted(stats, items, None);
    var second := s.SwipeDelete(items[1], 0);
    lookup := s.DeleteAfterHaptics(second);
    s.Undo();
    s.Undo();
    InsertRemoved(items[1..], 0);
    var a, b := items[0].id, items[1].id;
    assert [b][1..] == [] && Without([b], b) == [];
    assert [a, b][1..] == [b] && Without([a, b], b) == [a] + Without([b], b);
    deck, current, stillPending := s.deck, s.currentIndex, s.pendingOrder;
  }

  /**
   * Keep the only item of a one-page library: the session completes and the
   * lifetime session count goes up once; the effect running again does not
   * count it twice.
   */
  method LastItemCompletesSessionOnce(stats: LifetimeStats, a: Asset)
    returns (firstRun: bool, secondRun: bool, lifetime: LifetimeStats)
    ensures firstRun && !secondRun
    ensures lifetime.totalSessionsCompleted == stats.totalSessionsCompleted + 1
    ensures lifetime.(totalSessionsCompleted := stats.totalSessionsCompleted) == stats
  {
    var s := LoadedScreen(stats, [a]);
    s.Keep(a, 0);
    firstRun := s.SessionCheck();
    secondRun := s.SessionCheck();
    lifetime := s.lifetime;
  }

  /**
   * Delete the first item with its size cached and leave the screen before
   * its timer fires: its commit is forced, its timer cleared, and its
   * settlement counts exactly as a timer's would in the lifetime stats.
   */
  method UnmountForcesCommit(stats: LifetimeStats, items: seq<Asset>, bytes: nat,
                             outcome: CommitOutcome, today: LocalDate)
    returns (forced: seq<PendingDeletion>, liveTimers: map<nat, PendingDeletion>, lifetime: LifetimeStats)
    requires NonNegative(stats) && |items| > 0 && ValidDate(today)
    ensures |forced| == 1 && forced[0].asset == items[0] && forced[0].sizeBytes == bytes
    ensures liveTimers == map[]
    ensures outcome == Deleted ==> lifetime == RecordDeletionSuccessForToday(ApplyDeletionDelta(stats, 1, bytes), today)
    ensures outcome != Deleted ==> lifetime == stats
  {
    var s, lookup := FirstDeleted(stats, items, Some(bytes));
    forced := s.Unmount();
    s.ForcedCommitSettled(forced[0], outcome, today);
    DeltaThenInverse(stats, 1, bytes);
    liveTimers, lifetime := s.timers, s.lifetime;
  }

  /**
   * From any state: the current item, whose size is cached and which is not
   * pending, is swiped for deletion; `p` is the record scheduled for it.
   */
  method DeleteCurrent(s: SwipeScreen) returns (p: PendingDeletion)
    requires s.Valid() && s.currentIndex < |s.deck|
    requires s.deck[s.currentIndex].id !in s.pending && s.deck[s.currentIndex].id in s.sizeCache
    modifies s
    ensures s.Valid() && s.isMounted == old(s.isMounted) && s.sizeCache == old(s.sizeCache)
    ensures p == PendingDeletion(old(s.deck[s.currentIndex]).id, old(s.deck[s.currentIndex]),
                                 s.sizeCache[old(s.deck[s.currentIndex]).id], old(s.currentIndex), old(s.nextTimer))
    ensures s.deck == RemoveAt(old(s.deck), old(s.currentIndex))
    ensures s.sessionDeletedCount == old(s.sessionDeletedCount) + 1
    ensures s.sessionFreedBytes == old(s.sessionFreedBytes) + p.sizeBytes
    ensures s.lifetime == ApplyDeletionDelta(old(s.lifetime), 1, p.sizeBytes)
    ensures s.pending == old(s.pending)[p.id := p] && s.pendingOrder == old(s.pendingOrder) + [p.id]
    ensures s.timers == old(s.timers)[p.timer := p] && p.timer !in old(s.timers)
    ensures s.toastId == Some(p.id)
  {
    var asset, index := s.deck[s.currentIndex], s.currentIndex;
    var d := s.SwipeDelete(asset, index);
    var lookup := s.DeleteAfterHaptics(d);
    p := s.pending[asset.id];
  }

  /**
   * From any state of the screen: deleting the current item, whose size is
   * cached and which is not pending, and then undoing puts back the deck, the
   * position, both session counters, the lifetime stats, the pending records,
   * their order and the live timers exactly as they were.
   */
  method DeleteThenUndoFromAnyState(s: SwipeScreen)
    requires s.Valid() && s.InView() && s.currentIndex < |s.deck|
    requires s.deck[s.currentIndex].id != "" && s.deck[s.currentIndex].id !in s.pending
    requires s.deck[s.currentIndex].id in s.sizeCache && NonNegative(s.lifetime)
    modifies s
    ensures s.Valid()
    ensures s.deck == old(s.deck) && s.currentIndex == old(s.currentIndex)
    ensures s.sessionDeletedCount == old(s.sessionDeletedCount) && s.sessionFreedBytes == old(s.sessionFreedBytes)
    ensures s.lifetime == old(s.lifetime)
    ensures s.pending == old(s.pending) && s.pendingOrder == old(s.pendingOrder) && s.timers == old(s.timers)
  {
    var deck0, order0, index := s.deck, s.pendingOrder, s.currentIndex;
    var p := DeleteCurrent(s);
    s.Undo();
    InsertRemoved(deck0, index);
    WithoutAppended(order0, p.id);
    DeltaThenInverse(old(s.lifetime), 1, p.sizeBytes);
  }

  /** On the mounted screen, the timer `handle` fires and its commit fails. */
  method FireAndFail(s: SwipeScreen, handle: nat, outcome: CommitOutcome, today: LocalDate)
    requires s.Valid() && s.isMounted && handle in s.timers && outcome != Deleted && ValidDate(today)
    modifies s
    ensures s.Valid() && s.deck == old(s.deck)
    ensures var p := old(s.timers)[handle];
      && s.pending == old(s.pending) - {p.id} && s.pendingOrder == Without(old(s.pendingOrder), p.id)
      && s.timers == old(s.timers) - {handle}
      && s.sessionDeletedCount == ClampedAdd(old(s.sessionDeletedCount), -1)
      && s.sessionFreedBytes == ClampedAdd(old(s.sessionFreedBytes), -(p.sizeBytes as int))
      && s.lifetime == ApplyDeletionDelta(old(s.lifetime), -1, -(p.sizeBytes as int))
  {
    var committed := s.TimerFired(handle);
    s.ScheduledCommitSettled(committed, outcome, today);
  }

  /**
   * From any state of the mounted screen: deleting the current item, whose
   * size is cached and which is not pending, and letting its timer fire and
   * its commit fail leaves the item out of the deck but puts back both
   * session counters, the lifetime stats, the pending records, their order
   * and the live timers exactly as they were.
   */
  method DeleteThenCommitFailsFromAnyState(s: SwipeScreen, outcome: CommitOutcome, today: LocalDate)
    requires s.Valid() && s.isMounted && s.currentIndex < |s.deck|
    requires s.deck[s.currentIndex].id !in s.pending && s.deck[s.currentIndex].id in s.sizeCache
    requires NonNegative(s.lifetime) && outcome != Deleted && ValidDate(today)
    modifies s
    ensures s.Valid()
    ensures s.deck == RemoveAt(old(s.deck), old(s.currentIndex))
    ensures s.sessionDeletedCount == old(s.sessionDeletedCount) && s.sessionFreedBytes == old(s.sessionFreedBytes)
    ensures s.lifetime == old(s.lifetime)
    ensures s.pending == old(s.pending) && s.pendingOrder == old(s.pendingOrder) && s.timers == old(s.timers)
  {
    var order0 := s.pendingOrder;
    var p := DeleteCurrent(s);
    FireAndFail(s, p.timer, outcome, today);
    WithoutAppended(order0, p.id);
    DeltaThenInverse(old(s.lifetime), 1, p.sizeBytes);
  }

  // ----- a reload while a deletion is pending --------------------------------

  /**
   * The screen of FirstDeleted on a cache miss after the reset effect runs
   * again and the first page, still holding the swiped asset, is reloaded.
   */
  method ReloadedAfterDelete(stats: LifetimeStats, a: Asset) returns (s: SwipeScreen)
    ensures fresh(s) && s.Valid() && s.isMounted && s.sizeCache == map[]
    ensures var record := PendingDeletion(a.id, a, 0, 0, 0);
      && s.deck == [a] && s.currentIndex == 0
      && s.pending == map[a.id := record] && s.pendingOrder == [a.id]
      && s.timers == map[0 := record] && s.nextTimer == 1
      && s.lifetime == ApplyDeletionDelta(stats, 1, 0)
  {
    var lookup;
    s, lookup := FirstDeleted(stats, [a], None);
    var started := s.FilterReset();
    s.PageLoaded([a], "", false);
  }

  /**
   * The reload brings the asset with a pending deletion back into the deck,
   * and swiping it again schedules a second commit timer for the same id and
   * counts the deletion twice. When the first timer fires it removes the
   * pending record by id, which leaves no undo while the second timer still
   * runs and will commit the asset again.
   */
  method ReloadSchedulesSecondDeletion(stats: LifetimeStats, a: Asset)
    returns (timersAfterSwipe: map<nat, PendingDeletion>, lifetimeAfterSwipe: LifetimeStats,
             pendingAfterFire: map<string, PendingDeletion>, liveTimers: set<nat>, canUndo: bool)
    requires NonNegative(stats) && a.id != ""
    ensures timersAfterSwipe.Keys == {0, 1} && timersAfterSwipe[0].id == a.id && timersAfterSwipe[1].id == a.id
    ensures lifetimeAfterSwipe.totalDeletedCount == stats.totalDeletedCount + 2
    ensures pendingAfterFire == map[] && liveTimers == {1} && !canUndo
  {
    var s := ReloadedAfterDelete(stats, a);
    var d := s.SwipeDelete(a, 0);
    var lookup := s.DeleteAfterHaptics(d);
    timersAfterSwipe, lifetimeAfterSwipe := s.timers, s.lifetime;
    var committed := s.TimerFired(0);
    pendingAfterFire, liveTimers, canUndo := s.pending, s.timers.Keys, s.CanUndo();
  }

  /**
   * The same run with the reload as intended: the pending asset stays out
   * of the reloaded page, so there is nothing to swipe again, one record and
   * one timer remain, and the deck still avoids every pending id.
   */
  method ReloadAvoidingPendingKeepsOneRecord(stats: LifetimeStats, a: Asset)
    returns (deck: seq<Asset>, pending: map<string, PendingDeletion>, timers: map<nat, PendingDeletion>)
    ensures var record := PendingDeletion(a.id, a, 0, 0, 0);
      deck == [] && pending == map[a.id := record] && timers == map[0 := record]
    ensures DeckAvoidsPending(deck, pending)
  {
    var s, lookup := FirstDeleted(stats, [a], None);
    var started := s.FilterReset();
    assert WithoutPending([a], s.pending) == [];
    s.PageLoadedAvoidingPending([a], "", false);
    deck, pending, timers := s.deck, s.pending, s.timers;
  }

  // ----- the corrected screen keeps pending assets out of the deck ------------

  /**
   * Swiping the current item for deletion on a screen whose deck avoids
   * every pending id, the item appearing once in the deck: it is not pending
   * yet, so the deletion adds a record of its own, and the deck still avoids
   * every pending id.
   */
  method DeleteAvoidingPending(s: SwipeScreen) returns (p: PendingDeletion)
    requires s.Valid() && DeckAvoidsPending(s.deck, s.pending) && s.currentIndex < |s.deck|
    requires Absent(RemoveAt(s.deck, s.currentIndex), s.deck[s.currentIndex].id)
    modifies s
    ensures s.Valid() && DeckAvoidsPending(s.deck, s.pending)
    ensures p.id == old(s.deck[s.currentIndex]).id && p.id !in old(s.pending)
    ensures s.pending == old(s.pending)[p.id := p] && s.pendingOrder == old(s.pendingOrder) + [p.id]
    ensures s.timers == old(s.timers)[p.timer := p] && p.timer !in old(s.timers)
    ensures s.deck == RemoveAt(old(s.deck), old(s.currentIndex))
  {
    var asset, index, pending0 := s.deck[s.currentIndex], s.currentIndex, s.pending;
    var d := s.SwipeDelete(asset, index);
    var lookup := s.DeleteAfterHaptics(d);
    p := s.pending[asset.id];
    AvoidsAfterSchedule(s.deck, pending0, p);
  }

  /** Undo on a screen whose deck avoids every pending id keeps it so. */
  method UndoAvoidingPending(s: SwipeScreen)
    requires s.Valid() && DeckAvoidsPending(s.deck, s.pending)
    modifies s
    ensures s.Valid() && DeckAvoidsPending(s.deck, s.pending)
  {
    if s.CanUndo() {
      var deck0, pending0, id := s.deck, s.pending, s.toastId.value;
      s.Undo();
      AvoidsAfterRestore(deck0, pending0, s.currentIndex, id);
    } else {
      s.Undo();
    }
  }

  /** A size lookup settling on a screen whose deck avoids every pending id keeps it so. */
  method ReconcileAvoidingPending(s: SwipeScreen, asset: Asset, bytes: nat)
    requires s.Valid() && DeckAvoidsPending(s.deck, s.pending)
    modifies s
    ensures s.Valid() && DeckAvoidsPending(s.deck, s.pending)
  {
    var pending0 := s.pending;
    assert asset.id in pending0 ==> Scheduled(pending0, s.timers, asset.id);
    s.ReconcileResolved(asset, bytes);
    if bytes != 0 && asset.id in pending0 {
      AvoidsAfterSchedule(s.deck, pending0, pending0[asset.id].(sizeBytes := bytes));
    }
  }

  // ----- the reset effect re-running on every loading change ------------------

  /**
   * The reset effect depends on `fetchAssets`, whose identity changes each
   * time the loading flag does, so it runs again after every fetch starts and
   * after every fetch ends. The effects of one render all see that render's
   * state, so the completion check of the render after a load is modelled
   * before the reset that render also runs. On an empty library every load
   * then completes a session, and the reset starts the next load.
   */
  method EmptyLibraryCompletesEveryCycle(stats: LifetimeStats)
    returns (firstFired: bool, secondFired: bool, thirdLoad: bool, lifetime: LifetimeStats)
    ensures firstFired && secondFired && thirdLoad
    ensures lifetime.totalSessionsCompleted == stats.totalSessionsCompleted + 2
  {
    var s := new SwipeScreen(stats);
    var started := s.FilterReset();
    started := s.FilterReset();
    s.PageLoaded([], "", false);
    firstFired := s.SessionCheck();
    started := s.FilterReset();
    started := s.FilterReset();
    s.PageLoaded([], "", false);
    secondFired := s.SessionCheck();
    thirdLoad := s.FilterReset();
    lifetime := s.lifetime;
  }

  /**
   * The same re-run on a library with items: the render after the first page
   * lands runs the reset again, which throws the page away, zeroes the
   * session counters and starts loading the first page once more.
   */
  method LoadedPageIsDiscarded(stats: LifetimeStats, items: seq<Asset>)
    returns (deckAfterLoad: seq<Asset>, deck: seq<Asset>, reloading: bool)
    ensures deckAfterLoad == items && deck == [] && reloading
  {
    var s := new SwipeScreen(stats);
    var started := s.FilterReset();
    started := s.FilterReset();
    s.PageLoaded(items, "", false);
    deckAfterLoad := s.deck;
    reloading := s.FilterReset();
    deck := s.deck;
  }

  /**
   * With the reset running only when the screen mounts (or the filter
   * changes), an empty library completes one session and the completion
   * check does not fire again.
   */
  method EmptyLibraryCompletesOnce(stats: LifetimeStats)
    returns (firstFired: bool, secondFired: bool, lifetime: LifetimeStats)
    ensures firstFired && !secondFired
    ensures lifetime.totalSessionsCompleted == stats.totalSessionsCompleted + 1
  {
    var s := new SwipeScreen(stats);
    var started := s.FilterReset();
    s.PageLoaded([], "", false);
    firstFired := s.SessionCheck();
    secondFired := s.SessionCheck();
    lifetime := s.lifetime;
  }
}
