# Swipe-review deletion pipeline, modelled in Dafny

This project models the review screen of a media-clean-up app. The user pages
through device photos or videos one at a time and swipes each one to keep or
delete. A deletion is counted at once but committed only after a seven-second
undo window; the screen also keeps session and lifetime statistics.

Modules:

- `Swipe` (`swipe_screen.dfy`) models `src/screens/SwipeScreen.tsx` as the
  class `SwipeScreen`. Its fields are the deck, the current position, the
  paging state, the size cache, the pending-deletion map with its insertion
  order, the live commit timers, the session counters, the toast and the
  lifetime-stats cell. Every handler, effect and awaited continuation is an
  event method that changes those fields.
  - Timers are explicit: `timers` maps a handle to the record its closure
    captured when it was scheduled.
  - An event that awaits something is split in two. The first half returns
    what the continuation captured. The continuation is a later event that
    takes the awaited result (the size in bytes, the commit outcome, the day
    on the clock) as a parameter.
  - `Valid()` is the pipeline invariant that every event preserves:
    - the order lists each pending id exactly once;
    - each pending record holds a live timer whose captured record is the same
      deletion;
    - every handle is older than `nextTimer`.
  - `DeckAvoidsPending` is the invariant of the corrected page load (see
    Findings): no deck item has a pending deletion, and every pending record
    is the deletion of the asset with its own id. The events that only
    remove from the deck, reset it, drop a record or unmount keep it in
    their own contracts; `PageLoadedAvoidingPending` keeps it for a load;
    `SwipeScenarios` proves it kept by a delete, an undo and a size lookup
    from any state that satisfies it.
- `Stats` (`stats.dfy`) models `src/context/StatsContext.tsx`: the
  `LifetimeStats` record and its three update rules, as pure functions.
- `Format` (`format.dfy`) models `src/utils/format.ts` apart from
  `formatBytesToGB`:
  - `formatDuration`;
  - the local day key `YYYY-MM-DD`;
  - `getYesterdayKey`, including `split('-')` and `Number`;
  - `formatStreak`.
- `SwipeScenarios` (`swipe_scenarios.dfy`) drives the screen through event
  sequences, with postconditions that state the outcome end to end. Most
  scenarios mount a fresh screen and load one page. Others start from any
  screen that meets their preconditions:
  - `DeleteThenUndoFromAnyState` and `DeleteThenCommitFailsFromAnyState` are
    the round trips of a deletion, with the helpers `DeleteCurrent` and
    `FireAndFail`;
  - `DeleteAvoidingPending`, `UndoAvoidingPending` and
    `ReconcileAvoidingPending` keep `DeckAvoidsPending`.
- `Wrappers` (`wrappers.dfy`) holds the `Option` type.

The model follows the code as written. The exceptions are the corrected
members named under Findings, and `Stats.RecordDeletionSuccessForToday`,
which uses the corrected yesterday key (see Left out). One behaviour of the
code is easy to miss:

- **The commit timer rolls back the size it captured.** The closure rolls back
  the size it captured at scheduling. A size correction only replaces the map
  entry. So a commit that fails after a correction leaves the corrected bytes
  counted (`CorrectedSizeThenCommitFailureKeepsBytes`). Undo and the unmount
  cleanup read the map entry, so they do take out the corrected size
  (`CorrectedSizeThenUndoRestores`).

## Model

| member | source | states |
|---|---|---|
| Format.DigitChar | src/utils/format.ts:12 | the character for a digit below 10 is a digit of that value |
| Format.DecimalString | src/utils/format.ts:12 | `${n}` is a non-empty digit string with a leading '0' exactly when n is 0, one digit below 10 and two below 100 |
| Format.DecimalRoundTrip | src/utils/format.ts:23 | `Number` of what `${n}` printed is n |
| Format.DecimalStringOfValue | src/utils/format.ts:23 | printing the value of a digit string without leading zeros gives the string back |
| Format.PadStart2 | src/utils/format.ts:17-18 | `padStart(2, '0')` has length max(2, \|s\|) and, on digits, keeps the value |
| Format.PadStart2Shape | src/utils/format.ts:17-18 | the padded string ends with the original and is filled only with '0' |
| Format.MinutesSeconds | src/utils/format.ts:10-12 | the template is minutes, ':' and exactly two digits of seconds below 60; minutes * 60 + seconds reads back as the total |
| Format.MinutesSecondsZero | src/utils/format.ts:12 | zero seconds print as "0:00" |
| Format.FormatDuration | src/utils/format.ts:7-13 | the output reads back as the floor of the input clamped at 0, minutes and two-digit seconds; a non-finite or sub-second input gives "0:00" |
| Format.NextDate | src/utils/format.ts:25 | the next calendar day is a valid date after d, and every valid date after d is it or comes after it |
| Format.PrevDate | src/utils/format.ts:25 | `setDate(getDate() - 1)` gives a valid date whose next day is d |
| Format.PrevOfNext | src/utils/format.ts:25 | going forward a day and back again returns the same date |
| Format.DayKey | src/utils/format.ts:15-20 | `getLocalDayKey`: its layout is stated by Format.DayKeyFormat, its round trip through the key parser by Format.DayKeyFields, and its injectivity by Format.DayKeyInjective |
| Format.DayKeyFormat | src/utils/format.ts:15-20 | a day key is the year in digits, '-', two digits of the 1-based month, '-', two digits of the day |
| Format.Split | src/utils/format.ts:23 | `split('-')` gives non-empty, separator-free parts that join back to the input |
| Format.SplitOfJoin | src/utils/format.ts:23 | splitting separator-free parts joined with '-' gives the parts |
| Format.KeyFields | src/utils/format.ts:23 | `split('-').map(Number)` destructured into year, month and day, None when a part is not a number: Format.DayKeyFields states that it reads a day key back as its year, 1-based month and day |
| Format.DayKeyFields | src/utils/format.ts:23 | splitting a day key and reading its numbers gives its year, 1-based month and day |
| Format.DayKeyInjective | src/utils/format.ts:15-20 | distinct valid dates have distinct day keys |
| Format.YesterdayKey | src/utils/format.ts:22-27 | `getYesterdayKey` as intended: Format.YesterdayOfDayKey and Format.YesterdayKeyOfToday state that it gives the key of the previous calendar day |
| Format.YesterdayKeyAsWritten | src/utils/format.ts:22-27 | `getYesterdayKey` as written, with `new Date(y, m - 1, d)` reading a year up to 99 as 1900 + year: Format.YesterdayAsWrittenAgreesFrom100 and Format.TwoDigitYearShift state where it agrees with Format.YesterdayKey and where it does not |
| Format.YesterdayOfDayKey | src/utils/format.ts:22-27 | the yesterday of a date's key is the key of the previous calendar day |
| Format.YesterdayKeyOfToday | src/utils/format.ts:22-27 | the same for every valid day, with no yesterday for the first day of year 0 |
| Format.YesterdayAsWrittenAgreesFrom100 | src/utils/format.ts:24 | the code as written and the corrected function agree on every key whose year is 100 or more |
| Format.TwoDigitYearShift | src/utils/format.ts:24 | on 2 January of year 50 the code as written answers 1 January 1950, not the intended key |
| Format.FormatStreak | src/utils/format.ts:29-33 | "No streak yet" for counts up to 0; otherwise the decimal count followed by "-day streak", whose digits read back as the count |
| Stats.DefaultStats | src/context/StatsContext.tsx:15-21 | every counter is zero and no deletion day is recorded |
| Stats.ClampedAdd | src/context/StatsContext.tsx:70-71 | `Math.max(0, x + d)` is at least x + d and equals it, or 0 |
| Stats.ClampedSubtractions | src/context/StatsContext.tsx:70-71 | two clamped subtractions equal one clamped subtraction of their sum |
| Stats.ApplyDeletionDelta | src/context/StatsContext.tsx:67-73 | count and bytes move by their clamped deltas and stay non-negative; sessions, streak and day are unchanged |
| Stats.DeltaThenInverse | src/context/StatsContext.tsx:67-73 | a delta followed by its negation restores the stats when the delta did not hit the floor |
| Stats.NonNegativeUnderDeltas | src/context/StatsContext.tsx:67-73 | count and bytes stay non-negative under any sequence of deltas |
| Stats.RecordDeletionSuccessForToday | src/context/StatsContext.tsx:75-89 | no change if today is recorded; otherwise today is recorded and the streak grows by 1 if the last day was yesterday, else restarts at 1; counts untouched |
| Stats.RecordSameDayIdempotent | src/context/StatsContext.tsx:78-80 | recording the same day twice equals recording it once |
| Stats.RecordNextDayExtends | src/context/StatsContext.tsx:81-82 | a deletion on the day after the recorded day grows the streak by one |
| Stats.RecordAfterGapResets | src/context/StatsContext.tsx:82 | a deletion two days after the recorded day restarts the streak at 1 |
| Stats.RecordCommutesWithDelta | src/context/StatsContext.tsx:67-89 | recording a day and applying a count/bytes delta commute |
| Stats.IncrementSessions | src/context/StatsContext.tsx:91-96 | one more completed session and every other field unchanged |
| Swipe.CachedSize | src/screens/SwipeScreen.tsx:290-291 | `sizeCache.current.get(asset.id) ?? 0`: Swipe.SwipeScreen.DeleteAfterHaptics counts this size, and starts a lookup exactly when the id is not cached |
| Swipe.RemoveAtShape | src/screens/SwipeScreen.tsx:220-221 | `splice(i, 1)` keeps the prefix, shifts the suffix and loses exactly s[i]; out of range it changes nothing |
| Swipe.InsertAtShape | src/screens/SwipeScreen.tsx:233 | `splice(i, 0, x)` puts x at i, keeps the prefix, shifts the suffix and adds exactly x |
| Swipe.InsertRemoved | src/screens/SwipeScreen.tsx:229-237 | re-inserting a removed element where it was restores the deck |
| Swipe.WithoutShape | src/screens/SwipeScreen.tsx:247 | `Map.delete(x)` leaves exactly the other ids in order, still distinct, and changes nothing when x is absent |
| Swipe.WithoutAppended | src/screens/SwipeScreen.tsx:247 | deleting the id that `set` appended last gives back the insertion order before it |
| Swipe.PendingRecordsOnce | src/screens/SwipeScreen.tsx:118 | under the invariant `Array.from(values())` has one record per pending id: the record of each id occurs at exactly one index, the one of the id in insertion order |
| Swipe.TimersOfMembers | src/screens/SwipeScreen.tsx:119-120 | a handle belongs to the records' timers exactly when one of the records holds it |
| Swipe.ScheduleKeepsValid | src/screens/SwipeScreen.tsx:244-278 | scheduling a commit under a fresh handle keeps the pipeline invariant |
| Swipe.RemoveKeepsValid | src/screens/SwipeScreen.tsx:247 | dropping a pending id with a live timer of that id keeps the invariant |
| Swipe.ResizeKeepsValid | src/screens/SwipeScreen.tsx:314-317 | replacing the size of a pending record keeps the invariant |
| Swipe.AnyCommittedStep | src/screens/SwipeScreen.tsx:122-124 | some forced commit succeeded exactly when one before the last did or the last did |
| Swipe.ForcedCommitCounts | src/screens/SwipeScreen.tsx:121-131 | after the forced commits settle, the count drops by the failures and the bytes by their sizes, clamped at 0; sessions are unchanged |
| Swipe.ForcedCommitStreak | src/screens/SwipeScreen.tsx:121-131 | after the forced commits settle, today is recorded (once) exactly when one of them succeeded |
| Swipe.RecordsHoldPendingTimers | src/screens/SwipeScreen.tsx:118-120 | under the invariant the pending records in order hold exactly the timers of the pending map |
| Swipe.WithoutPendingShape | src/screens/SwipeScreen.tsx:184 | the filtered page holds exactly the page's items whose ids are not pending |
| Swipe.AvoidsAfterLoad | src/screens/SwipeScreen.tsx:184 | appending a filtered page to a deck that avoids the pending ids, or replacing the deck by it, still avoids them |
| Swipe.AvoidsAfterRemove | src/screens/SwipeScreen.tsx:220-221 | removing an item keeps the deck clear of pending ids |
| Swipe.AvoidsAfterSchedule | src/screens/SwipeScreen.tsx:296-307 | storing the record of an asset's own id keeps the deck clear when no deck item has that id or the id is already pending |
| Swipe.AvoidsAfterRestore | src/screens/SwipeScreen.tsx:389-392 | removing a record and putting its asset back in the deck keeps the deck clear of the remaining pending ids |
| Swipe.ForceCommits | src/screens/SwipeScreen.tsx:119-132 | the forEach clears the timer of every record and starts the commits of exactly those records, in order |
| Swipe.SwipeScreen.constructor | src/screens/SwipeScreen.tsx:45-63 | the initial state: empty deck at 0, more pages assumed, counters zero, no toast, nothing pending, satisfies the invariant |
| Swipe.SwipeScreen.CanUndo | src/screens/SwipeScreen.tsx:416 | `canUndo`: the toast id is set, non-empty and names a pending record. Swipe.SwipeScreen.Undo changes nothing exactly when it fails. Swipe.SwipeScreen.DeleteAfterHaptics makes it hold for a non-empty id, and SwipeScenarios.ErrorToastCannotUndo shows that the "-error" toast does not satisfy it |
| Swipe.SwipeScreen.RemoveFromDeck | src/screens/SwipeScreen.tsx:218-227 | the item is spliced out; the position moves to the last item (0 when empty) only when index is past the end; removing the current item keeps the view on the item that followed it |
| Swipe.SwipeScreen.RestoreToDeck | src/screens/SwipeScreen.tsx:229-237 | the asset is inserted at min(index, length) and becomes the current item |
| Swipe.SwipeScreen.UpdateSessionStats | src/screens/SwipeScreen.tsx:239-242 | both session counters move by their deltas with a floor of 0 |
| Swipe.SwipeScreen.FetchStart | src/screens/SwipeScreen.tsx:154-157 | a fetch starts, recording its `after` argument, exactly when none is in flight |
| Swipe.SwipeScreen.PageLoaded | src/screens/SwipeScreen.tsx:183-189 | with a truthy `after` the page is appended, otherwise it replaces the deck; cursor and more-pages flag are taken from the page; loading ends |
| Swipe.SwipeScreen.PageLoadedAvoidingPending | src/screens/SwipeScreen.tsx:183-189 | the load as intended: as PageLoaded, with the items that have a pending deletion left out of the page; the deck stays clear of pending ids |
| Swipe.SwipeScreen.PageFailed | src/screens/SwipeScreen.tsx:187-189 | a failed fetch only ends loading |
| Swipe.SwipeScreen.PrefetchCheck | src/screens/SwipeScreen.tsx:205-209 | a fetch from the cursor starts exactly when at most 5 items remain, more pages exist and nothing loads |
| Swipe.SwipeScreen.FilterReset | src/screens/SwipeScreen.tsx:194-203 | deck, position, cursor and session are reset and a first-page fetch starts unless one is in flight |
| Swipe.SwipeScreen.SessionCheck | src/screens/SwipeScreen.tsx:211-216 | fires exactly when the deck is empty, no pages remain and the session is not yet complete; then the lifetime session count grows by one |
| Swipe.SwipeScreen.PreloadSize | src/screens/SwipeScreen.tsx:137-140 | a size lookup starts exactly for a present asset whose size is not cached |
| Swipe.SwipeScreen.PreloadVisible | src/screens/SwipeScreen.tsx:144-147 | the lookups of the preload effect are those of the current and then the next item |
| Swipe.SwipeScreen.PreloadResolved | src/screens/SwipeScreen.tsx:140-141 | the looked-up size is cached and nothing else changes |
| Swipe.SwipeScreen.ReconcileResolved | src/screens/SwipeScreen.tsx:308-322 | the size is cached; a non-zero size goes to the lifetime bytes, replaces the size of the pending record of that id if any, and goes to the session bytes if mounted; the invariant holds |
| Swipe.SwipeScreen.ReconcileResolvedWhilePending | src/screens/SwipeScreen.tsx:308-321 | the lookup as intended: the size is cached, and a non-zero size changes the lifetime bytes, the record and the session bytes only while the id is pending |
| Swipe.SwipeScreen.ScheduleDeletionCommit | src/screens/SwipeScreen.tsx:244-278 | a fresh timer capturing the record is live, the record is stored under its id with that timer, a new id is appended to the order; the invariant holds |
| Swipe.SwipeScreen.DropPending | src/screens/SwipeScreen.tsx:247 | the timer and the pending id are gone and the order loses the id; the invariant holds |
| Swipe.SwipeScreen.SwipeDelete | src/screens/SwipeScreen.tsx:280-283 | the swiped item leaves the deck before the haptic await |
| Swipe.SwipeScreen.DeleteAfterHaptics | src/screens/SwipeScreen.tsx:290-309 | one deletion of the cached size (0 if unknown) is counted in session and lifetime, the undo toast names the asset, the deletion is scheduled at the swiped index, a lookup starts on a cache miss; undo is then available for a non-empty id |
| Swipe.SwipeScreen.Keep | src/screens/SwipeScreen.tsx:327-338 | keeping only removes the item from the deck |
| Swipe.SwipeScreen.TimerFired | src/screens/SwipeScreen.tsx:246-252 | the captured id's pending entry is removed, its undo toast cleared if mounted, and the captured record is committed |
| Swipe.SwipeScreen.ScheduledCommitSettled | src/screens/SwipeScreen.tsx:252-272 | success records today and changes no count; failure or an error takes one deletion of the captured size out of the lifetime stats and, if mounted, the session, and shows the "-error" toast |
| Swipe.SwipeScreen.ErrorToastExpired | src/screens/SwipeScreen.tsx:261 | the error toast's 2.5-second timer clears the toast, whatever it shows |
| Swipe.SwipeScreen.Undo | src/screens/SwipeScreen.tsx:383-395 | without an undoable toast nothing changes; otherwise the timer and record go, the asset is put back and made current, one deletion of the record's current size is taken out of session and lifetime, and the toast clears |
| Swipe.SwipeScreen.UndoPending | src/screens/SwipeScreen.tsx:389-394 | the same effect for a pending id given directly |
| Swipe.SwipeScreen.Unmount | src/screens/SwipeScreen.tsx:115-134 | the screen is unmounted, the timers of all pending records are cleared, their commits are forced in insertion order, and nothing is pending |
| Swipe.SwipeScreen.ForcedCommitSettled | src/screens/SwipeScreen.tsx:122-131 | a forced commit records today on success and otherwise takes one deletion of the record's size out of the lifetime stats; the session is not touched |
| SwipeScenarios.DeleteThenUndoRestores | src/screens/SwipeScreen.tsx:383-395 | delete then undo with the size known: deck, current item, session and lifetime stats are as before |
| SwipeScenarios.DeleteThenUndoFromAnyState | src/screens/SwipeScreen.tsx:383-395 | from any valid state with the current item's size cached and its id not pending, delete then undo gives back the deck, the position, the session counters, the lifetime stats, the pending records, their order and the timers |
| SwipeScenarios.DeleteThenCommitFailsFromAnyState | src/screens/SwipeScreen.tsx:244-272 | from any such mounted state, delete then a failed commit leaves the deck without the item and every counter, the lifetime stats, the pending records, their order and the timers as before |
| SwipeScenarios.LateSizeAfterUndoInflatesBytes | src/screens/SwipeScreen.tsx:308-321 | a lookup settling after undo restores the count but adds its bytes to lifetime and session |
| SwipeScenarios.LateSizeAfterUndoCorrectedRestores | src/screens/SwipeScreen.tsx:308-321 | with the lookup applied only while pending, a lookup settling after undo only caches the size and every counter is restored |
| SwipeScenarios.CorrectedSizeThenUndoRestores | src/screens/SwipeScreen.tsx:314-317 | a correction while pending is fully reversed by undo |
| SwipeScenarios.CorrectedSizeThenCommitFailureKeepsBytes | src/screens/SwipeScreen.tsx:245-256 | a failed commit after a correction rolls back the captured size 0, leaving the corrected bytes counted |
| SwipeScenarios.CommitFailureWithoutCorrectionNetsZero | src/screens/SwipeScreen.tsx:255-271 | a failed commit after a delete of known size restores every counter, leaves the deck without the item and shows the failure toast |
| SwipeScenarios.CommitSuccessKeepsCounts | src/screens/SwipeScreen.tsx:252-254 | a successful commit keeps the deletion counted, records today and leaves nothing pending |
| SwipeScenarios.ErrorToastCannotUndo | src/screens/SwipeScreen.tsx:260 | the "-error" toast names no pending record, so undo changes neither deck nor stats |
| SwipeScenarios.UndoOnlyLatest | src/screens/SwipeScreen.tsx:384-394 | of two deletions only the toasted, latest one is undone; a second undo does nothing and the first stays pending |
| SwipeScenarios.LastItemCompletesSessionOnce | src/screens/SwipeScreen.tsx:211-216 | keeping the last item of the last page completes the session once |
| SwipeScenarios.ReloadSchedulesSecondDeletion | src/screens/SwipeScreen.tsx:296-307 | a reload during the undo window brings the pending asset back; deleting it again leaves two timers for the id and the count raised by 2; the first timer then removes the second record, so nothing can be undone while the second timer still runs |
| SwipeScenarios.ReloadAvoidingPendingKeepsOneRecord | src/screens/SwipeScreen.tsx:184 | with the corrected load the same reload leaves the pending asset out: an empty deck, one record, one timer, and the deck avoids the pending ids |
| SwipeScenarios.DeleteAvoidingPending | src/screens/SwipeScreen.tsx:280-307 | from a state whose deck avoids the pending ids, with the current item once in the deck, the swiped id is not yet pending, the delete adds its own record and timer, and the deck still avoids the pending ids |
| SwipeScenarios.UndoAvoidingPending | src/screens/SwipeScreen.tsx:383-395 | undo keeps the deck clear of pending ids |
| SwipeScenarios.ReconcileAvoidingPending | src/screens/SwipeScreen.tsx:308-321 | a size lookup settling keeps the deck clear of pending ids |
| SwipeScenarios.EmptyLibraryCompletesEveryCycle | src/screens/SwipeScreen.tsx:191-216 | with the reset effect re-running after every fetch start and end, an empty library completes a session on every load and the reset starts the next load |
| SwipeScenarios.LoadedPageIsDiscarded | src/screens/SwipeScreen.tsx:191-203 | the reset that re-runs after the first page lands empties the deck again and starts another first-page load |
| SwipeScenarios.EmptyLibraryCompletesOnce | src/screens/SwipeScreen.tsx:194-216 | with the reset running once on mount, an empty library completes exactly one session |
| SwipeScenarios.UnmountForcesCommit | src/screens/SwipeScreen.tsx:115-134 | leaving with a pending deletion clears its timer and forces its commit; failure restores the lifetime stats, success records today |

## Left out

- Media-library, haptics, storage and clock calls are not modelled. Their results are event parameters: page contents, size in bytes, commit outcome, today's date.
- `getAssetSizeBytes` (src/utils/media) is not part of this model. Its failure normalisation to 0 is the `bytes` parameter being 0.
- Continuations are not tracked as outstanding requests. Each continuation event may be called with any captured value, and every contract holds for every such call.
- The stale-closure read of `isLoading` in `fetchAssets` is not modelled. The guard reads the field's current value. In the code, the effects of one render share one closure. So at mount the reset effect (src/screens/SwipeScreen.tsx:202) and the prefetch effect (:207) both see `isLoading` false, and two first-page fetches start; the first to finish clears the loading flag while the other is still in flight. The model's `FetchStart` lets only the first of them start.
- The reset effect is an event, `FilterReset`, that a scenario calls where React would run it. Its re-runs whenever `fetchAssets` is re-created are therefore modelled only in the Findings scenarios. In the code they follow every fetch start and end: each loaded page is thrown away at once, the session counters are zeroed, a new first-page load starts, and on an empty library a session is counted on every cycle.
- React render batching is not modelled. Each setter's updater takes effect at once, in program order.
- The query options of `fetchAssets` (filter, page size 40, sort order, screenshot album lookup) are not modelled. The page is a parameter.
- Previews, thumbnails, video playback, the animation and pan responder, and the display flags `isEmpty` / `isLoadingInitial` are presentation only.
- `animateOffScreen` is not modelled. `SwipeDelete` and `Keep` take any asset and index.
- The haptic await of `handleKeep` continues with nothing, so `Keep` is a single event.
- `formatBytesToGB`: uses floating-point division and `toFixed` rounding.
- JavaScript numbers: counts and sizes are unbounded integers. Durations are reals, with NaN and the infinities folded into `NonFinite`.
- `Number` on key parts is modelled on digit strings only. Whitespace, signs and exponents become "not a number".
- `new Date(...)` normalisation of out-of-range fields (month 13, day 0) is not modelled. `YesterdayKey` answers None for keys that do not name a valid date.
- Dates before year 0 are not modelled. The first day of year 0 has no yesterday.
- Stats.RecordDeletionSuccessForToday: uses the corrected `Format.YesterdayKey`, not `getYesterdayKey` as written. The two agree on every key whose year is 100 or more (`Format.YesterdayAsWrittenAgreesFrom100`). For years 0 to 99 the code as written restarts the streak at 1 where the model extends it (`Format.TwoDigitYearShift`).
- Swipe.SwipeScreen.PageLoadedAvoidingPending: an asset swiped but still in its haptic await is out of the deck and not yet pending, so a load in that gap can still bring it back. `SwipeScenarios.DeleteAvoidingPending` assumes the swiped id occurs once in the deck, as page ids do not repeat in the media library.
- Swipe.SwipeScreen.ReconcileResolvedWhilePending: also ignores a size that settles after a successful commit. With a seven-second undo window such a late lookup is rare.
- `StatsProvider`'s AsyncStorage load, merge and save, and `useStats` outside a provider, are not modelled. They are persistence and wiring.

## Findings

| source | as written | input that shows it | evidently intended | confidence | as-written member | corrected member |
|---|---|---|---|---|---|---|
| src/screens/SwipeScreen.tsx:184 | `setDeck` keeps every item of a loaded page, including an asset whose deletion is still pending; `handleDelete` then schedules a second timer for the same id, and the first timer's `delete(pending.id)` (line 247) removes the second record | delete a, the reset reloads the page [a] within the undo window, delete a again: two timers for a and the count raised by 2; the first timer firing leaves nothing to undo while the second still commits | at most one pending deletion per id: a pending asset stays out of the deck | medium; not executed; the reset re-runs after every load (next row), so such a reload is routine | SwipeScenarios.ReloadSchedulesSecondDeletion | Swipe.SwipeScreen.PageLoadedAvoidingPending, Swipe.AvoidsAfterLoad, SwipeScenarios.DeleteAvoidingPending, SwipeScenarios.ReloadAvoidingPendingKeepsOneRecord |
| src/screens/SwipeScreen.tsx:191-203 | the reset effect depends on `fetchAssets`, which is re-created whenever `isLoading` changes, so the reset runs again after every fetch starts and ends | an empty library: every load completes a session and the reset starts the next load, two sessions after two loads; with items, the first page is emptied out as soon as it lands | the reset runs when the screen mounts and when the filter changes | medium; not executed; relies on React re-running an effect whose dependency changed identity | SwipeScenarios.EmptyLibraryCompletesEveryCycle, SwipeScenarios.LoadedPageIsDiscarded | SwipeScenarios.EmptyLibraryCompletesOnce, SwipeScenarios.LastItemCompletesSessionOnce |
| src/screens/SwipeScreen.tsx:311-321 | the size lookup's continuation adds the difference to the lifetime and session bytes even when the deletion was undone meanwhile; only the record update checks that it is still pending | delete with the size unknown, undo, then the lookup settles with 5 bytes: the count is restored but 5 bytes stay counted | a late size counts only while the deletion can still be undone | medium; not executed | Swipe.SwipeScreen.ReconcileResolved, SwipeScenarios.LateSizeAfterUndoInflatesBytes | Swipe.SwipeScreen.ReconcileResolvedWhilePending, SwipeScenarios.LateSizeAfterUndoCorrectedRestores |
| src/utils/format.ts:24 | `new Date(year, month - 1, day)` reads a year from 0 to 99 as 1900 + year | key "50-01-02" (2 January of year 50) gives yesterday "1950-01-01" | the key of the previous day of the same year, "50-01-01" | low; not executed; only reachable with a clock before year 100 | Format.YesterdayKeyAsWritten, Format.TwoDigitYearShift | Format.YesterdayKey, Format.YesterdayKeyOfToday |
