/**
 * The review deck of src/screens/SwipeScreen.tsx and its deletion pipeline:
 * the paged deck with its current position, the size cache, the map of
 * deletions waiting out their undo window with their commit timers, the
 * session counters, the undo toast, session-completion detection, and the
 * lifetime-stats cell of the stats context that the screen updates.
 *
 * Every React handler, effect and awaited continuation is an event method
 * that runs to completion. Timers and promises are explicit: a live commit
 * timer is an entry of `timers`. An event that starts something awaited (a
 * size lookup, a destructive commit, the haptic feedback) returns what the
 * continuation captured; the continuation is a later event taking those
 * values, and the awaited results (the size in bytes, the outcome of the
 * commit, the day of the clock) are its parameters.
 */
module Swipe {
  import opened Wrappers
  import opened Format
  import opened Stats

  /** The prefetch window: load more once at most this many items remain from the current one. */
  const PREFETCH_THRESHOLD := 5
  const DELETED_MESSAGE := "Deleted - Undo"
  const FAILED_MESSAGE := "Delete failed - Stats restored"
  const ERROR_TOAST_SUFFIX := "-error"

  datatype MediaType = Photo | Video

  /** A media-library asset as the screen uses it: its identity, its kind and (for videos) its raw duration. */
  datatype Asset = Asset(id: string, mediaType: MediaType, duration: JsNumber)

  /**
   * A deletion in its undo window: the asset, its best-known size in bytes,
   * the deck index it was removed from, and the handle of its commit timer.
   */
  datatype PendingDeletion = PendingDeletion(id: string, asset: Asset, sizeBytes: nat, index: nat, timer: nat)

  /** How the awaited `MediaLibrary.deleteAssetsAsync` settled: true, false, or a thrown error. */
  datatype CommitOutcome = Deleted | NotDeleted | Threw

  /** A delete swipe waiting for its haptic feedback before it is counted. */
  datatype SwipedDelete = SwipedDelete(asset: Asset, index: nat)

  // ---------------------------------------------------------------------------
  // Deck edits: `splice` on a copy of the deck
  // ---------------------------------------------------------------------------

  /** `next.splice(i, 1)`: the element at i dropped; no change when i is out of range. */
  function RemoveAt<T>(s: seq<T>, i: nat): seq<T> {
    if i < |s| then s[..i] + s[i + 1..] else s
  }

  /** Removing at i keeps the elements before i in place, moves those after it one place earlier, and loses exactly s[i]. */
  lemma RemoveAtShape<T>(s: seq<T>, i: nat)
    ensures var r := RemoveAt(s, i);
      && (i < |s| ==> |r| == |s| - 1 && r[..i] == s[..i] && r[i..] == s[i + 1..])
      && (i < |s| ==> multiset(r) + multiset{s[i]} == multiset(s))
      && (i >= |s| ==> r == s)
  {
    if i < |s| {
      assert s == s[..i] + [s[i]] + s[i + 1..];
    }
  }

  /** `next.splice(i, 0, x)`: x inserted at position i. */
  function InsertAt<T>(s: seq<T>, i: nat, x: T): seq<T>
    requires i <= |s|
  {
    s[..i] + [x] + s[i..]
  }

  /** Inserting at i puts x at i, keeps the elements before it in place, moves those after it one place later, and adds exactly x. */
  lemma InsertAtShape<T>(s: seq<T>, i: nat, x: T)
    requires i <= |s|
    ensures var r := InsertAt(s, i, x);
      && |r| == |s| + 1 && r[..i] == s[..i] && r[i] == x && r[i + 1..] == s[i..]
      && multiset(r) == multiset(s) + multiset{x}
  {
    assert s == s[..i] + s[i..];
  }

  /** Putting a removed element back where it was restores the sequence. */
  lemma InsertRemoved<T>(s: seq<T>, i: nat)
    requires i < |s|
    ensures InsertAt(RemoveAt(s, i), i, s[i]) == s
  {
    assert s == s[..i] + [s[i]] + s[i + 1..];
  }

  /** `sizeCache.get(id) ?? 0`: the cached size, or 0 when none is cached. */
  function CachedSize(cache: map<string, nat>, id: string): nat {
    if id in cache then cache[id] else 0
  }

  function Min(a: nat, b: nat): nat {
    if a < b then a else b
  }

  // ---------------------------------------------------------------------------
  // The insertion order of the `pendingRef` Map
  // ---------------------------------------------------------------------------

  /** Each id occurs once. */
  predicate NoDuplicates(s: seq<string>)
    decreases |s|
  {
    |s| == 0 || (s[0] !in s[1..] && NoDuplicates(s[1..]))
  }

  /** Appending a new id keeps the ids distinct. */
  lemma {:induction false} AppendNew(s: seq<string>, x: string)
    requires NoDuplicates(s) && x !in s
    ensures NoDuplicates(s + [x])
    decreases |s|
  {
    if |s| > 0 {
      assert (s + [x])[1..] == s[1..] + [x];
      AppendNew(s[1..], x);
    }
  }

  /** The insertion order after `Map.delete(x)`: x dropped, the rest in order. */
  function Without(s: seq<string>, x: string): seq<string>
    decreases |s|
  {
    if |s| == 0 then []
    else if s[0] == x then Without(s[1..], x)
    else [s[0]] + Without(s[1..], x)
  }

  /** Deleting x leaves exactly the other ids, keeps them distinct, and changes nothing when x is absent. */
  lemma {:induction false} WithoutShape(s: seq<string>, x: string)
    ensures forall y :: y in Without(s, x) <==> y in s && y != x
    ensures NoDuplicates(s) ==> NoDuplicates(Without(s, x))
    ensures x !in s ==> Without(s, x) == s
    decreases |s|
  {
    if |s| > 0 {
      WithoutShape(s[1..], x);
      assert s == [s[0]] + s[1..];
      if s[0] != x {
        assert NoDuplicates(s) ==> s[0] !in s[1..];
      }
    }
  }

  /** Deleting the id that was appended last gives back the order before it. */
  lemma {:induction false} WithoutAppended(s: seq<string>, x: string)
    requires x !in s
    ensures Without(s + [x], x) == s
    decreases |s|
  {
    if |s| == 0 {
      assert [x][1..] == [];
    } else {
      assert (s + [x])[1..] == s[1..] + [x];
      WithoutAppended(s[1..], x);
      assert s == [s[0]] + s[1..];
    }
  }

  /** The records of a Map in insertion order: what `Array.from(map.values())` lists. */
  function PendingRecords(pending: map<string, PendingDeletion>, order: seq<string>): (recs: seq<PendingDeletion>)
    requires forall i :: 0 <= i < |order| ==> order[i] in pending
    ensures |recs| == |order| && forall i :: 0 <= i < |order| ==> recs[i] == pending[order[i]]
  {
    seq(|order|, i requires 0 <= i < |order| => pending[order[i]])
  }

  /** Distinct positions of an order without duplicates hold distinct ids. */
  lemma {:induction false} NoDuplicatesDistinct(s: seq<string>)
    requires NoDuplicates(s)
    ensures forall i, j :: 0 <= i < |s| && 0 <= j < |s| && s[i] == s[j] ==> i == j
    decreases |s|
  {
    if |s| > 0 {
      NoDuplicatesDistinct(s[1..]);
      forall i, j | 0 <= i < |s| && 0 <= j < |s| && s[i] == s[j] ensures i == j {
        if i > 0 && j > 0 {
          assert s[1..][i - 1] == s[i] && s[1..][j - 1] == s[j];
        }
      }
    }
  }

  /** An order without duplicates has as many ids as the set of its ids. */
  lemma {:induction false} NoDuplicatesCard(s: seq<string>)
    requires NoDuplicates(s)
    ensures |set x | x in s| == |s|
    decreases |s|
  {
    if |s| > 0 {
      NoDuplicatesCard(s[1..]);
      assert (set x | x in s) == {s[0]} + (set x | x in s[1..]) by {
        assert s == [s[0]] + s[1..];
      }
    }
  }

  /**
   * Under the invariant the records in insertion order list every pending
   * record exactly once: one record per pending id, each at the unique
   * position of its id in the order, each keyed by its own id.
   */
  lemma PendingRecordsOnce(pending: map<string, PendingDeletion>, order: seq<string>,
                           timers: map<nat, PendingDeletion>, nextTimer: nat)
    requires PipelineValid(pending, order, timers, nextTimer)
    ensures var recs := PendingRecords(pending, order);
      && |recs| == |pending|
      && (forall id :: id in pending ==> exists i :: 0 <= i < |recs| && order[i] == id && recs[i] == pending[id])
      && (forall i, j :: 0 <= i < |recs| && 0 <= j < |recs| && recs[i].id == recs[j].id ==> i == j)
      && (forall i :: 0 <= i < |recs| ==> recs[i].id == order[i])
  {
    var recs := PendingRecords(pending, order);
    NoDuplicatesCard(order);
    NoDuplicatesDistinct(order);
    assert (set x | x in order) == pending.Keys;
    forall i | 0 <= i < |recs| ensures recs[i].id == order[i] {
      assert Scheduled(pending, timers, order[i]);
    }
    forall id | id in pending ensures exists i :: 0 <= i < |recs| && order[i] == id && recs[i] == pending[id] {
      var i :| 0 <= i < |order| && order[i] == id;
      assert recs[i] == pending[id];
    }
  }

  /** The timer handles of a list of records. */
  function TimersOf(recs: seq<PendingDeletion>): (handles: set<nat>)
    decreases |recs|
  {
    if recs == [] then {} else TimersOf(recs[..|recs| - 1]) + {recs[|recs| - 1].timer}
  }

  /** A handle is among the handles of some records exactly when one of them holds it. */
  lemma {:induction false} TimersOfMembers(recs: seq<PendingDeletion>, h: nat)
    ensures h in TimersOf(recs) <==> exists j :: 0 <= j < |recs| && recs[j].timer == h
    decreases |recs|
  {
    if recs != [] {
      var init := recs[..|recs| - 1];
      TimersOfMembers(init, h);
      if h in TimersOf(init) {
        var j :| 0 <= j < |init| && init[j].timer == h;
        assert recs[j].timer == h;
      }
      if exists j :: 0 <= j < |recs| && recs[j].timer == h {
        var j :| 0 <= j < |recs| && recs[j].timer == h;
        if j < |init| {
          assert init[j].timer == h;
        }
      }
    }
  }

  // ---------------------------------------------------------------------------
  // The invariant of the pending map, its insertion order and the live timers
  // ---------------------------------------------------------------------------

  /** The pending record for id and its live timer agree except, possibly, on the size. */
  ghost predicate Scheduled(pending: map<string, PendingDeletion>, timers: map<nat, PendingDeletion>, id: string)
    requires id in pending
  {
    var p := pending[id];
    && p.id == id
    && p.timer in timers
    && timers[p.timer] == p.(sizeBytes := timers[p.timer].sizeBytes)
  }

  /**
   * The order lists each pending id once; each pending record is keyed by its
   * own id and holds a live timer whose captured record is the same deletion;
   * every handle was issued before nextTimer.
   */
  ghost predicate PipelineValid(pending: map<string, PendingDeletion>, order: seq<string>,
                                timers: map<nat, PendingDeletion>, nextTimer: nat)
  {
    && NoDuplicates(order)
    && (forall id :: id in order ==> id in pending)
    && (forall id :: id in pending ==> id in order && Scheduled(pending, timers, id))
    && (forall h :: h in timers ==> h < nextTimer)
  }

  /** Scheduling a commit under a fresh handle keeps the invariant. */
  lemma ScheduleKeepsValid(pending: map<string, PendingDeletion>, order: seq<string>,
                           timers: map<nat, PendingDeletion>, nextTimer: nat, p: PendingDeletion)
    requires PipelineValid(pending, order, timers, nextTimer)
    ensures var record := p.(timer := nextTimer);
      PipelineValid(pending[p.id := record], if p.id in pending then order else order + [p.id],
                    timers[nextTimer := record], nextTimer + 1)
  {
    var record := p.(timer := nextTimer);
    var pending', timers' := pending[p.id := record], timers[nextTimer := record];
    if p.id !in pending {
      AppendNew(order, p.id);
    }
    forall id | id in pending' ensures Scheduled(pending', timers', id) {
      if id != p.id {
        assert Scheduled(pending, timers, id);
        assert pending[id].timer < nextTimer;
      }
    }
  }

  /** Dropping a pending id together with a live timer of that id keeps the invariant. */
  lemma RemoveKeepsValid(pending: map<string, PendingDeletion>, order: seq<string>,
                         timers: map<nat, PendingDeletion>, nextTimer: nat, id: string, handle: nat)
    requires PipelineValid(pending, order, timers, nextTimer)
    requires handle in timers && timers[handle].id == id
    ensures PipelineValid(pending - {id}, Without(order, id), timers - {handle}, nextTimer)
  {
    var pending', timers' := pending - {id}, timers - {handle};
    WithoutShape(order, id);
    forall other | other in pending' ensures Scheduled(pending', timers', other) {
      assert Scheduled(pending, timers, other);
    }
  }

  /** Replacing the size of a pending record keeps the invariant. */
  lemma ResizeKeepsValid(pending: map<string, PendingDeletion>, order: seq<string>,
                         timers: map<nat, PendingDeletion>, nextTimer: nat, id: string, bytes: nat)
    requires PipelineValid(pending, order, timers, nextTimer) && id in pending
    ensures PipelineValid(pending[id := pending[id].(sizeBytes := bytes)], order, timers, nextTimer)
  {
    var pending' := pending[id := pending[id].(sizeBytes := bytes)];
    forall other | other in pending' ensures Scheduled(pending', timers, other) {
      assert Scheduled(pending, timers, other);
    }
  }

  // ---------------------------------------------------------------------------
  // The commits the unmount cleanup forces
  // ---------------------------------------------------------------------------

  /** One forced commit's callback: record today on success, otherwise take the deletion back out of the lifetime stats. */
  function SettleForcedCommit(s: LifetimeStats, p: PendingDeletion, outcome: CommitOutcome, today: LocalDate): (r: LifetimeStats)
    requires ValidDate(today)
  {
    if outcome == Deleted then RecordDeletionSuccessForToday(s, today)
    else ApplyDeletionDelta(s, -1, -(p.sizeBytes as int))
  }

  /** The lifetime stats after the forced commits of `recs` settle, in that order. */
  function SettleForcedCommits(s: LifetimeStats, recs: seq<PendingDeletion>,
                          outcomes: map<string, CommitOutcome>, today: LocalDate): LifetimeStats
    requires ValidDate(today)
    requires forall i :: 0 <= i < |recs| ==> recs[i].id in outcomes
    decreases |recs|
  {
    if recs == [] then s
    else
      var last := recs[|recs| - 1];
      SettleForcedCommit(SettleForcedCommits(s, recs[..|recs| - 1], outcomes, today), last, outcomes[last.id], today)
  }

  /** How many of the forced commits did not succeed. */
  function FailedCommits(recs: seq<PendingDeletion>, outcomes: map<string, CommitOutcome>): nat
    requires forall i :: 0 <= i < |recs| ==> recs[i].id in outcomes
    decreases |recs|
  {
    if recs == [] then 0
    else FailedCommits(recs[..|recs| - 1], outcomes) + (if outcomes[recs[|recs| - 1].id] == Deleted then 0 else 1)
  }

  /** The bytes of the forced commits that did not succeed. */
  function FailedBytes(recs: seq<PendingDeletion>, outcomes: map<string, CommitOutcome>): nat
    requires forall i :: 0 <= i < |recs| ==> recs[i].id in outcomes
    decreases |recs|
  {
    if recs == [] then 0
    else
      var last := recs[|recs| - 1];
      FailedBytes(recs[..|recs| - 1], outcomes) + (if outcomes[last.id] == Deleted then 0 else last.sizeBytes)
  }

  /** Whether any of the forced commits succeeded. */
  predicate AnyCommitted(recs: seq<PendingDeletion>, outcomes: map<string, CommitOutcome>)
    requires forall i :: 0 <= i < |recs| ==> recs[i].id in outcomes
  {
    exists i :: 0 <= i < |recs| && outcomes[recs[i].id] == Deleted
  }

  /**
   * The counts after the forced commits of recs settle in that order: the
   * deleted count drops by the number of failures and the freed bytes by
   * their sizes, each with a floor of zero; sessions are untouched.
   */
  lemma {:induction false} ForcedCommitCounts(s: LifetimeStats, recs: seq<PendingDeletion>,
                                              outcomes: map<string, CommitOutcome>, today: LocalDate)
    requires ValidDate(today) && NonNegative(s)
    requires forall i :: 0 <= i < |recs| ==> recs[i].id in outcomes
    ensures var r := SettleForcedCommits(s, recs, outcomes, today);
      && r.totalDeletedCount == ClampedAdd(s.totalDeletedCount, -(FailedCommits(recs, outcomes) as int))
      && r.totalFreedBytes == ClampedAdd(s.totalFreedBytes, -(FailedBytes(recs, outcomes) as int))
      && r.totalSessionsCompleted == s.totalSessionsCompleted
    decreases |recs|
  {
    if recs != [] {
      var init := recs[..|recs| - 1];
      var last := recs[|recs| - 1];
      ForcedCommitCounts(s, init, outcomes, today);
      ClampedSubtractions(s.totalDeletedCount, FailedCommits(init, outcomes), 1);
      ClampedSubtractions(s.totalFreedBytes, FailedBytes(init, outcomes), last.sizeBytes);
    }
  }

  /**
   * The streak after the forced commits settle: today is recorded, once, if
   * any commit succeeded; otherwise streak and last day are unchanged.
   */
  lemma {:induction false} ForcedCommitStreak(s: LifetimeStats, recs: seq<PendingDeletion>,
                                              outcomes: map<string, CommitOutcome>, today: LocalDate)
    requires ValidDate(today)
    requires forall i :: 0 <= i < |recs| ==> recs[i].id in outcomes
    ensures var r := SettleForcedCommits(s, recs, outcomes, today);
      var expected := if AnyCommitted(recs, outcomes) then RecordDeletionSuccessForToday(s, today) else s;
      r.streakCount == expected.streakCount && r.lastDeletionDay == expected.lastDeletionDay
    decreases |recs|
  {
    if recs != [] {
      ForcedCommitStreak(s, recs[..|recs| - 1], outcomes, today);
      AnyCommittedStep(recs, outcomes);
    }
  }

  /** Some commit succeeded exactly when one before the last did or the last one did. */
  lemma AnyCommittedStep(recs: seq<PendingDeletion>, outcomes: map<string, CommitOutcome>)
    requires recs != [] && forall i :: 0 <= i < |recs| ==> recs[i].id in outcomes
    ensures AnyCommitted(recs, outcomes) <==>
      AnyCommitted(recs[..|recs| - 1], outcomes) || outcomes[recs[|recs| - 1].id] == Deleted
  {
    var init := recs[..|recs| - 1];
    if AnyCommitted(recs, outcomes) {
      var i :| 0 <= i < |recs| && outcomes[recs[i].id] == Deleted;
      if i < |init| {
        assert init[i] == recs[i];
      }
    }
    if AnyCommitted(init, outcomes) {
      var i :| 0 <= i < |init| && outcomes[init[i].id] == Deleted;
      assert recs[i] == init[i];
    }
  }

  /** The handles of the timers the pending records hold. */
  function TimersHeld(pending: map<string, PendingDeletion>): set<nat> {
    set id | id in pending :: pending[id].timer
  }

  /** Under the invariant, the records in insertion order hold exactly the timers of the pending map. */
  lemma RecordsHoldPendingTimers(pending: map<string, PendingDeletion>, order: seq<string>,
                                 timers: map<nat, PendingDeletion>, nextTimer: nat)
    requires PipelineValid(pending, order, timers, nextTimer)
    ensures TimersOf(PendingRecords(pending, order)) == TimersHeld(pending)
  {
    var recs := PendingRecords(pending, order);
    forall h ensures h in TimersOf(recs) <==> h in TimersHeld(pending) {
      TimersOfMembers(recs, h);
      if h in TimersHeld(pending) {
        var id :| id in pending && pending[id].timer == h;
        var j :| 0 <= j < |order| && order[j] == id;
        assert recs[j].timer == h;
      }
    }
  }

  /** The handles of the records up to `i + 1` are those up to `i` and record `i`'s. */
  lemma PrefixStep(recs: seq<PendingDeletion>, i: nat)
    requires i < |recs|
    ensures TimersOf(recs[..i + 1]) == TimersOf(recs[..i]) + {recs[i].timer}
  {
    assert recs[..i + 1][..i] == recs[..i];
  }

  /** Removing keys in two steps removes their union. */
  lemma MinusStep(m: map<nat, PendingDeletion>, a: set<nat>, x: nat)
    ensures m - a - {x} == m - (a + {x})
  {
  }

  /**
   * The loop of the unmount cleanup: for each record in order, its timer is
   * cleared and its destructive commit started; `started` lists the records
   * whose commits were started, in that order.
   */
  method ForceCommits(recs: seq<PendingDeletion>, timers: map<nat, PendingDeletion>)
    returns (live: map<nat, PendingDeletion>, started: seq<PendingDeletion>)
    ensures live == timers - TimersOf(recs)
    ensures started == recs
  {
    live, started := timers, [];
    var i := 0;
    while i < |recs|
      invariant 0 <= i <= |recs|
      invariant live == timers - TimersOf(recs[..i])
      invariant started == recs[..i]
    {
      var p := recs[i];
      PrefixStep(recs, i);
      MinusStep(timers, TimersOf(recs[..i]), p.timer);
      live := live - {p.timer};
      started := started + [p];
      i := i + 1;
    }
    assert recs[..i] == recs;
  }

  // ---------------------------------------------------------------------------
  // A page load that keeps pending assets out of the deck
  // ---------------------------------------------------------------------------

  /**
   * No item of the deck has a pending deletion, and every pending record is
   * the deletion of the asset with its own id.
   */
  predicate DeckAvoidsPending(deck: seq<Asset>, pending: map<string, PendingDeletion>) {
    && (forall i :: 0 <= i < |deck| ==> deck[i].id !in pending)
    && (forall id {:trigger pending[id]} :: id in pending ==> pending[id].asset.id == id)
  }

  /** No item of the deck has the id. */
  predicate Absent(deck: seq<Asset>, id: string) {
    forall i :: 0 <= i < |deck| ==> deck[i].id != id
  }

  /** The items of a page whose ids have no pending deletion, in page order. */
  function WithoutPending(items: seq<Asset>, pending: map<string, PendingDeletion>): seq<Asset>
    decreases |items|
  {
    if |items| == 0 then []
    else (if items[0].id in pending then [] else [items[0]]) + WithoutPending(items[1..], pending)
  }

  /** The filtered page holds exactly the items of the page that are not pending. */
  lemma {:induction false} WithoutPendingShape(items: seq<Asset>, pending: map<string, PendingDeletion>)
    ensures forall a :: a in WithoutPending(items, pending) <==> a in items && a.id !in pending
    decreases |items|
  {
    if |items| > 0 {
      WithoutPendingShape(items[1..], pending);
      assert items == [items[0]] + items[1..];
    }
  }

  /** Loading a filtered page, appended or in place of the deck, keeps pending assets out. */
  lemma AvoidsAfterLoad(deck: seq<Asset>, items: seq<Asset>, pending: map<string, PendingDeletion>, append: bool)
    requires DeckAvoidsPending(deck, pending)
    ensures DeckAvoidsPending((if append then deck else []) + WithoutPending(items, pending), pending)
  {
    var page := WithoutPending(items, pending);
    WithoutPendingShape(items, pending);
    var r := (if append then deck else []) + page;
    forall i | 0 <= i < |r| ensures r[i].id !in pending {
      if i >= |r| - |page| {
        assert r[i] == page[i - (|r| - |page|)];
      }
    }
  }

  /** Removing an item from the deck keeps pending assets out. */
  lemma AvoidsAfterRemove(deck: seq<Asset>, pending: map<string, PendingDeletion>, i: nat)
    requires DeckAvoidsPending(deck, pending)
    ensures DeckAvoidsPending(RemoveAt(deck, i), pending)
  {
  }

  /**
   * Storing the record of an asset's own id keeps pending assets out when no
   * deck item has that id, which holds in particular when the id is already pending.
   */
  lemma AvoidsAfterSchedule(deck: seq<Asset>, pending: map<string, PendingDeletion>, r: PendingDeletion)
    requires DeckAvoidsPending(deck, pending) && r.asset.id == r.id
    requires r.id in pending || Absent(deck, r.id)
    ensures DeckAvoidsPending(deck, pending[r.id := r])
  {
  }

  /** A record that leaves the pending map together with its asset returning to the deck keeps pending assets out. */
  lemma AvoidsAfterRestore(deck: seq<Asset>, pending: map<string, PendingDeletion>, i: nat, id: string)
    requires DeckAvoidsPending(deck, pending) && id in pending && i <= |deck|
    ensures DeckAvoidsPending(InsertAt(deck, i, pending[id].asset), pending - {id})
    ensures DeckAvoidsPending(deck, pending - {id})
  {
  }

  // ---------------------------------------------------------------------------
  // The screen
  // ---------------------------------------------------------------------------

  class SwipeScreen {
    // The deck: loaded pages, the position under review, paging state.
    var deck: seq<Asset>
    var currentIndex: nat
    var cursor: Option<string>
    var hasNextPage: bool
    var isLoading: bool
    /** The `after` argument of the fetch in flight (meaningful while isLoading). */
    var fetchAfter: Option<string>

    // Session counters and the once-per-session completion flag.
    var sessionDeletedCount: nat
    var sessionFreedBytes: nat
    var sessionCompleted: bool

    // The toast: the id it is keyed by, its text, and its pending 2.5-second clear-timers.
    var toastId: Option<string>
    var toastMessage: string
    var errorToastTimers: nat

    // The deletion pipeline.
    var isMounted: bool
    var sizeCache: map<string, nat>
    var pending: map<string, PendingDeletion>
    /** The insertion order of `pending`, which `Map.values()` follows. */
    var pendingOrder: seq<string>
    /** Live commit timers: handle to the record the timer's closure captured when it was scheduled. */
    var timers: map<nat, PendingDeletion>
    var nextTimer: nat

    /** The lifetime-stats cell of the stats context. */
    var lifetime: LifetimeStats

    ghost predicate Valid()
      reads this`pending, this`pendingOrder, this`timers, this`nextTimer
    {
      PipelineValid(pending, pendingOrder, timers, nextTimer)
    }

    /** The deck position is on an item, or 0 on an empty deck. */
    predicate InView()
      reads this`deck, this`currentIndex
    {
      if |deck| == 0 then currentIndex == 0 else currentIndex < |deck|
    }

    /** `canUndo`: the toast's id is set, non-empty (a truthy string) and names a pending deletion. */
    predicate CanUndo()
      reads this`toastId, this`pending
    {
      toastId.Some? && toastId.value != "" && toastId.value in pending
    }

    /** The prefetch effect's condition: few unseen items left, more pages, no fetch in flight. */
    predicate ShouldPrefetch()
      reads this`deck, this`currentIndex, this`hasNextPage, this`isLoading
    {
      |deck| - currentIndex <= PREFETCH_THRESHOLD && hasNextPage && !isLoading
    }

    /** The screen as it mounts, given the stats context's current record. */
    constructor (stats: LifetimeStats)
      ensures Valid() && InView()
      ensures deck == [] && currentIndex == 0 && cursor == None && hasNextPage && !isLoading
      ensures sessionDeletedCount == 0 && sessionFreedBytes == 0 && !sessionCompleted
      ensures toastId == None && toastMessage == DELETED_MESSAGE && errorToastTimers == 0
      ensures isMounted && sizeCache == map[]
      ensures pending == map[] && pendingOrder == [] && timers == map[] && nextTimer == 0
      ensures lifetime == stats
    {
      deck, currentIndex, cursor, hasNextPage, isLoading, fetchAfter := [], 0, None, true, false, None;
      sessionDeletedCount, sessionFreedBytes, sessionCompleted := 0, 0, false;
      toastId, toastMessage, errorToastTimers := None, DELETED_MESSAGE, 0;
      isMounted, sizeCache := true, map[];
      pending, pendingOrder, timers, nextTimer := map[], [], map[], 0;
      lifetime := stats;
    }

    // ----- deck manager ------------------------------------------------------

    /**
     * `removeFromDeck(index)`: drops the item at index; when index is now past
     * the end, the position moves to the last item (0 on an empty deck),
     * otherwise it stays, so the next item slides into view.
     */
    method RemoveFromDeck(index: nat)
      modifies this`deck, this`currentIndex
      ensures deck == RemoveAt(old(deck), index)
      ensures currentIndex == if index >= |deck| then (if |deck| == 0 then 0 else |deck| - 1) else old(currentIndex)
      ensures index == old(currentIndex) && old(InView()) ==> InView()
      ensures index == old(currentIndex) && index < |deck| ==> deck[currentIndex] == old(deck)[index + 1]
      ensures old(DeckAvoidsPending(deck, pending)) ==> DeckAvoidsPending(deck, pending)
    {
      RemoveAtShape(deck, index);
      if DeckAvoidsPending(deck, pending) {
        AvoidsAfterRemove(deck, pending, index);
      }
      deck := RemoveAt(deck, index);
      if index >= |deck| {
        currentIndex := if |deck| == 0 then 0 else |deck| - 1;
      }
    }

    /** `restoreToDeck(asset, index)`: puts the asset back at index (at most the end) and makes it current. */
    method RestoreToDeck(asset: Asset, index: nat)
      modifies this`deck, this`currentIndex
      ensures currentIndex == Min(index, |old(deck)|)
      ensures deck == InsertAt(old(deck), currentIndex, asset)
      ensures InView() && deck[currentIndex] == asset
    {
      var target := Min(index, |deck|);
      InsertAtShape(deck, target, asset);
      deck := InsertAt(deck, target, asset);
      currentIndex := target;
    }

    /** `updateSessionStats(countDelta, bytesDelta)`: both session counters moved by their delta, with a floor of zero. */
    method UpdateSessionStats(countDelta: int, bytesDelta: int)
      modifies this`sessionDeletedCount, this`sessionFreedBytes
      ensures sessionDeletedCount == ClampedAdd(old(sessionDeletedCount), countDelta)
      ensures sessionFreedBytes == ClampedAdd(old(sessionFreedBytes), bytesDelta)
    {
      sessionDeletedCount := ClampedAdd(sessionDeletedCount, countDelta);
      sessionFreedBytes := ClampedAdd(sessionFreedBytes, bytesDelta);
    }

    // ----- paging ------------------------------------------------------------

    /** The start of `fetchAssets(after)`: ignored while a fetch is in flight, otherwise marks one as started. */
    method FetchStart(after: Option<string>) returns (started: bool)
      modifies this`isLoading, this`fetchAfter
      ensures started == !old(isLoading)
      ensures started ==> isLoading && fetchAfter == after
      ensures !started ==> isLoading == old(isLoading) && fetchAfter == old(fetchAfter)
    {
      if isLoading {
        return false;
      }
      isLoading := true;
      fetchAfter := after;
      return true;
    }

    /**
     * The end of `fetchAssets` with a page: appended to the deck when the fetch
     * had a (non-empty) cursor, replacing the deck when it had none; the cursor
     * and the more-pages flag come from the page. The position does not move.
     */
    method PageLoaded(items: seq<Asset>, endCursor: string, hasMore: bool)
      requires isLoading
      modifies this`deck, this`cursor, this`hasNextPage, this`isLoading
      ensures deck == if fetchAfter.Some? && fetchAfter.value != "" then old(deck) + items else items
      ensures cursor == Some(endCursor) && hasNextPage == hasMore && !isLoading
      ensures fetchAfter.Some? && fetchAfter.value != "" && old(InView()) && old(deck) != [] ==> InView()
    {
      if fetchAfter.Some? && fetchAfter.value != "" {
        deck := deck + items;
      } else {
        deck := items;
      }
      cursor := Some(endCursor);
      hasNextPage := hasMore;
      isLoading := false;
    }

    /**
     * The page load as intended: like PageLoaded, but the items with a
     * pending deletion are left out of the page, so no pending asset can be
     * swiped for deletion a second time.
     */
    method PageLoadedAvoidingPending(items: seq<Asset>, endCursor: string, hasMore: bool)
      requires isLoading
      modifies this`deck, this`cursor, this`hasNextPage, this`isLoading
      ensures var page := WithoutPending(items, pending);
        deck == if fetchAfter.Some? && fetchAfter.value != "" then old(deck) + page else page
      ensures cursor == Some(endCursor) && hasNextPage == hasMore && !isLoading
      ensures old(DeckAvoidsPending(deck, pending)) ==> DeckAvoidsPending(deck, pending)
    {
      var append := fetchAfter.Some? && fetchAfter.value != "";
      if DeckAvoidsPending(deck, pending) {
        AvoidsAfterLoad(deck, items, pending, append);
      }
      var page := WithoutPending(items, pending);
      assert [] + page == page;
      deck, cursor, hasNextPage, isLoading := (if append then deck else []) + page, Some(endCursor), hasMore, false;
    }

    /** The end of `fetchAssets` when the page request fails: only the loading flag is cleared. */
    method PageFailed()
      requires isLoading
      modifies this`isLoading
      ensures !isLoading
    {
      isLoading := false;
    }

    /** The prefetch effect: fetches the page after the stored cursor exactly when ShouldPrefetch holds. */
    method PrefetchCheck() returns (started: bool)
      modifies this`isLoading, this`fetchAfter
      ensures started == old(ShouldPrefetch())
      ensures started ==> isLoading && fetchAfter == cursor
      ensures !started ==> isLoading == old(isLoading) && fetchAfter == old(fetchAfter)
    {
      started := false;
      if ShouldPrefetch() {
        started := FetchStart(cursor);
      }
    }

    /**
     * The reset effect of a new filter session: empty deck at position 0, no
     * cursor, more pages expected, zero session counters, completion re-armed;
     * then a first-page fetch.
     */
    method FilterReset() returns (started: bool)
      modifies this`deck, this`currentIndex, this`cursor, this`hasNextPage
      modifies this`sessionDeletedCount, this`sessionFreedBytes, this`sessionCompleted
      modifies this`isLoading, this`fetchAfter
      ensures deck == [] && currentIndex == 0 && cursor == None && hasNextPage
      ensures sessionDeletedCount == 0 && sessionFreedBytes == 0 && !sessionCompleted
      ensures started == !old(isLoading)
      ensures started ==> isLoading && fetchAfter == None
      ensures !started ==> isLoading == old(isLoading) && fetchAfter == old(fetchAfter)
      ensures old(DeckAvoidsPending(deck, pending)) ==> DeckAvoidsPending(deck, pending)
    {
      deck, currentIndex, cursor, hasNextPage := [], 0, None, true;
      sessionDeletedCount, sessionFreedBytes, sessionCompleted := 0, 0, false;
      started := FetchStart(None);
    }

    /** The session-completion effect: fires once when the deck is exhausted and no pages remain. */
    method SessionCheck() returns (fired: bool)
      modifies this`sessionCompleted, this`lifetime
      ensures fired == (!hasNextPage && |deck| == 0 && !old(sessionCompleted))
      ensures fired ==> sessionCompleted && lifetime == IncrementSessions(old(lifetime))
      ensures !fired ==> sessionCompleted == old(sessionCompleted) && lifetime == old(lifetime)
    {
      fired := !hasNextPage && |deck| == 0 && !sessionCompleted;
      if fired {
        sessionCompleted := true;
        lifetime := IncrementSessions(lifetime);
      }
    }

    // ----- size resolver -----------------------------------------------------

    /** `preloadSize(asset)`: the asset whose size lookup starts, unless there is no asset or its size is cached. */
    method PreloadSize(asset: Option<Asset>) returns (lookup: Option<Asset>)
      ensures lookup == if asset.Some? && asset.value.id !in sizeCache then asset else None
    {
      if asset.None? || asset.value.id in sizeCache {
        return None;
      }
      return asset;
    }

    /** The preload effect: the size lookups for the current and the next item, in that order. */
    method PreloadVisible() returns (lookups: seq<Asset>)
      ensures var current := if currentIndex < |deck| then Some(deck[currentIndex]) else None;
        var next := if currentIndex + 1 < |deck| then Some(deck[currentIndex + 1]) else None;
        lookups ==
          (if current.Some? && current.value.id !in sizeCache then [current.value] else [])
          + (if next.Some? && next.value.id !in sizeCache then [next.value] else [])
    {
      var current := if currentIndex < |deck| then Some(deck[currentIndex]) else None;
      var next := if currentIndex + 1 < |deck| then Some(deck[currentIndex + 1]) else None;
      var first := PreloadSize(current);
      var second := PreloadSize(next);
      lookups := (if first.Some? then [first.value] else []) + (if second.Some? then [second.value] else []);
    }

    /** The lookup `preloadSize` awaited settles with bytes: the size is cached and nothing else changes. */
    method PreloadResolved(asset: Asset, bytes: nat)
      modifies this`sizeCache
      ensures sizeCache == old(sizeCache)[asset.id := bytes]
    {
      sizeCache := sizeCache[asset.id := bytes];
    }

    /**
     * The lookup `handleDelete` awaited on a cache miss settles with bytes.
     * The size is cached; when it differs from the 0 that was counted, the
     * difference (all of bytes) goes to the lifetime bytes, becomes the size of
     * the pending record of that id if one still exists, and goes to the
     * session bytes if the screen is still mounted.
     */
    method ReconcileResolved(asset: Asset, bytes: nat)
      requires Valid()
      modifies this`sizeCache, this`lifetime, this`pending, this`sessionFreedBytes
      ensures Valid()
      ensures sizeCache == old(sizeCache)[asset.id := bytes]
      ensures bytes == 0 ==>
        lifetime == old(lifetime) && pending == old(pending) && sessionFreedBytes == old(sessionFreedBytes)
      ensures bytes != 0 ==>
        && lifetime == ApplyDeletionDelta(old(lifetime), 0, bytes)
        && pending == (if asset.id in old(pending) then old(pending)[asset.id := old(pending)[asset.id].(sizeBytes := bytes)] else old(pending))
        && sessionFreedBytes == (if isMounted then old(sessionFreedBytes) + bytes else old(sessionFreedBytes))
    {
      var pending', lifetime', session' := pending, lifetime, sessionFreedBytes;
      var diff := bytes - 0;
      if diff != 0 {
        lifetime' := ApplyDeletionDelta(lifetime, 0, diff);
        if asset.id in pending {
          ResizeKeepsValid(pending, pendingOrder, timers, nextTimer, asset.id, bytes);
          pending' := pending[asset.id := pending[asset.id].(sizeBytes := bytes)];
        }
        if isMounted {
          session' := ClampedAdd(sessionFreedBytes, diff);
        }
      }
      sizeCache, lifetime, pending, sessionFreedBytes := sizeCache[asset.id := bytes], lifetime', pending', session';
    }

    /**
     * The size lookup of a cache miss as intended: the size is cached, and the
     * difference from the 0 that was counted goes to the lifetime bytes, the
     * pending record and the session bytes only while the deletion of that id
     * is still pending, so a lookup that settles after the undo or the commit
     * changes no count.
     */
    method ReconcileResolvedWhilePending(asset: Asset, bytes: nat)
      requires Valid()
      modifies this`sizeCache, this`lifetime, this`pending, this`sessionFreedBytes
      ensures Valid()
      ensures sizeCache == old(sizeCache)[asset.id := bytes]
      ensures bytes == 0 || asset.id !in old(pending) ==>
        lifetime == old(lifetime) && pending == old(pending) && sessionFreedBytes == old(sessionFreedBytes)
      ensures bytes != 0 && asset.id in old(pending) ==>
        && lifetime == ApplyDeletionDelta(old(lifetime), 0, bytes)
        && pending == old(pending)[asset.id := old(pending)[asset.id].(sizeBytes := bytes)]
        && sessionFreedBytes == (if isMounted then old(sessionFreedBytes) + bytes else old(sessionFreedBytes))
    {
      if asset.id in pending {
        ReconcileResolved(asset, bytes);
      } else {
        sizeCache := sizeCache[asset.id := bytes];
      }
    }

    // ----- deletion pipeline -------------------------------------------------

    /**
     * `scheduleDeletionCommit(p)`: a new commit timer, whose closure keeps p,
     * and p stored as the pending record of its id with that timer. A Map `set`
     * of a new key appends it to the insertion order; of an existing key it
     * keeps the key's place.
     */
    method ScheduleDeletionCommit(p: PendingDeletion)
      requires Valid()
      modifies this`timers, this`pending, this`pendingOrder, this`nextTimer
      ensures Valid()
      ensures nextTimer == old(nextTimer) + 1
      ensures timers == old(timers)[old(nextTimer) := p.(timer := old(nextTimer))]
      ensures pending == old(pending)[p.id := p.(timer := old(nextTimer))]
      ensures pendingOrder == if p.id in old(pending) then old(pendingOrder) else old(pendingOrder) + [p.id]
    {
      ScheduleKeepsValid(pending, pendingOrder, timers, nextTimer, p);
      var record := p.(timer := nextTimer);
      timers := timers[nextTimer := record];
      if p.id !in pending {
        pendingOrder := pendingOrder + [p.id];
      }
      pending := pending[p.id := record];
      nextTimer := nextTimer + 1;
    }

    /** The commit timer `handle` of id is cleared or has fired, and the record of id leaves the pending Map. */
    method DropPending(id: string, handle: nat)
      requires Valid() && handle in timers && timers[handle].id == id
      modifies this`timers, this`pending, this`pendingOrder
      ensures Valid()
      ensures timers == old(timers) - {handle} && pending == old(pending) - {id}
      ensures pendingOrder == Without(old(pendingOrder), id)
      ensures old(DeckAvoidsPending(deck, pending)) ==> DeckAvoidsPending(deck, pending)
    {
      RemoveKeepsValid(pending, pendingOrder, timers, nextTimer, id, handle);
      timers, pending, pendingOrder := timers - {handle}, pending - {id}, Without(pendingOrder, id);
    }

    /**
     * The start of `handleDelete(asset, index)`: the item at index leaves the
     * deck at once, and the rest waits for the haptic feedback.
     */
    method SwipeDelete(asset: Asset, index: nat) returns (waiting: SwipedDelete)
      modifies this`deck, this`currentIndex
      ensures deck == RemoveAt(old(deck), index)
      ensures currentIndex == if index >= |deck| then (if |deck| == 0 then 0 else |deck| - 1) else old(currentIndex)
      ensures waiting == SwipedDelete(asset, index)
      ensures old(DeckAvoidsPending(deck, pending)) ==> DeckAvoidsPending(deck, pending)
    {
      RemoveFromDeck(index);
      waiting := SwipedDelete(asset, index);
    }

    /**
     * The rest of `handleDelete` once the haptic feedback settles: one
     * deletion of the cached size (0 when unknown) is counted in the session
     * and the lifetime stats, the undo toast shows the asset, the deletion is
     * scheduled with that size and the swiped index, and on a cache miss the
     * size lookup that may correct the count starts.
     */
    method DeleteAfterHaptics(d: SwipedDelete) returns (lookup: Option<Asset>)
      requires Valid()
      modifies this`sessionDeletedCount, this`sessionFreedBytes, this`lifetime
      modifies this`toastMessage, this`toastId
      modifies this`timers, this`pending, this`pendingOrder, this`nextTimer
      ensures Valid()
      ensures sessionDeletedCount == old(sessionDeletedCount) + 1
      ensures sessionFreedBytes == old(sessionFreedBytes) + CachedSize(sizeCache, d.asset.id)
      ensures lifetime == ApplyDeletionDelta(old(lifetime), 1, CachedSize(sizeCache, d.asset.id))
      ensures pending == old(pending)[d.asset.id := PendingDeletion(d.asset.id, d.asset, CachedSize(sizeCache, d.asset.id), d.index, old(nextTimer))]
      ensures timers == old(timers)[old(nextTimer) := pending[d.asset.id]]
      ensures nextTimer == old(nextTimer) + 1
      ensures pendingOrder == if d.asset.id in old(pending) then old(pendingOrder) else old(pendingOrder) + [d.asset.id]
      ensures toastId == Some(d.asset.id) && toastMessage == DELETED_MESSAGE
      ensures d.asset.id != "" ==> CanUndo()
      ensures lookup == if d.asset.id in sizeCache then None else Some(d.asset)
    {
      var asset := d.asset;
      var initialSize := CachedSize(sizeCache, asset.id);
      UpdateSessionStats(1, initialSize);
      lifetime, toastMessage, toastId := ApplyDeletionDelta(lifetime, 1, initialSize), DELETED_MESSAGE, Some(asset.id);
      ScheduleDeletionCommit(PendingDeletion(asset.id, asset, initialSize, d.index, 0));
      lookup := if asset.id in sizeCache then None else Some(asset);
    }

    /** `handleKeep(asset, index)`: only removes the item at index from the deck. */
    method Keep(asset: Asset, index: nat)
      modifies this`deck, this`currentIndex
      ensures deck == RemoveAt(old(deck), index)
      ensures currentIndex == if index >= |deck| then (if |deck| == 0 then 0 else |deck| - 1) else old(currentIndex)
      ensures old(DeckAvoidsPending(deck, pending)) ==> DeckAvoidsPending(deck, pending)
    {
      RemoveFromDeck(index);
    }

    /**
     * A commit timer fires: the pending record of the captured id is removed,
     * the undo toast for it is cleared if the screen is mounted, and the
     * destructive commit of the captured record starts.
     */
    method TimerFired(handle: nat) returns (commit: PendingDeletion)
      requires Valid() && handle in timers
      modifies this`timers, this`pending, this`pendingOrder, this`toastId
      ensures Valid()
      ensures var p := old(timers)[handle];
        && timers == old(timers) - {handle}
        && pending == old(pending) - {p.id}
        && pendingOrder == Without(old(pendingOrder), p.id)
        && toastId == (if isMounted && old(toastId) == Some(p.id) then None else old(toastId))
        && commit == p
      ensures old(DeckAvoidsPending(deck, pending)) ==> DeckAvoidsPending(deck, pending)
    {
      var p := timers[handle];
      DropPending(p.id, handle);
      if isMounted && toastId == Some(p.id) {
        toastId := None;
      }
      commit := p;
    }

    /**
     * A timer's commit settles. Success records today's deletion and changes no
     * count. Failure or a thrown error takes one deletion of the CAPTURED size
     * (the size at scheduling, not a later correction) out of the lifetime
     * stats and, if mounted, out of the session counters, and shows the
     * failure toast keyed by the id plus "-error". The deck is never restored.
     */
    method ScheduledCommitSettled(p: PendingDeletion, outcome: CommitOutcome, today: LocalDate)
      requires ValidDate(today)
      modifies this`lifetime, this`sessionDeletedCount, this`sessionFreedBytes
      modifies this`toastId, this`toastMessage, this`errorToastTimers
      ensures outcome == Deleted ==>
        && lifetime == RecordDeletionSuccessForToday(old(lifetime), today)
        && sessionDeletedCount == old(sessionDeletedCount) && sessionFreedBytes == old(sessionFreedBytes)
        && toastId == old(toastId) && toastMessage == old(toastMessage) && errorToastTimers == old(errorToastTimers)
      ensures outcome != Deleted ==> lifetime == ApplyDeletionDelta(old(lifetime), -1, -(p.sizeBytes as int))
      ensures outcome != Deleted && isMounted ==>
        && sessionDeletedCount == ClampedAdd(old(sessionDeletedCount), -1)
        && sessionFreedBytes == ClampedAdd(old(sessionFreedBytes), -(p.sizeBytes as int))
        && toastId == Some(p.id + ERROR_TOAST_SUFFIX) && toastMessage == FAILED_MESSAGE
        && errorToastTimers == old(errorToastTimers) + 1
      ensures outcome != Deleted && !isMounted ==>
        && sessionDeletedCount == old(sessionDeletedCount) && sessionFreedBytes == old(sessionFreedBytes)
        && toastId == old(toastId) && toastMessage == old(toastMessage) && errorToastTimers == old(errorToastTimers)
    {
      if outcome == Deleted {
        lifetime := RecordDeletionSuccessForToday(lifetime, today);
      } else {
        lifetime := ApplyDeletionDelta(lifetime, -1, -(p.sizeBytes as int));
        if isMounted {
          UpdateSessionStats(-1, -(p.sizeBytes as int));
          toastMessage := FAILED_MESSAGE;
          toastId := Some(p.id + ERROR_TOAST_SUFFIX);
          errorToastTimers := errorToastTimers + 1;
        }
      }
    }

    /** The 2.5-second timer after a failed commit: clears the toast, whatever it shows by then. */
    method ErrorToastExpired()
      requires errorToastTimers > 0
      modifies this`toastId, this`errorToastTimers
      ensures toastId == None && errorToastTimers == old(errorToastTimers) - 1
    {
      toastId := None;
      errorToastTimers := errorToastTimers - 1;
    }

    /**
     * `handleUndo`: nothing happens unless the toast's id names a pending
     * record. Then its timer is cleared, the record removed, the asset put
     * back at its index and made current, one deletion of the record's
     * current size taken out of the session and the lifetime stats, and the
     * toast cleared.
     */
    method Undo()
      requires Valid()
      modifies this`timers, this`pending, this`pendingOrder, this`deck, this`currentIndex
      modifies this`sessionDeletedCount, this`sessionFreedBytes, this`lifetime, this`toastId
      ensures Valid()
      ensures !old(CanUndo()) ==>
        && timers == old(timers) && pending == old(pending) && pendingOrder == old(pendingOrder)
        && deck == old(deck) && currentIndex == old(currentIndex)
        && sessionDeletedCount == old(sessionDeletedCount) && sessionFreedBytes == old(sessionFreedBytes)
        && lifetime == old(lifetime) && toastId == old(toastId)
      ensures old(CanUndo()) ==>
        var p := old(pending)[old(toastId).value];
        && timers == old(timers) - {p.timer}
        && pending == old(pending) - {p.id}
        && pendingOrder == Without(old(pendingOrder), p.id)
        && currentIndex == Min(p.index, |old(deck)|)
        && deck == InsertAt(old(deck), currentIndex, p.asset)
        && sessionDeletedCount == ClampedAdd(old(sessionDeletedCount), -1)
        && sessionFreedBytes == ClampedAdd(old(sessionFreedBytes), -(p.sizeBytes as int))
        && lifetime == ApplyDeletionDelta(old(lifetime), -1, -(p.sizeBytes as int))
        && toastId == None
    {
      if toastId.None? || toastId.value == "" || toastId.value !in pending {
        return;
      }
      UndoPending(toastId.value);
    }

    /** handleUndo past its guard, for the pending record of id. */
    method UndoPending(id: string)
      requires Valid() && id in pending
      modifies this`timers, this`pending, this`pendingOrder, this`deck, this`currentIndex
      modifies this`sessionDeletedCount, this`sessionFreedBytes, this`lifetime, this`toastId
      ensures Valid()
      ensures var p := old(pending)[id];
        && timers == old(timers) - {p.timer}
        && pending == old(pending) - {p.id}
        && pendingOrder == Without(old(pendingOrder), p.id)
        && currentIndex == Min(p.index, |old(deck)|)
        && deck == InsertAt(old(deck), currentIndex, p.asset)
        && sessionDeletedCount == ClampedAdd(old(sessionDeletedCount), -1)
        && sessionFreedBytes == ClampedAdd(old(sessionFreedBytes), -(p.sizeBytes as int))
        && lifetime == ApplyDeletionDelta(old(lifetime), -1, -(p.sizeBytes as int))
        && toastId == None
    {
      var p := pending[id];
      assert Scheduled(pending, timers, id);
      DropPending(p.id, p.timer);
      RestoreToDeck(p.asset, p.index);
      UpdateSessionStats(-1, -(p.sizeBytes as int));
      lifetime, toastId := ApplyDeletionDelta(lifetime, -1, -(p.sizeBytes as int)), None;
    }

    /**
     * The unmount cleanup: the screen is no longer mounted; every pending
     * record, in insertion order, has its timer cleared and its commit forced;
     * then no record is pending.
     */
    method Unmount() returns (forced: seq<PendingDeletion>)
      requires Valid()
      modifies this`isMounted, this`timers, this`pending, this`pendingOrder
      ensures Valid()
      ensures !isMounted && pending == map[] && pendingOrder == []
      ensures forced == PendingRecords(old(pending), old(pendingOrder))
      ensures timers == old(timers) - TimersOf(forced)
      ensures TimersOf(PendingRecords(old(pending), old(pendingOrder))) == TimersHeld(old(pending))
      ensures DeckAvoidsPending(deck, pending)
    {
      var recs := PendingRecords(pending, pendingOrder);
      RecordsHoldPendingTimers(pending, pendingOrder, timers, nextTimer);
      var live: map<nat, PendingDeletion>;
      live, forced := ForceCommits(recs, timers);
      isMounted, timers, pending, pendingOrder := false, live, map[], [];
    }

    /** A forced commit settles: only the lifetime stats change, as SettleForcedCommit says. */
    method ForcedCommitSettled(p: PendingDeletion, outcome: CommitOutcome, today: LocalDate)
      requires ValidDate(today)
      modifies this`lifetime
      ensures lifetime == SettleForcedCommit(old(lifetime), p, outcome, today)
    {
      lifetime := SettleForcedCommit(lifetime, p, outcome, today);
    }
  }
}
