/**
 * The stateful helpers of frontend/src/utils/PerformanceOptimizer.js: the card
 * state cache with age-based eviction, the requestAnimationFrame-driven FIFO
 * animation scheduler, and the animation performance counters.
 *
 * `performance.now()` is a parameter `now` (whole milliseconds); a scheduled
 * callback is an opaque `Callback` value and running it appends it to the
 * scheduler's `executed` log.
 */
module PerformanceOptimizer {
  import opened Wrappers

  /** The per-card flags a card stores in the cache. */
  datatype CardState = CardState(isFlipped: bool, isMatched: bool, isAnimating: bool)

  /** A cache entry: the state as given, plus the time it was stored. */
  datatype StoredState = StoredState(state: CardState, lastUpdate: int)

  /** A `Map` entry: the card id and what is stored under it. */
  datatype Entry = Entry(cardId: int, stored: StoredState)

  /** The default `maxAge` of `clearOldStates`, in milliseconds. */
  const DefaultMaxAge: int := 5000

  /** An entry survives eviction at time `now` when it is at most `maxAge` old. */
  predicate Recent(entry: StoredState, now: int, maxAge: int) {
    now - entry.lastUpdate <= maxAge
  }

  /** No card id occurs twice: the entries of a JavaScript `Map`, in insertion order. */
  predicate DistinctIds(entries: seq<Entry>) {
    forall i, j :: 0 <= i < j < |entries| ==> entries[i].cardId != entries[j].cardId
  }

  /** `Map.get`: what is stored under `cardId`, if anything. */
  function Find(entries: seq<Entry>, cardId: int): (r: Option<StoredState>)
  {
    if entries == [] then None
    else if entries[|entries| - 1].cardId == cardId then Some(entries[|entries| - 1].stored)
    else Find(entries[..|entries| - 1], cardId)
  }

  /** `Find` fails exactly for an id with no entry, and otherwise returns that entry's value. */
  lemma {:induction false} FindSpec(entries: seq<Entry>, cardId: int)
    requires DistinctIds(entries)
    ensures Find(entries, cardId).None? <==> forall k :: 0 <= k < |entries| ==> entries[k].cardId != cardId
    ensures forall k :: 0 <= k < |entries| && entries[k].cardId == cardId ==>
      Find(entries, cardId) == Some(entries[k].stored)
  {
    if entries != [] {
      var init := entries[..|entries| - 1];
      assert DistinctIds(init);
      FindSpec(init, cardId);
      assert forall k :: 0 <= k < |init| ==> init[k] == entries[k];
    }
  }

  /** `Map.set(cardId, v)`: replace the value in place if the id is present, else append. */
  function Stored(entries: seq<Entry>, cardId: int, v: StoredState): (r: seq<Entry>)
    ensures |r| == |entries| || r == entries + [Entry(cardId, v)]
  {
    if Find(entries, cardId).None? then entries + [Entry(cardId, v)]
    else seq(|entries|, k requires 0 <= k < |entries| =>
               if entries[k].cardId == cardId then Entry(cardId, v) else entries[k])
  }

  /** `Map.set` keeps card ids distinct. */
  lemma StoredDistinct(entries: seq<Entry>, cardId: int, v: StoredState)
    requires DistinctIds(entries)
    ensures DistinctIds(Stored(entries, cardId, v))
  {
    var r := Stored(entries, cardId, v);
    FindSpec(entries, cardId);
    assert forall k :: 0 <= k < |r| ==> r[k].cardId == (if k < |entries| then entries[k].cardId else cardId);
  }

  /** After `Map.set(cardId, v)` the id maps to `v`. */
  lemma StoredFindSame(entries: seq<Entry>, cardId: int, v: StoredState)
    requires DistinctIds(entries)
    ensures Find(Stored(entries, cardId, v), cardId) == Some(v)
  {
    var r := Stored(entries, cardId, v);
    StoredDistinct(entries, cardId, v);
    FindSpec(entries, cardId);
    FindSpec(r, cardId);
    if Find(entries, cardId).Some? {
      var k :| 0 <= k < |entries| && entries[k].cardId == cardId;
      assert r[k] == Entry(cardId, v);
    } else {
      assert r[|entries|] == Entry(cardId, v);
    }
  }

  /** After `Map.set(cardId, v)` every other id keeps its value. */
  lemma StoredFindOther(entries: seq<Entry>, cardId: int, v: StoredState, other: int)
    requires DistinctIds(entries) && other != cardId
    ensures Find(Stored(entries, cardId, v), other) == Find(entries, other)
  {
    var r := Stored(entries, cardId, v);
    StoredDistinct(entries, cardId, v);
    FindSpec(entries, other);
    FindSpec(r, other);
    assert forall k :: 0 <= k < |r| ==> r[k].cardId == (if k < |entries| then entries[k].cardId else cardId);
    if Find(entries, other).Some? {
      var k :| 0 <= k < |entries| && entries[k].cardId == other;
      assert r[k] == entries[k];
    }
  }

  /** The entries left by `clearOldStates(maxAge)` at time `now`, in their original order. */
  function Evicted(entries: seq<Entry>, now: int, maxAge: int): (r: seq<Entry>)
    ensures |r| <= |entries|
  {
    if entries == [] then []
    else
      var last := entries[|entries| - 1];
      Evicted(entries[..|entries| - 1], now, maxAge) + (if Recent(last.stored, now, maxAge) then [last] else [])
  }

  /**
   * Eviction deletes exactly the stale entries: afterwards an id maps to its old
   * value when that value is recent, and to nothing otherwise.
   */
  lemma {:induction false} FindEvicted(entries: seq<Entry>, now: int, maxAge: int, cardId: int)
    requires DistinctIds(entries)
    ensures DistinctIds(Evicted(entries, now, maxAge))
    ensures Find(Evicted(entries, now, maxAge), cardId) ==
      (if Find(entries, cardId).Some? && Recent(Find(entries, cardId).value, now, maxAge)
       then Find(entries, cardId) else None)
  {
    if entries != [] {
      var init := entries[..|entries| - 1];
      var last := entries[|entries| - 1];
      assert DistinctIds(init);
      FindEvicted(init, now, maxAge, cardId);
      var rest := Evicted(init, now, maxAge);
      if Recent(last.stored, now, maxAge) {
        assert (rest + [last])[..|rest|] == rest;
        assert forall k :: 0 <= k < |init| ==> init[k].cardId != last.cardId;
        EvictedIds(init, now, maxAge, last.cardId);
      } else {
        assert Evicted(entries, now, maxAge) == rest + [];
        assert rest + [] == rest;
        if last.cardId == cardId {
          assert forall k :: 0 <= k < |init| ==> init[k].cardId != cardId;
          FindSpec(init, cardId);
        }
      }
    }
  }

  /** Eviction only drops entries: an id absent before is absent after. */
  lemma {:induction false} EvictedIds(entries: seq<Entry>, now: int, maxAge: int, cardId: int)
    requires forall k :: 0 <= k < |entries| ==> entries[k].cardId != cardId
    ensures forall k :: 0 <= k < |Evicted(entries, now, maxAge)| ==> Evicted(entries, now, maxAge)[k].cardId != cardId
  {
    if entries != [] {
      EvictedIds(entries[..|entries| - 1], now, maxAge, cardId);
    }
  }

  /** Evicting twice at the same time and age evicts nothing more. */
  lemma {:induction false} EvictedIdempotent(entries: seq<Entry>, now: int, maxAge: int)
    ensures Evicted(Evicted(entries, now, maxAge), now, maxAge) == Evicted(entries, now, maxAge)
  {
    if entries != [] {
      var init := entries[..|entries| - 1];
      var last := entries[|entries| - 1];
      EvictedIdempotent(init, now, maxAge);
      var rest := Evicted(init, now, maxAge);
      if Recent(last.stored, now, maxAge) {
        var again := rest + [last];
        assert again[..|rest|] == rest && again[|rest|] == last;
        assert Evicted(again, now, maxAge) == Evicted(rest, now, maxAge) + [last];
        assert Evicted(entries, now, maxAge) == again;
      } else {
        assert Evicted(entries, now, maxAge) == rest + [];
        assert rest + [] == rest;
      }
    }
  }

  /**
   * A state set at time `t` survives a later eviction exactly while it is at
   * most `maxAge` old: evicting at `now` keeps it iff `now - t <= maxAge`.
   */
  lemma SetStateExpires(entries: seq<Entry>, cardId: int, state: CardState, t: int, now: int, maxAge: int)
    requires DistinctIds(entries)
    ensures var after := Evicted(Stored(entries, cardId, StoredState(state, t)), now, maxAge);
      && (now - t <= maxAge ==> Find(after, cardId) == Some(StoredState(state, t)))
      && (now - t > maxAge ==> Find(after, cardId).None?)
  {
    var stored := Stored(entries, cardId, StoredState(state, t));
    StoredDistinct(entries, cardId, StoredState(state, t));
    StoredFindSame(entries, cardId, StoredState(state, t));
    FindEvicted(stored, now, maxAge, cardId);
  }

  /**
   * One step of `clearOldStates`: with the first `i` entries already processed,
   * deleting entry `i` when stale (it sits just after the kept ones) processes `i + 1`.
   */
  lemma ClearStep(entries: seq<Entry>, i: int, now: int, maxAge: int)
    requires 0 <= i < |entries|
    ensures var kept := Evicted(entries[..i], now, maxAge);
      var cur := kept + entries[i..];
      && |kept| < |cur| && cur[|kept|] == entries[i]
      && (Recent(entries[i].stored, now, maxAge) ==> cur == Evicted(entries[..i + 1], now, maxAge) + entries[i + 1..])
      && (!Recent(entries[i].stored, now, maxAge) ==>
            cur[..|kept|] + cur[|kept| + 1..] == Evicted(entries[..i + 1], now, maxAge) + entries[i + 1..])
  {
    var kept := Evicted(entries[..i], now, maxAge);
    var cur := kept + entries[i..];
    assert entries[..i + 1][..i] == entries[..i];
    assert entries[..i + 1][i] == entries[i];
    if Recent(entries[i].stored, now, maxAge) {
      assert Evicted(entries[..i + 1], now, maxAge) == kept + [entries[i]];
      assert entries[i..] == [entries[i]] + entries[i + 1..];
      assert cur == (kept + [entries[i]]) + entries[i + 1..];
    } else {
      assert Evicted(entries[..i + 1], now, maxAge) == kept + [];
      assert kept + [] == kept;
      assert cur[..|kept|] == kept;
      assert cur[|kept| + 1..] == entries[i + 1..];
    }
  }

  /** The object returned by `createCardStateManager`: a `Map` of card states keyed by card id. */
  class CardStateManager {
    var entries: seq<Entry>

    ghost predicate Valid()
      reads this
    {
      DistinctIds(entries)
    }

    constructor ()
      ensures Valid() && entries == []
    {
      entries := [];
    }

    /** `setCardState(cardId, state)` at time `now`: store or replace that card's entry. */
    method SetCardState(cardId: int, state: CardState, now: int)
      requires Valid()
      modifies this
      ensures Valid()
      ensures entries == Stored(old(entries), cardId, StoredState(state, now))
      ensures GetCardState(cardId) == Some(StoredState(state, now))
      ensures forall id :: id != cardId ==> GetCardState(id) == old(GetCardState(id))
    {
      StoredDistinct(entries, cardId, StoredState(state, now));
      StoredFindSame(entries, cardId, StoredState(state, now));
      forall id | id != cardId
        ensures Find(Stored(entries, cardId, StoredState(state, now)), id) == Find(entries, id)
      {
        StoredFindOther(entries, cardId, StoredState(state, now), id);
      }
      entries := Stored(entries, cardId, StoredState(state, now));
    }

    /** `getCardState(cardId)`: the stored entry, or None (null) for an unknown or evicted card. */
    function GetCardState(cardId: int): (r: Option<StoredState>)
      reads this
      requires Valid()
      ensures r.None? <==> forall k :: 0 <= k < |entries| ==> entries[k].cardId != cardId
      ensures forall k :: 0 <= k < |entries| && entries[k].cardId == cardId ==> r == Some(entries[k].stored)
    {
      FindSpec(entries, cardId);
      Find(entries, cardId)
    }

    /** `isCardAnimating(cardId)`: an entry exists and its `isAnimating` flag is set. */
    function IsCardAnimating(cardId: int): (b: bool)
      reads this
      requires Valid()
      ensures b <==> GetCardState(cardId).Some? && GetCardState(cardId).value.state.isAnimating
    {
      var s := Find(entries, cardId);
      s.Some? && s.value.state.isAnimating
    }

    /**
     * `clearOldStates(maxAge)` at time `now`: walks the entries in order and
     * deletes each one older than `maxAge`.
     */
    method ClearOldStates(now: int, maxAge: int)
      requires Valid()
      modifies this
      ensures Valid()
      ensures entries == Evicted(old(entries), now, maxAge)
      ensures forall id :: Find(entries, id) ==
                             (if Find(old(entries), id).Some? && Recent(Find(old(entries), id).value, now, maxAge)
                              then Find(old(entries), id) else None)
    {
      var snapshot := entries;
      var i := 0;
      while i < |snapshot|
        invariant 0 <= i <= |snapshot|
        invariant entries == Evicted(snapshot[..i], now, maxAge) + snapshot[i..]
      {
        ClearStep(snapshot, i, now, maxAge);
        if !Recent(snapshot[i].stored, now, maxAge) {
          var kept := |Evicted(snapshot[..i], now, maxAge)|;
          entries := entries[..kept] + entries[kept + 1..];
        }
        i := i + 1;
      }
      assert snapshot[..|snapshot|] == snapshot;
      assert snapshot[|snapshot|..] == [];
      assert entries == Evicted(snapshot, now, maxAge);
      forall id
        ensures Find(entries, id) ==
          (if Find(snapshot, id).Some? && Recent(Find(snapshot, id).value, now, maxAge) then Find(snapshot, id) else None)
      {
        FindEvicted(snapshot, now, maxAge, id);
      }
      FindEvicted(snapshot, now, maxAge, 0);
    }

    /** `clearOldStates()` without an argument: eviction with the default age of 5000 ms. */
    method ClearOldStatesByDefault(now: int)
      requires Valid()
      modifies this
      ensures Valid()
      ensures entries == Evicted(old(entries), now, DefaultMaxAge)
    {
      ClearOldStates(now, DefaultMaxAge);
    }

    /** `clear()`: drop every entry. */
    method Clear()
      modifies this
      ensures Valid() && entries == []
      ensures forall id :: Find(entries, id).None?
    {
      entries := [];
    }
  }

  /** A callback handed to `schedule`. */
  type Callback = nat

  /**
   * `AnimationScheduler`: a FIFO queue of callbacks drained one per animation
   * frame. `pendingFrames` counts `requestAnimationFrame(tick)` requests the
   * browser has not served yet; `executed` lists the callbacks run so far.
   */
  class AnimationScheduler {
    var queue: seq<Callback>
    var isRunning: bool
    var pendingFrames: nat
    var executed: seq<Callback>

    /**
     * An idle scheduler has nothing queued, and a running one always has a
     * frame on its way, so queued work is never stranded, provided every
     * callback returns normally (a throwing callback skips the next frame
     * request and leaves the scheduler running with nothing pending).
     */
    ghost predicate Valid()
      reads this
    {
      && (!isRunning ==> queue == [])
      && (isRunning ==> pendingFrames >= 1)
    }

    /** Everything ever scheduled, in order: what ran, then what waits. */
    function History(): seq<Callback>
      reads this
    {
      executed + queue
    }

    constructor ()
      ensures Valid()
      ensures queue == [] && !isRunning && pendingFrames == 0 && executed == []
    {
      queue, isRunning, pendingFrames, executed := [], false, 0, [];
    }

    /**
     * `tick`: run the head of the queue and ask for another frame, or stop
     * running when the queue is empty.
     */
    method Tick()
      modifies this
      ensures History() == old(History())
      ensures old(queue) != [] ==>
        && executed == old(executed) + [old(queue)[0]] && queue == old(queue)[1..]
        && pendingFrames == old(pendingFrames) + 1 && isRunning == old(isRunning)
      ensures old(queue) == [] ==>
        && !isRunning && queue == [] && executed == old(executed) && pendingFrames == old(pendingFrames)
    {
      if |queue| > 0 {
        var callback := queue[0];
        queue := queue[1..];
        executed := executed + [callback];
        pendingFrames := pendingFrames + 1;
      } else {
        isRunning := false;
      }
    }

    /** `start`: mark the scheduler running and tick at once. */
    method Start()
      modifies this
      ensures History() == old(History())
      ensures old(queue) != [] ==>
        && isRunning && executed == old(executed) + [old(queue)[0]] && queue == old(queue)[1..]
        && pendingFrames == old(pendingFrames) + 1
      ensures old(queue) == [] ==>
        !isRunning && queue == [] && executed == old(executed) && pendingFrames == old(pendingFrames)
    {
      isRunning := true;
      Tick();
    }

    /**
     * `schedule(callback)`: append it to the queue; an idle scheduler starts,
     * which runs the head of the queue (this callback) immediately.
     */
    method Schedule(callback: Callback)
      requires Valid()
      modifies this
      ensures Valid()
      ensures History() == old(History()) + [callback]
      ensures old(isRunning) ==>
        queue == old(queue) + [callback] && executed == old(executed) && pendingFrames == old(pendingFrames)
      ensures !old(isRunning) ==>
        && isRunning && queue == [] && executed == old(executed) + [callback]
        && pendingFrames == old(pendingFrames) + 1
    {
      queue := queue + [callback];
      if !isRunning {
        Start();
      }
    }

    /** The browser serves one pending frame, which calls `tick`. */
    method AnimationFrame()
      requires Valid() && pendingFrames > 0
      modifies this
      ensures Valid()
      ensures History() == old(History())
      ensures old(queue) != [] ==>
        && executed == old(executed) + [old(queue)[0]] && queue == old(queue)[1..]
        && pendingFrames == old(pendingFrames) && isRunning == old(isRunning)
      ensures old(queue) == [] ==>
        !isRunning && executed == old(executed) && pendingFrames == old(pendingFrames) - 1
    {
      pendingFrames := pendingFrames - 1;
      Tick();
    }

    /** `clear()`: drop the waiting callbacks and mark the scheduler idle. */
    method Clear()
      modifies this
      ensures Valid()
      ensures queue == [] && !isRunning
      ensures executed == old(executed) && pendingFrames == old(pendingFrames)
    {
      queue := [];
      isRunning := false;
    }
  }

  /** The counters behind `getMetrics`, as of time `now`. */
  datatype Metrics = Metrics(totalAnimations: nat, totalFrames: nat, duration: int)

  /** `AnimationPerformanceMonitor`: animation and frame counters since `startTime`. */
  class AnimationPerformanceMonitor {
    var animationCount: nat
    var frameCount: nat
    var startTime: int

    constructor (now: int)
      ensures animationCount == 0 && frameCount == 0 && startTime == now
    {
      animationCount, frameCount, startTime := 0, 0, now;
    }

    method TrackAnimation()
      modifies this
      ensures animationCount == old(animationCount) + 1
      ensures frameCount == old(frameCount) && startTime == old(startTime)
    {
      animationCount := animationCount + 1;
    }

    method TrackFrame()
      modifies this
      ensures frameCount == old(frameCount) + 1
      ensures animationCount == old(animationCount) && startTime == old(startTime)
    {
      frameCount := frameCount + 1;
    }

    /** The exact part of `getMetrics` at time `now`: the two totals and the elapsed time. */
    function GetMetrics(now: int): (m: Metrics)
      reads this
      ensures m.totalAnimations == animationCount && m.totalFrames == frameCount
      ensures startTime + m.duration == now
    {
      Metrics(animationCount, frameCount, now - startTime)
    }

    method Reset(now: int)
      modifies this
      ensures animationCount == 0 && frameCount == 0 && startTime == now
      ensures GetMetrics(now) == Metrics(0, 0, 0)
    {
      animationCount, frameCount, startTime := 0, 0, now;
    }
  }

  /**
   * A measuring session: after `reset` at `t0`, `animations` calls of
   * `trackAnimation` and `frames` calls of `trackFrame`, the metrics read at
   * `t` report exactly those counts and the time elapsed since the reset.
   */
  method MeasureSession(monitor: AnimationPerformanceMonitor, t0: int, animations: nat, frames: nat, t: int)
    returns (m: Metrics)
    modifies monitor
    ensures m == Metrics(animations, frames, t - t0)
  {
    monitor.Reset(t0);
    var i := 0;
    while i < animations
      invariant 0 <= i <= animations
      invariant monitor.animationCount == i && monitor.frameCount == 0 && monitor.startTime == t0
    {
      monitor.TrackAnimation();
      i := i + 1;
    }
    var j := 0;
    while j < frames
      invariant 0 <= j <= frames
      invariant monitor.animationCount == animations && monitor.frameCount == j && monitor.startTime == t0
    {
      monitor.TrackFrame();
      j := j + 1;
    }
    m := monitor.GetMetrics(t);
  }

  /**
   * The scheduler scenario of the test suite: two callbacks scheduled on an
   * idle scheduler. As the code is written, the first runs at once (schedule
   * starts the scheduler, which ticks synchronously) and the second waits for
   * the next frame, after which both have run in order.
   */
  method ScheduleTwoFromIdle(c1: Callback, c2: Callback) returns (scheduler: AnimationScheduler)
    ensures fresh(scheduler) && scheduler.Valid()
    ensures scheduler.executed == [c1, c2] && scheduler.queue == []
    ensures scheduler.isRunning && scheduler.pendingFrames == 1
  {
    scheduler := new AnimationScheduler();
    scheduler.Schedule(c1);
    assert scheduler.executed == [c1] && scheduler.queue == [];
    scheduler.Schedule(c2);
    assert scheduler.executed == [c1] && scheduler.queue == [c2];
    scheduler.AnimationFrame();
  }
}
