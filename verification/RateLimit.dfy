/** The API's fixed-window rate limiter, and the limiter that remembers every hit. Times are exact reals. */
module RateLimit {
  import opened Wrappers
  import opened Vectors
  import opened Counting

  const MAX_TRACKED_KEYS: nat := 10_000

  // The stored count for a key and the start of the window it was counted in.
  datatype Slot = Slot(count: nat, start: int)

  type Store = map<string, Slot>

  datatype Verdict = Verdict(allowed: bool, limit: int, remaining: int, reset: int)

  function WindowStart(now: real, window: int): int
    requires window > 0
  {
    Quot(now, window as real).Floor * window
  }

  function CountFor(store: Store, key: string, start: int): nat {
    1 + if key in store && store[key].start == start then store[key].count else 0
  }

  function Purged(store: Store, start: int): Store {
    map k | k in store && store[k].start >= start :: store[k]
  }

  function AfterHit(store: Store, key: string, start: int): Store {
    var hit := store[key := Slot(CountFor(store, key, start), start)];
    if |hit| > MAX_TRACKED_KEYS then Purged(hit, start) else hit
  }

  function VerdictFor(count: nat, start: int, limit: int, window: int): Verdict {
    Verdict(count <= limit, limit, Max(0, limit - count), start + window)
  }

  class FixedWindowRateLimiter {
    const limit: int
    const window: int
    var hits: Store

    constructor (limit: int, window: int)
      requires window > 0
      ensures this.limit == limit && this.window == window && hits == map[]
    {
      this.limit, this.window := limit, window;
      hits := map[];
    }

    method Hit(key: string, now: real) returns (v: Verdict)
      requires window > 0
      modifies this
      ensures hits == AfterHit(old(hits), key, WindowStart(now, window))
      ensures var start := WindowStart(now, window);
        v == VerdictFor(CountFor(old(hits), key, start), start, limit, window)
    {
      var windowStart := WindowStart(now, window);
      var count, start := 0, windowStart;
      if key in hits {
        count, start := hits[key].count, hits[key].start;
      }
      if start != windowStart {
        count, start := 0, windowStart;
      }
      count := count + 1;
      hits := hits[key := Slot(count, start)];
      if |hits| > MAX_TRACKED_KEYS {
        Purge(windowStart);
      }
      v := Verdict(count <= limit, limit, Max(0, limit - count), start + window);
    }

    method Purge(currentWindowStart: int)
      modifies this
      ensures forall k :: k in hits <==> k in old(hits) && old(hits)[k].start >= currentWindowStart
      ensures forall k :: k in hits ==> hits[k] == old(hits)[k]
    {
      hits := map k | k in hits && hits[k].start >= currentWindowStart :: hits[k];
    }
  }

  /******* Runs of calls *******/

  datatype Call = Call(key: string, now: real)

  function StartOf(c: Call, window: int): int
    requires window > 0
  {
    WindowStart(c.now, window)
  }

  function StoreAfter(calls: seq<Call>, window: int): Store
    requires window > 0
  {
    if calls == [] then map[]
    else
      var c := calls[|calls| - 1];
      AfterHit(StoreAfter(calls[..|calls| - 1], window), c.key, StartOf(c, window))
  }

  // What the limiter answers to call i of the run.
  function Answer(calls: seq<Call>, i: nat, limit: int, window: int): Verdict
    requires window > 0 && i < |calls|
  {
    var c := calls[i];
    VerdictFor(CountFor(StoreAfter(calls[..i], window), c.key, StartOf(c, window)), StartOf(c, window), limit, window)
  }

  // How many calls of the run hit this key in the window starting at `start`.
  function Tally(calls: seq<Call>, key: string, start: int, window: int): nat
    requires window > 0
  {
    if calls == [] then 0
    else
      var c := calls[|calls| - 1];
      Tally(calls[..|calls| - 1], key, start, window)
      + if c.key == key && StartOf(c, window) == start then 1 else 0
  }

  /******* When a count is exact *******/

  predicate Purges(before: seq<Call>, c: Call, window: int)
    requires window > 0
  {
    |StoreAfter(before, window).Keys + {c.key}| > MAX_TRACKED_KEYS
  }

  // Call c, coming after `before`, makes the limiter forget what it counted for this key in the window
  // at `start`: the key moves to another window, or a purge from a later window drops it.
  predicate Forgets(before: seq<Call>, c: Call, key: string, start: int, window: int)
    requires window > 0
  {
    if c.key == key then StartOf(c, window) != start
    else Purges(before, c, window) && StartOf(c, window) > start
  }

  // The key's hits in the window since the limiter last forgot it.
  function Remembered(calls: seq<Call>, key: string, start: int, window: int): nat
    requires window > 0
  {
    if calls == [] then 0
    else
      var before, c := calls[..|calls| - 1], calls[|calls| - 1];
      if Forgets(before, c, key, start, window) then 0
      else Remembered(before, key, start, window) + if c.key == key then 1 else 0
  }

  // Whatever the clock does, the store counts exactly what is remembered.
  lemma {:induction false} CountIsRemembered(calls: seq<Call>, key: string, start: int, window: int)
    requires window > 0
    ensures CountFor(StoreAfter(calls, window), key, start) == 1 + Remembered(calls, key, start, window)
  {
    if calls != [] {
      var before, c := calls[..|calls| - 1], calls[|calls| - 1];
      CountIsRemembered(before, key, start, window);
      HitRemembers(StoreAfter(before, window), c, key, start, window);
    }
  }

  lemma HitRemembers(store: Store, c: Call, key: string, start: int, window: int)
    requires window > 0
    ensures var current := StartOf(c, window);
      CountFor(AfterHit(store, c.key, current), key, start) ==
        if c.key == key && current == start then CountFor(store, key, start) + 1
        else if c.key == key || (|store.Keys + {c.key}| > MAX_TRACKED_KEYS && current > start) then 1
        else CountFor(store, key, start)
  {
    var hit := store[c.key := Slot(CountFor(store, c.key, StartOf(c, window)), StartOf(c, window))];
    assert hit.Keys == store.Keys + {c.key} && |hit| == |hit.Keys|;
  }

  // No call that follows a hit of the key in the window at `start` makes the limiter forget it.
  ghost predicate NothingForgotten(calls: seq<Call>, key: string, start: int, window: int)
    requires window > 0
  {
    forall j :: 0 <= j < |calls| && Tally(calls[..j], key, start, window) > 0
      ==> !Forgets(calls[..j], calls[j], key, start, window)
  }

  predicate HitsIn(c: Call, key: string, start: int, window: int)
    requires window > 0
  {
    c.key == key && StartOf(c, window) == start
  }

  lemma {:induction false} TallyNeedsHit(calls: seq<Call>, key: string, start: int, window: int)
    requires window > 0
    ensures Tally(calls, key, start, window) > 0
       <==> exists h :: 0 <= h < |calls| && HitsIn(calls[h], key, start, window)
  {
    if calls != [] {
      var n := |calls| - 1;
      TallyNeedsHit(calls[..n], key, start, window);
      if h :| 0 <= h < n && HitsIn(calls[h], key, start, window) {
        assert HitsIn(calls[..n][h], key, start, window);
      }
    }
  }

  lemma NothingForgottenExtends(before: seq<Call>, c: Call, key: string, start: int, window: int)
    requires window > 0
    ensures NothingForgotten(before + [c], key, start, window) <==>
      && NothingForgotten(before, key, start, window)
      && (Tally(before, key, start, window) > 0 ==> !Forgets(before, c, key, start, window))
  {
    var calls := before + [c];
    assert forall j :: 0 <= j < |before| ==> calls[..j] == before[..j] && calls[j] == before[j];
    assert calls[..|before|] == before;
  }

  lemma OneMoreCall(before: seq<Call>, c: Call, key: string, start: int, window: int)
    requires window > 0
    ensures Remembered(before + [c], key, start, window)
         == if Forgets(before, c, key, start, window) then 0
            else Remembered(before, key, start, window) + if c.key == key then 1 else 0
    ensures Tally(before + [c], key, start, window)
         == Tally(before, key, start, window) + if HitsIn(c, key, start, window) then 1 else 0
    ensures Forgets(before, c, key, start, window) ==> !HitsIn(c, key, start, window)
  {
    assert (before + [c])[..|before|] == before;
  }

  lemma {:induction false} RememberedIsTally(calls: seq<Call>, key: string, start: int, window: int)
    requires window > 0
    ensures Remembered(calls, key, start, window) <= Tally(calls, key, start, window)
    ensures Remembered(calls, key, start, window) == Tally(calls, key, start, window)
       <==> NothingForgotten(calls, key, start, window)
  {
    if calls != [] {
      var before, c := calls[..|calls| - 1], calls[|calls| - 1];
      RememberedIsTally(before, key, start, window);
      assert calls == before + [c];
      OneMoreCall(before, c, key, start, window);
      NothingForgottenExtends(before, c, key, start, window);
    }
  }

  // For every run of calls, on any clock: call i is counted as by a limiter that remembers every hit
  // exactly when no earlier call forgot a hit of its key in its window, and otherwise lower.
  lemma CountExactlyWhenRemembered(calls: seq<Call>, i: nat, window: int)
    requires window > 0 && i < |calls|
    ensures var key, start := calls[i].key, StartOf(calls[i], window);
      && CountFor(StoreAfter(calls[..i], window), key, start) <= 1 + Tally(calls[..i], key, start, window)
      && (CountFor(StoreAfter(calls[..i], window), key, start) == 1 + Tally(calls[..i], key, start, window)
          <==> NothingForgotten(calls[..i], key, start, window))
  {
    CountIsRemembered(calls[..i], calls[i].key, StartOf(calls[i], window), window);
    RememberedIsTally(calls[..i], calls[i].key, StartOf(calls[i], window), window);
  }

  ghost function KeysOf(calls: seq<Call>): set<string> {
    set c | c in calls :: c.key
  }

  lemma {:induction false} StoredKeysWereHit(calls: seq<Call>, window: int)
    requires window > 0
    ensures StoreAfter(calls, window).Keys <= KeysOf(calls)
  {
    if calls != [] {
      StoredKeysWereHit(calls[..|calls| - 1], window);
    }
  }

  // With no more keys than the bound nothing is purged.
  lemma FewKeysForgetByLeaving(calls: seq<Call>, j: nat, key: string, start: int, window: int)
    requires window > 0 && j < |calls| && |KeysOf(calls)| <= MAX_TRACKED_KEYS
    ensures Forgets(calls[..j], calls[j], key, start, window)
       <==> calls[j].key == key && StartOf(calls[j], window) != start
  {
    StoredKeysWereHit(calls[..j], window);
    SubsetSize(StoreAfter(calls[..j], window).Keys + {calls[j].key}, KeysOf(calls));
  }

  // The key is hit in the window at `start` and afterwards in another one.
  ghost predicate Leaves(calls: seq<Call>, key: string, start: int, window: int)
    requires window > 0
  {
    exists h, j :: 0 <= h < j < |calls| && HitsIn(calls[h], key, start, window)
      && calls[j].key == key && StartOf(calls[j], window) != start
  }

  lemma LeavingForgets(calls: seq<Call>, key: string, start: int, window: int)
    requires window > 0 && |KeysOf(calls)| <= MAX_TRACKED_KEYS
    ensures NothingForgotten(calls, key, start, window) <==> !Leaves(calls, key, start, window)
  {
    forall j | 0 <= j < |calls|
      ensures Forgets(calls[..j], calls[j], key, start, window)
         <==> calls[j].key == key && StartOf(calls[j], window) != start
      ensures Tally(calls[..j], key, start, window) > 0
         <==> exists h :: 0 <= h < j && HitsIn(calls[h], key, start, window)
    {
      FewKeysForgetByLeaving(calls, j, key, start, window);
      TallyNeedsHit(calls[..j], key, start, window);
      assert forall h :: 0 <= h < j ==> calls[..j][h] == calls[h];
    }
  }

  // So while the calls so far name no more keys than the bound, call i is counted exactly if and only
  // if its key was not hit in this window and afterwards in another one.
  lemma CountExactlyWhenKeyStays(calls: seq<Call>, i: nat, window: int)
    requires window > 0 && i < |calls| && |KeysOf(calls[..i])| <= 10_000
    ensures var key, start := calls[i].key, StartOf(calls[i], window);
      CountFor(StoreAfter(calls[..i], window), key, start) == 1 + Tally(calls[..i], key, start, window)
      <==> !Leaves(calls[..i], key, start, window)
  {
    CountExactlyWhenRemembered(calls, i, window);
    LeavingForgets(calls[..i], calls[i].key, StartOf(calls[i], window), window);
  }

  // The window never goes back, whatever the clock does inside it.
  ghost predicate WindowsInOrder(calls: seq<Call>, window: int)
    requires window > 0
  {
    forall i, j :: 0 <= i < j < |calls| ==> StartOf(calls[i], window) <= StartOf(calls[j], window)
  }

  // So on a clock that never goes back.
  lemma ClockKeepsWindowsInOrder(calls: seq<Call>, window: int)
    requires window > 0 && forall i, j :: 0 <= i < j < |calls| ==> calls[i].now <= calls[j].now
    ensures WindowsInOrder(calls, window)
  {
    forall i, j | 0 <= i < j < |calls| ensures StartOf(calls[i], window) <= StartOf(calls[j], window) {
      WindowMonotone(calls[i].now, calls[j].now, window);
    }
  }

  lemma WindowMonotone(s: real, t: real, window: int)
    requires window > 0 && s <= t
    ensures WindowStart(s, window) <= WindowStart(t, window)
  {
    var w := window as real;
    QuotTimes(s, w);
    QuotTimes(t, w);
    ScaleOrder(Quot(s, w), Quot(t, w), w);
    ScaleInt(Quot(s, w).Floor, Quot(t, w).Floor, window);
  }

  // The store against the run's history: current-window counts are exact, everything else is stale.
  ghost predicate Tracks(store: Store, calls: seq<Call>, window: int, start: int)
    requires window > 0
  {
    && (forall k :: k in store ==> store[k].start <= start)
    && (forall k :: k in store && store[k].start == start ==> store[k].count == Tally(calls, k, start, window) > 0)
    && (forall k :: Tally(calls, k, start, window) > 0 ==> k in store && store[k].start == start)
  }

  lemma {:induction false} TallyOfFuture(calls: seq<Call>, key: string, start: int, window: int)
    requires window > 0 && forall i :: 0 <= i < |calls| ==> StartOf(calls[i], window) < start
    ensures Tally(calls, key, start, window) == 0
  {
    if calls != [] {
      TallyOfFuture(calls[..|calls| - 1], key, start, window);
    }
  }

  // Before a call in window `start`, the store tracks the run relative to that window.
  lemma {:induction false} StoreTracks(calls: seq<Call>, window: int, start: int)
    requires window > 0 && WindowsInOrder(calls, window)
    requires calls != [] ==> StartOf(calls[|calls| - 1], window) <= start
    ensures Tracks(StoreAfter(calls, window), calls, window, start)
    decreases |calls|
  {
    if calls != [] {
      var front, c := calls[..|calls| - 1], calls[|calls| - 1];
      var current := StartOf(c, window);
      StoreTracks(front, window, current);
      HitTracks(StoreAfter(front, window), front, c, window);
      if current < start {
        forall k ensures Tally(calls, k, start, window) == 0 {
          TallyOfFuture(calls, k, start, window);
        }
      }
    }
  }

  lemma HitTracks(store: Store, calls: seq<Call>, c: Call, window: int)
    requires window > 0 && Tracks(store, calls, window, StartOf(c, window))
    ensures Tracks(AfterHit(store, c.key, StartOf(c, window)), calls + [c], window, StartOf(c, window))
  {
    var start := StartOf(c, window);
    assert (calls + [c])[..|calls|] == calls;
    forall k ensures Tally(calls + [c], k, start, window) ==
                     Tally(calls, k, start, window) + (if k == c.key then 1 else 0) {
    }
  }

  // Then purging changes no answer: call i gets the verdict of a limiter that remembers every call.
  lemma RefinesFullHistory(calls: seq<Call>, i: nat, limit: int, window: int)
    requires window > 0 && WindowsInOrder(calls, window) && i < |calls|
    ensures var start := StartOf(calls[i], window);
      Answer(calls, i, limit, window)
        == VerdictFor(1 + Tally(calls[..i], calls[i].key, start, window), start, limit, window)
  {
    var past, key, start := calls[..i], calls[i].key, StartOf(calls[i], window);
    CountExactlyWhenRemembered(calls, i, window);
    forall j | 0 <= j < i && Tally(past[..j], key, start, window) > 0
      ensures !Forgets(past[..j], past[j], key, start, window)
    {
      TallyNeedsHit(past[..j], key, start, window);
    }
  }

  // A clock that steps back loses the count it returns to: with limit 1 the third call passes
  // although its window already had one.
  lemma ClockStepBackForgets()
    ensures var calls := [Call("k", 0.0), Call("k", 60.0), Call("k", 1.0)];
      Answer(calls, 2, 1, 60).allowed && Tally(calls[..2], "k", 0, 60) == 1
  {
    var calls := [Call("k", 0.0), Call("k", 60.0), Call("k", 1.0)];
    assert WindowStart(0.0, 60) == 0 && WindowStart(60.0, 60) == 60 && WindowStart(1.0, 60) == 0;
    assert calls[..2][..1] == [calls[0]] && calls[..1][..0] == [] && calls[..2] == [calls[0], calls[1]];
    assert StoreAfter([calls[0]], 60) == map["k" := Slot(1, 0)];
    assert StoreAfter(calls[..2], 60)["k"] == Slot(1, 60);
  }

  /******* How much gets through *******/

  // Allowed calls of the run for this key whose time satisfies `when`.
  function Allowed(calls: seq<Call>, n: nat, key: string, limit: int, window: int, when: real -> bool): nat
    requires window > 0 && n <= |calls|
  {
    if n == 0 then 0
    else
      Allowed(calls, n - 1, key, limit, window, when)
      + if calls[n - 1].key == key && when(calls[n - 1].now) && Answer(calls, n - 1, limit, window).allowed
        then 1 else 0
  }

  function InWindow(start: int, window: int): real -> bool
    requires window > 0
  {
    t => WindowStart(t, window) == start
  }

  // The closed interval of one window length from t0.
  function InInterval(t0: real, window: int): real -> bool {
    t => t0 <= t <= t0 + window as real
  }

  // An aligned window lets through exactly the first `limit` of its calls.
  lemma {:induction false} AllowedPerWindow(calls: seq<Call>, n: nat, key: string, limit: int, window: int, start: int)
    requires window > 0 && WindowsInOrder(calls, window) && n <= |calls|
    ensures Allowed(calls, n, key, limit, window, InWindow(start, window))
         == Min(Tally(calls[..n], key, start, window), Max(0, limit))
  {
    if n > 0 {
      AllowedPerWindow(calls, n - 1, key, limit, window, start);
      assert calls[..n][..n - 1] == calls[..n - 1];
      RefinesFullHistory(calls, n - 1, limit, window);
    }
  }

  // The remaining count in an answer is what the limit leaves after the calls let through so far,
  // this one included, in the window.
  lemma RemainingIsUnspent(calls: seq<Call>, i: nat, limit: int, window: int)
    requires window > 0 && WindowsInOrder(calls, window) && i < |calls|
    ensures Answer(calls, i, limit, window).remaining
      + Allowed(calls, i + 1, calls[i].key, limit, window, InWindow(StartOf(calls[i], window), window)) == Max(0, limit)
  {
    RefinesFullHistory(calls, i, limit, window);
    AllowedPerWindow(calls, i + 1, calls[i].key, limit, window, StartOf(calls[i], window));
    assert calls[..i + 1][..i] == calls[..i];
  }

  lemma IntervalMeetsTwoWindows(t0: real, t: real, window: int)
    requires window > 0 && t0 <= t <= t0 + window as real
    ensures WindowStart(t, window) == WindowStart(t0, window)
         || WindowStart(t, window) == WindowStart(t0, window) + window
  {
    WindowHolds(t0, window);
    WindowHolds(t, window);
    NeighbouringMultiples(Quot(t0, window as real).Floor, Quot(t, window as real).Floor, window);
  }

  lemma ScaleInt(a: int, b: int, window: int)
    requires window > 0
    ensures a <= b ==> a * window <= b * window
  {
  }

  lemma WindowHolds(t: real, window: int)
    requires window > 0
    ensures WindowStart(t, window) as real <= t < (WindowStart(t, window) + window) as real
  {
    var w, q := window as real, Quot(t, window as real);
    var f := q.Floor;
    QuotTimes(t, w);
    ScaleOrder(f as real, q, w);
    ScaleOrder((f + 1) as real, q, w);
    RealProduct(f, window);
    RealProduct(f + 1, window);
    assert (f + 1) * window == f * window + window;
  }

  lemma RealProduct(a: int, b: int)
    ensures (a * b) as real == Mul(a as real, b as real)
  {
  }

  lemma NeighbouringMultiples(a: int, b: int, window: int)
    requires -window < b * window - a * window < 2 * window
    ensures b * window == a * window || b * window == a * window + window
  {
    var d := b - a;
    assert d * window == b * window - a * window;
    ScaleInt(d, -1, window);
    ScaleInt(2, d, window);
    assert d == 0 || d == 1;
  }

  lemma {:induction false} IntervalWithinWindows(
    calls: seq<Call>, n: nat, key: string, limit: int, window: int, t0: real)
    requires window > 0 && n <= |calls|
    ensures Allowed(calls, n, key, limit, window, InInterval(t0, window))
         <= Allowed(calls, n, key, limit, window, InWindow(WindowStart(t0, window), window))
          + Allowed(calls, n, key, limit, window, InWindow(WindowStart(t0, window) + window, window))
  {
    if n > 0 {
      IntervalWithinWindows(calls, n - 1, key, limit, window, t0);
      var t := calls[n - 1].now;
      if t0 <= t <= t0 + window as real {
        IntervalMeetsTwoWindows(t0, t, window);
      }
    }
  }

  // However an interval of one window length lies, at most twice the limit gets through in it.
  lemma AllowedPerInterval(calls: seq<Call>, key: string, limit: int, window: int, t0: real)
    requires window > 0 && WindowsInOrder(calls, window)
    ensures Allowed(calls, |calls|, key, limit, window, InInterval(t0, window)) <= 2 * Max(0, limit)
  {
    IntervalWithinWindows(calls, |calls|, key, limit, window, t0);
    AllowedPerWindow(calls, |calls|, key, limit, window, WindowStart(t0, window));
    AllowedPerWindow(calls, |calls|, key, limit, window, WindowStart(t0, window) + window);
  }

  // And twice the limit is reached: with limit 1, calls at seconds 59 and 60 both pass, and so do two
  // calls a whole window length apart.
  lemma TwiceTheLimitIsReached()
    ensures var calls := [Call("k", 59.0), Call("k", 60.0)];
      Allowed(calls, 2, "k", 1, 60, InInterval(59.0, 60)) == Allowed(calls, 2, "k", 1, 60, InInterval(0.0, 60)) == 2
  {
    var calls := [Call("k", 59.0), Call("k", 60.0)];
    assert WindowStart(59.0, 60) == 0 && WindowStart(60.0, 60) == 60;
    assert calls[..0] == [] && calls[..1][..0] == [] && calls[..1] == [calls[0]];
    assert StoreAfter(calls[..1], 60) == map["k" := Slot(1, 0)];
    assert Allowed(calls, 1, "k", 1, 60, InInterval(59.0, 60)) == 1;
    assert Allowed(calls, 1, "k", 1, 60, InInterval(0.0, 60)) == 1;
  }

  /******* The answers in figures *******/

  // Calls of the key at or after `start` and before `end`.
  ghost function HitsBetween(key: string, start: int, end: int): Call -> bool {
    (c: Call) => c.key == key && start as real <= c.now < end as real
  }

  lemma {:induction false} CountsTally(calls: seq<Call>, key: string, start: int, window: int)
    requires window > 0 && exists f: int :: start == f * window
    ensures Tally(calls, key, start, window) == HowMany(calls, HitsBetween(key, start, start + window))
  {
    if calls != [] {
      var c := calls[|calls| - 1];
      CountsTally(calls[..|calls| - 1], key, start, window);
      HowManyLast(calls, HitsBetween(key, start, start + window));
      StartHolds(c.now, start, window);
    }
  }

  // A time belongs to the window that starts at a multiple of the window length exactly when it lies in it.
  lemma StartHolds(t: real, start: int, window: int)
    requires window > 0 && exists f: int :: start == f * window
    ensures WindowStart(t, window) == start <==> start as real <= t < (start + window) as real
  {
    WindowHolds(t, window);
    var f: int :| start == f * window;
    if start as real <= t < (start + window) as real {
      SameMultiple(f, Quot(t, window as real).Floor, window);
    }
  }

  lemma SameMultiple(a: int, b: int, window: int)
    requires -window < b * window - a * window < window
    ensures b * window == a * window
  {
    var d := b - a;
    assert d * window == b * window - a * window;
    ScaleInt(d, -1, window);
    ScaleInt(1, d, window);
  }

  // What call i is told while the window never goes back, with the window given by the reset time:
  // it is the one that holds the call, and a call passes while fewer than `limit` of its key came before
  // it in that window.
  lemma AnswerInFigures(calls: seq<Call>, i: nat, limit: int, window: int)
    requires window > 0 && WindowsInOrder(calls, window) && i < |calls|
    ensures var a, c := Answer(calls, i, limit, window), calls[i];
      var before := HowMany(calls[..i], HitsBetween(c.key, a.reset - window, a.reset));
      && a.limit == limit && (exists f: int :: a.reset == f * window)
      && (a.reset - window) as real <= c.now < a.reset as real
      && (a.allowed <==> before < limit) && a.remaining == Max(0, limit - before - 1)
  {
    var f := Quot(calls[i].now, window as real).Floor;
    RefinesFullHistory(calls, i, limit, window);
    WindowHolds(calls[i].now, window);
    CountsTally(calls[..i], calls[i].key, f * window, window);
    assert (f + 1) * window == f * window + window;
  }

  /******* How much is stored *******/

  // The distinct keys hit in the window of the run's last call.
  ghost function CurrentKeys(calls: seq<Call>, window: int): set<string>
    requires window > 0 && calls != []
  {
    set c | c in calls && StartOf(c, window) == StartOf(calls[|calls| - 1], window) :: c.key
  }

  lemma SubsetSize(a: set<string>, b: set<string>)
    requires a <= b
    ensures |a| <= |b|
  {
    assert b == a + (b - a);
  }

  // The store stays within the tracked-key bound or the distinct keys of the current window.
  lemma StoreBounded(calls: seq<Call>, window: int)
    requires window > 0 && WindowsInOrder(calls, window) && calls != []
    ensures |StoreAfter(calls, window)| <= Max(10_000, |CurrentKeys(calls, window)|)
  {
    var c := calls[|calls| - 1];
    var start := StartOf(c, window);
    var store := StoreAfter(calls, window);
    StoreTracks(calls, window, start);
    if |store| > MAX_TRACKED_KEYS {
      forall k | k in store ensures k in CurrentKeys(calls, window) {
        assert store[k].start == start;
        TallyNeedsHit(calls, k, start, window);
      }
      SubsetSize(store.Keys, CurrentKeys(calls, window));
      assert |store| == |store.Keys|;
    }
  }
}
