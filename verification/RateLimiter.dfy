/** The Redis rate limiter: INCR and EXPIRE in one transaction on every call. */
module RateLimiter {
  import opened Numbers

  /** A stored counter and the millisecond at which it expires. */
  datatype Counter = Counter(value: nat, expiresAt: int)

  /** One call at server time `now`, in milliseconds. `edge` is whether Redis already treats a
      key as gone in the very millisecond of its expiry. */
  datatype Call = Call(key: string, now: int, edge: bool)

  predicate Expired(c: Counter, now: int, edge: bool)
  {
    now > c.expiresAt || (now == c.expiresAt && edge)
  }

  /** What INCR answers. */
  function Incremented(store: map<string, Counter>, call: Call): nat
  {
    if call.key in store && !Expired(store[call.key], call.now, call.edge)
    then store[call.key].value + 1
    else 1
  }

  /** The store after INCR and EXPIRE; a timeout that is not positive deletes the key. */
  function Touched(store: map<string, Counter>, call: Call, windowSeconds: int): map<string, Counter>
  {
    if windowSeconds <= 0 then store - {call.key}
    else store[call.key := Counter(Incremented(store, call), call.now + 1000 * windowSeconds)]
  }

  class RedisManager {
    var store: map<string, Counter>

    constructor ()
      ensures store == map[]
    {
      store := map[];
    }

    /** INCR. A new counter gets its real expiry from the EXPIRE of the same transaction. */
    method Incr(call: Call) returns (value: nat)
      modifies this
      ensures value == Incremented(old(store), call)
      ensures call.key in store && store[call.key].value == value
      ensures store - {call.key} == old(store) - {call.key}
    {
      if call.key in store && !Expired(store[call.key], call.now, call.edge) {
        value := store[call.key].value + 1;
        store := store[call.key := Counter(value, store[call.key].expiresAt)];
      } else {
        value := 1;
        store := store[call.key := Counter(value, call.now)];
      }
    }

    /** EXPIRE on an existing key. */
    method Expire(call: Call, windowSeconds: int)
      requires call.key in store
      modifies this
      ensures store == if windowSeconds <= 0 then old(store) - {call.key}
                       else var counter := Counter(old(store)[call.key].value, call.now + 1000 * windowSeconds);
                            old(store)[call.key := counter]
    {
      if windowSeconds <= 0 {
        store := store - {call.key};
      } else {
        store := store[call.key := Counter(store[call.key].value, call.now + 1000 * windowSeconds)];
      }
    }

    method CheckRateLimit(call: Call, maxRequests: int, windowSeconds: int) returns (allowed: bool, remaining: int)
      modifies this
      ensures store == Touched(old(store), call, windowSeconds)
      ensures allowed <==> Incremented(old(store), call) <= maxRequests
      ensures remaining == Max(0, maxRequests - Incremented(old(store), call))
    {
      ghost var before := store;
      var current := Incr(call);
      assert forall k :: k != call.key ==> (k in store <==> k in store - {call.key});
      assert forall k :: k != call.key ==> (k in before <==> k in before - {call.key});
      assert forall k :: k in before - {call.key} ==>
        before[k] == (before - {call.key})[k] == (store - {call.key})[k] == store[k];
      Expire(call, windowSeconds);
      remaining := Max(0, maxRequests - current);
      allowed := current <= maxRequests;
    }
  }

  // ----- one key: streaks of calls

  predicate Monotone(h: seq<Call>)
  {
    forall i, j :: 0 <= i < j < |h| ==> h[i].now <= h[j].now
  }

  /** Call `i` finds no counter: it is the first, or the window had run out since the last call. */
  predicate Resets(h: seq<Call>, i: nat, window: int)
    requires i < |h|
  {
    i == 0 || window <= 0 ||
    h[i].now - h[i - 1].now > 1000 * window ||
    (h[i].now - h[i - 1].now == 1000 * window && h[i].edge)
  }

  /** The number of calls, up to and including call `i`, since the last reset. */
  function Streak(h: seq<Call>, i: nat, window: int): nat
    requires i < |h|
  {
    if Resets(h, i, window) then 1 else Streak(h, i - 1, window) + 1
  }

  predicate Allowed(h: seq<Call>, i: nat, window: int, max: int)
    requires i < |h|
  {
    Streak(h, i, window) <= max
  }

  lemma {:induction false} StreakPrefix(h: seq<Call>, g: seq<Call>, i: nat, window: int)
    requires i < |g| && g <= h
    ensures Streak(h, i, window) == Streak(g, i, window)
  {
    if i > 0 {
      StreakPrefix(h, g, i - 1, window);
    }
  }

  /** The call at distance `i - j` from the last reset `j` is allowed exactly when fewer than
      `max` calls, allowed or not, precede it since that reset. */
  lemma {:induction false} AllowedExactly(h: seq<Call>, i: nat, window: int, max: int) returns (j: nat)
    requires i < |h|
    ensures j <= i && Resets(h, j, window)
    ensures forall k :: j < k <= i ==> !Resets(h, k, window)
    ensures Streak(h, i, window) == i - j + 1
    ensures Allowed(h, i, window, max) <==> i - j < max
  {
    if Resets(h, i, window) {
      j := i;
    } else {
      j := AllowedExactly(h, i - 1, window, max);
    }
  }

  // ----- the sliding-window bound

  predicate Within(t: int, start: int, window: int)
  {
    start <= t < start + 1000 * window
  }

  /** Allowed calls among the first `n` that fall into the window beginning at `start`. */
  function AllowedWithin(h: seq<Call>, n: nat, start: int, window: int, max: int): nat
    requires n <= |h|
  {
    if n == 0 then 0
    else
      AllowedWithin(h, n - 1, start, window, max) +
      if Within(h[n - 1].now, start, window) && Allowed(h, n - 1, window, max) then 1 else 0
  }

  lemma {:induction false} NoneBefore(h: seq<Call>, n: nat, start: int, window: int, max: int)
    requires n <= |h| && forall i :: 0 <= i < n ==> !Within(h[i].now, start, window)
    ensures AllowedWithin(h, n, start, window, max) == 0
  {
    if n > 0 {
      NoneBefore(h, n - 1, start, window, max);
    }
  }

  lemma {:induction false} WindowCount(h: seq<Call>, n: nat, start: int, window: int, max: int)
    requires n <= |h| && Monotone(h)
    ensures AllowedWithin(h, n, start, window, max) <= Max(0, max)
    ensures n > 0 && Within(h[n - 1].now, start, window) ==>
              AllowedWithin(h, n, start, window, max) <= Streak(h, n - 1, window)
  {
    if n > 0 {
      WindowCount(h, n - 1, start, window, max);
      if n > 1 && Within(h[n - 1].now, start, window) && !Within(h[n - 2].now, start, window) {
        assert h[n - 2].now <= h[n - 1].now;
        forall i | 0 <= i < n - 1
          ensures !Within(h[i].now, start, window)
        {
          assert i < n - 2 ==> h[i].now <= h[n - 2].now;
        }
        NoneBefore(h, n - 1, start, window, max);
      }
    }
  }

  /** In every window of the configured length, wherever it begins, at most `max` calls are
      allowed. */
  lemma SlidingWindowBound(h: seq<Call>, start: int, window: int, max: int)
    requires Monotone(h)
    ensures AllowedWithin(h, |h|, start, window, max) <= Max(0, max)
  {
    WindowCount(h, |h|, start, window, max);
  }

  /** Without a reset in between, the next `m` calls are allowed exactly as far as `remaining`
      promised. */
  lemma {:induction false} RemainingIsExact(h: seq<Call>, i: nat, m: nat, window: int, max: int)
    requires m >= 1 && i + m < |h|
    requires forall k :: i < k <= i + m ==> !Resets(h, k, window)
    ensures Streak(h, i + m, window) == Streak(h, i, window) + m
    ensures Allowed(h, i + m, window, max) <==> m <= Max(0, max - Streak(h, i, window))
  {
    if m > 1 {
      RemainingIsExact(h, i, m - 1, window, max);
    }
  }

  /** Denied calls extend the wait: a client that keeps calling within the window is served
      `max` times and then never again, however long it goes on. */
  lemma {:induction false} SteadyClientStarves(h: seq<Call>, i: nat, window: int, max: int)
    requires i < |h|
    requires forall k :: 0 < k < |h| ==> 0 <= h[k].now - h[k - 1].now < 1000 * window
    ensures Streak(h, i, window) == i + 1
    ensures Allowed(h, i, window, max) <==> i < max
  {
    if i > 0 {
      SteadyClientStarves(h, i - 1, window, max);
      assert 0 <= h[i].now - h[i - 1].now < 1000 * window;
    }
  }

  /** The calls that the limiter itself allowed in the window that ends with call `i`. */
  function AllowedBefore(h: seq<Call>, i: nat, window: int, max: int): nat
    requires i < |h|
  {
    AllowedWithin(h, i, h[i].now - 1000 * window + 1, window, max)
  }

  /** The limiter never allows a call when it has allowed `max` in the window already. */
  lemma AllowedHasRoom(h: seq<Call>, i: nat, window: int, max: int)
    requires i < |h| && Monotone(h) && window > 0
    ensures Allowed(h, i, window, max) ==> AllowedBefore(h, i, window, max) < max
  {
    WindowCount(h, i + 1, h[i].now - 1000 * window + 1, window, max);
  }

  /** Call `j` resets and no call after it, up to `i`, does. */
  predicate LastReset(h: seq<Call>, j: nat, i: nat, window: int)
    requires i < |h|
  {
    j <= i && Resets(h, j, window) && forall k :: j < k <= i ==> !Resets(h, k, window)
  }

  lemma {:induction false} StreakFrom(h: seq<Call>, j: nat, i: nat, window: int)
    requires i < |h| && LastReset(h, j, i, window)
    ensures Streak(h, i, window) == i - j + 1
  {
    if j < i {
      StreakFrom(h, j, i - 1, window);
    }
  }

  /** The first `max` calls of a streak are all counted, if the window reaches back to its reset. */
  lemma {:induction false} CountAtLeast(h: seq<Call>, j: nat, n: nat, start: int, window: int, max: int)
    requires Monotone(h) && j < n <= |h| && LastReset(h, j, n - 1, window)
    requires start <= h[j].now && h[n - 1].now < start + 1000 * window
    ensures AllowedWithin(h, n, start, window, max) >= if n - j < max then n - j else max
  {
    if j < n - 1 {
      assert h[n - 2].now <= h[n - 1].now && h[j].now <= h[n - 1].now;
      CountAtLeast(h, j, n - 1, start, window, max);
    }
    StreakFrom(h, j, n - 1, window);
  }

  /** Of a streak whose first `m + 1` calls lie before the window, at most the other calls among
      the first `max` are counted. */
  lemma {:induction false} CountAtMost(h: seq<Call>, j: nat, m: nat, n: nat, start: int, window: int, max: int)
    requires Monotone(h) && 0 < n <= |h| && j + m < |h| && m < max
    requires j < n ==> LastReset(h, j, n - 1, window)
    requires h[j + m].now < start
    ensures AllowedWithin(h, n, start, window, max) <=
            Max(0, (if n < j + max then n else j + max) - (j + m + 1))
  {
    if n <= j + m + 1 {
      forall k | 0 <= k < n
        ensures !Within(h[k].now, start, window)
      {
        assert k < j + m ==> h[k].now <= h[j + m].now;
      }
      NoneBefore(h, n, start, window, max);
    } else {
      CountAtMost(h, j, m, n - 1, start, window, max);
      StreakFrom(h, j, n - 1, window);
    }
  }

  /** The limiter denies a call although it has allowed fewer than `max` in the window if and only
      if at least `max` calls precede it in its streak and the streak has outlasted the window. */
  lemma DecidedByOwnCountExactly(h: seq<Call>, i: nat, window: int, max: int) returns (j: nat)
    requires i < |h| && Monotone(h)
    ensures j <= i && LastReset(h, j, i, window)
    ensures (Allowed(h, i, window, max) <==> AllowedBefore(h, i, window, max) < max) <==>
            (max <= 0 || i - j < max || h[i].now - h[j].now < 1000 * window)
  {
    var start := h[i].now - 1000 * window + 1;
    j := AllowedExactly(h, i, window, max);
    if max <= 0 {
    } else if window <= 0 {
      NoneBefore(h, i, start, window, max);
    } else if i - j < max {
      AllowedHasRoom(h, i, window, max);
    } else if h[i].now - h[j].now < 1000 * window {
      assert h[i - 1].now <= h[i].now;
      CountAtLeast(h, j, i, start, window, max);
    } else {
      CountAtMost(h, j, 0, i, start, window, max);
    }
  }

  /** Once the calls that the limiter allowed in a streak are older than the window, it stays shut
      although none of its own allowed calls lies in the window. */
  lemma NoneAllowedStillDenies(h: seq<Call>, j: nat, i: nat, window: int, max: nat)
    requires i < |h| && Monotone(h) && window > 0 && 1 <= max <= i - j && LastReset(h, j, i, window)
    requires h[i].now - h[j + max - 1].now >= 1000 * window
    ensures AllowedBefore(h, i, window, max) == 0 && !Allowed(h, i, window, max)
  {
    StreakFrom(h, j, i, window);
    CountAtMost(h, j, max - 1, i, h[i].now - 1000 * window + 1, window, max);
  }

  // ----- an exact sliding-window log

  /** The log admits call `i` when it has admitted fewer than `max` calls in the window that ends
      with it. */
  predicate LogAllowed(h: seq<Call>, i: nat, window: int, max: int)
    requires i < |h|
    decreases i, 1
  {
    LogCount(h, i, h[i].now - 1000 * window + 1, window, max) < max
  }

  /** The calls among the first `n` that the log admitted in the window beginning at `start`. */
  function LogCount(h: seq<Call>, n: nat, start: int, window: int, max: int): nat
    requires n <= |h|
    decreases n, 0
  {
    if n == 0 then 0
    else
      LogCount(h, n - 1, start, window, max) +
      if Within(h[n - 1].now, start, window) && LogAllowed(h, n - 1, window, max) then 1 else 0
  }

  /** Of calls that all come before the end of the earlier window, the later one holds no more. */
  lemma {:induction false} LogCountLater(h: seq<Call>, n: nat, early: int, late: int, window: int, max: int)
    requires n <= |h| && early <= late
    requires forall k :: 0 <= k < n ==> h[k].now < early + 1000 * window
    ensures LogCount(h, n, late, window, max) <= LogCount(h, n, early, window, max)
  {
    if n > 0 {
      LogCountLater(h, n - 1, early, late, window, max);
    }
  }

  /** The log is a sliding-window limiter: no window holds more than `max` of its calls. */
  lemma {:induction false} LogWindowBound(h: seq<Call>, n: nat, start: int, window: int, max: int)
    requires n <= |h| && Monotone(h)
    ensures LogCount(h, n, start, window, max) <= Max(0, max)
  {
    if n > 0 {
      LogWindowBound(h, n - 1, start, window, max);
      var now := h[n - 1].now;
      if Within(now, start, window) && LogAllowed(h, n - 1, window, max) {
        LogCountLater(h, n - 1, now - 1000 * window + 1, start, window, max);
      }
    }
  }

  /** When the first `j` calls lie outside the window, the log counts only those after them. */
  lemma {:induction false} LogCountAfter(h: seq<Call>, j: nat, n: nat, start: int, window: int, max: int)
    requires j <= n <= |h| && forall k :: 0 <= k < j ==> !Within(h[k].now, start, window)
    ensures LogCount(h, n, start, window, max) <= n - j
  {
    if j < n {
      LogCountAfter(h, j, n - 1, start, window, max);
    } else if n > 0 {
      LogCountAfter(h, n - 1, n - 1, start, window, max);
    }
  }

  /** The limiter never allows a call that the log would refuse. */
  lemma NeverLooserThanLog(h: seq<Call>, i: nat, window: int, max: int)
    requires i < |h| && Monotone(h)
    ensures Allowed(h, i, window, max) ==> LogAllowed(h, i, window, max)
  {
    var start := h[i].now - 1000 * window + 1;
    var j := AllowedExactly(h, i, window, max);
    forall k | 0 <= k < j
      ensures !Within(h[k].now, start, window)
    {
      assert k < j - 1 ==> h[k].now <= h[j - 1].now;
      assert j < i ==> h[j].now <= h[i].now;
    }
    LogCountAfter(h, j, i, start, window, max);
  }

  /** Call `i` has few calls before it in its streak, or the streak began within the window, or
      nothing is ever allowed. */
  predicate Timely(h: seq<Call>, i: nat, window: int, max: int)
    requires i < |h|
  {
    StreakBound(h, i, window);
    var j := i + 1 - Streak(h, i, window);
    max <= 0 || i - j < max || h[i].now - h[j].now < 1000 * window
  }

  lemma {:induction false} StreakBound(h: seq<Call>, i: nat, window: int)
    requires i < |h|
    ensures 1 <= Streak(h, i, window) <= i + 1
  {
    if !Resets(h, i, window) {
      StreakBound(h, i - 1, window);
    }
  }

  ghost predicate AgreeBelow(h: seq<Call>, n: nat, window: int, max: int)
    requires n <= |h|
  {
    forall i :: 0 <= i < n ==> (Allowed(h, i, window, max) <==> LogAllowed(h, i, window, max))
  }

  lemma {:induction false} SameCounts(h: seq<Call>, n: nat, start: int, window: int, max: int)
    requires n <= |h| && AgreeBelow(h, n, window, max)
    ensures LogCount(h, n, start, window, max) == AllowedWithin(h, n, start, window, max)
  {
    if n > 0 {
      SameCounts(h, n - 1, start, window, max);
    }
  }

  /** After agreeing on every earlier call, limiter and log agree on a timely call only. */
  lemma NextAgrees(h: seq<Call>, i: nat, window: int, max: int)
    requires i < |h| && Monotone(h) && AgreeBelow(h, i, window, max)
    ensures (Allowed(h, i, window, max) <==> LogAllowed(h, i, window, max)) <==> Timely(h, i, window, max)
  {
    var j := DecidedByOwnCountExactly(h, i, window, max);
    StreakFrom(h, j, i, window);
    SameCounts(h, i, h[i].now - 1000 * window + 1, window, max);
  }

  /** The limiter decides the first `n` calls as the log does if and only if all of them are
      timely; so the two part at the first call that has at least `max` calls before it in a
      streak that has outlasted the window. */
  lemma {:induction false} AgreesWithLogExactly(h: seq<Call>, n: nat, window: int, max: int)
    requires n <= |h| && Monotone(h)
    ensures AgreeBelow(h, n, window, max) <==> forall i :: 0 <= i < n ==> Timely(h, i, window, max)
  {
    if n > 0 {
      AgreesWithLogExactly(h, n - 1, window, max);
      if AgreeBelow(h, n - 1, window, max) {
        NextAgrees(h, n - 1, window, max);
      }
    }
  }

  /** When a window has passed since call `k`, the log has admitted a call after it. */
  lemma LogServesEveryWindow(h: seq<Call>, k: nat, i: nat, window: int, max: int) returns (m: nat)
    requires k < i < |h| && Monotone(h) && max >= 1
    requires h[i].now - h[k].now >= 1000 * window
    ensures k < m <= i && LogAllowed(h, m, window, max)
  {
    if m' :| k < m' < i && LogAllowed(h, m', window, max) {
      m := m';
    } else {
      m := i;
      NoneAdmitted(h, k, i, h[i].now - 1000 * window + 1, window, max);
    }
  }

  lemma {:induction false} NoneAdmitted(h: seq<Call>, k: nat, n: nat, start: int, window: int, max: int)
    requires n <= |h| && k < |h| && Monotone(h) && h[k].now < start
    requires forall m :: k < m < n ==> !LogAllowed(h, m, window, max)
    ensures LogCount(h, n, start, window, max) == 0
  {
    if n > 0 {
      NoneAdmitted(h, k, n - 1, start, window, max);
      assert n - 1 < k ==> h[n - 1].now <= h[k].now;
    }
  }

  /** A client that keeps calling within the window is refused from its `max`-th repetition on,
      while the log admits one of its calls in every window. */
  lemma StricterThanLog(h: seq<Call>, k: nat, i: nat, window: int, max: nat) returns (m: nat)
    requires 1 <= max <= k + 1 <= i < |h|
    requires forall l :: 0 < l < |h| ==> 0 <= h[l].now - h[l - 1].now < 1000 * window
    requires h[i].now - h[k].now >= 1000 * window
    ensures k < m <= i && LogAllowed(h, m, window, max)
    ensures forall l :: k < l < |h| ==> !Allowed(h, l, window, max)
    ensures AllowedBefore(h, i, window, max) == 0
  {
    forall a, b | 0 <= a < b < |h|
      ensures h[a].now <= h[b].now
    {
      Ordered(h, a, b, window);
    }
    forall l | 0 < l < |h|
      ensures !Resets(h, l, window)
    {
      assert 0 <= h[l].now - h[l - 1].now < 1000 * window;
    }
    m := LogServesEveryWindow(h, k, i, window, max);
    forall l | k < l < |h|
      ensures !Allowed(h, l, window, max)
    {
      SteadyClientStarves(h, l, window, max);
    }
    assert max - 1 < k ==> h[max - 1].now <= h[k].now;
    NoneAllowedStillDenies(h, 0, i, window, max);
  }

  lemma {:induction false} Ordered(h: seq<Call>, i: nat, j: nat, window: int)
    requires i <= j < |h|
    requires forall k :: 0 < k < |h| ==> 0 <= h[k].now - h[k - 1].now < 1000 * window
    ensures h[i].now <= h[j].now
  {
    if i < j {
      Ordered(h, i, j - 1, window);
      assert 0 <= h[j].now - h[j - 1].now;
    }
  }

  // ----- many keys in one store

  function Run(calls: seq<Call>, window: string -> int): map<string, Counter>
    decreases |calls|
  {
    if calls == [] then map[]
    else
      var last := calls[|calls| - 1];
      Touched(Run(calls[..|calls| - 1], window), last, window(last.key))
  }

  /** The calls on one key. */
  function OnKey(calls: seq<Call>, key: string): seq<Call>
    decreases |calls|
  {
    if calls == [] then []
    else
      var front := OnKey(calls[..|calls| - 1], key);
      if calls[|calls| - 1].key == key then front + [calls[|calls| - 1]] else front
  }

  /** After the calls `h` on `key`, the store holds their streak and the time it expires. */
  ghost predicate Holds(store: map<string, Counter>, h: seq<Call>, key: string, window: int)
  {
    if h == [] || window <= 0 then key !in store
    else
      key in store &&
      store[key] == Counter(Streak(h, |h| - 1, window), h[|h| - 1].now + 1000 * window)
  }

  lemma TouchedHolds(store: map<string, Counter>, h: seq<Call>, next: Call, window: int)
    requires Holds(store, h, next.key, window)
    ensures Incremented(store, next) == Streak(h + [next], |h|, window)
    ensures Holds(Touched(store, next, window), h + [next], next.key, window)
  {
    if h != [] {
      StreakPrefix(h + [next], h, |h| - 1, window);
    }
  }

  /** What the store holds for a key is determined by that key's calls alone. */
  lemma {:induction false} RunHolds(calls: seq<Call>, window: string -> int, key: string)
    ensures Holds(Run(calls, window), OnKey(calls, key), key, window(key))
    decreases |calls|
  {
    if calls != [] {
      var front, last := calls[..|calls| - 1], calls[|calls| - 1];
      RunHolds(front, window, key);
      if last.key == key {
        TouchedHolds(Run(front, window), OnKey(front, key), last, window(key));
      }
    }
  }

  /** However calls on different keys interleave, each is decided by the streak of its own key. */
  lemma DecisionPerKey(calls: seq<Call>, window: string -> int, next: Call, max: int)
    ensures var h := OnKey(calls, next.key) + [next];
            OnKey(calls + [next], next.key) == h &&
            (Incremented(Run(calls, window), next) <= max <==> Allowed(h, |h| - 1, window(next.key), max))
  {
    RunHolds(calls, window, next.key);
    TouchedHolds(Run(calls, window), OnKey(calls, next.key), next, window(next.key));
    assert (calls + [next])[..|calls|] == calls;
  }

  /** After a silence on its key of more than the window, or on a key never used, a call starts
      again at one. */
  lemma SilenceReopens(calls: seq<Call>, window: string -> int, next: Call)
    requires var h := OnKey(calls, next.key);
             h != [] ==> next.now - h[|h| - 1].now > 1000 * window(next.key)
    ensures Incremented(Run(calls, window), next) == 1
  {
    var h := OnKey(calls, next.key) + [next];
    RunHolds(calls, window, next.key);
    TouchedHolds(Run(calls, window), OnKey(calls, next.key), next, window(next.key));
    assert Resets(h, |h| - 1, window(next.key));
  }

  /** Within the window of the last call on its key, a call adds one to that key's streak. */
  lemma NoSilenceContinues(calls: seq<Call>, window: string -> int, next: Call)
    requires var h := OnKey(calls, next.key);
             h != [] && next.now - h[|h| - 1].now < 1000 * window(next.key) && window(next.key) > 0
    ensures Incremented(Run(calls, window), next) ==
            Streak(OnKey(calls, next.key), |OnKey(calls, next.key)| - 1, window(next.key)) + 1
  {
    RunHolds(calls, window, next.key);
  }
}
