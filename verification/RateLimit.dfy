// internal/api/middleware/rate_limit.go: checkRateLimit for one key.
// The documentation calls this a sliding window; what the code keeps is a counter that starts with
// the first hit and is dropped when its TTL runs out.

module RateLimit {
  import opened Options
  import opened Numbers

  /** In the unit of Redis expiry times. */
  type Time = int

  // ----- INCR and EXPIRE as one step: the counter refines the history of hits -----

  /** When the counting window of the last hit began. */
  function WindowStart(hits: seq<Time>, window: Time): Time
    requires hits != []
    decreases hits
  {
    var last := |hits| - 1;
    if last == 0 || hits[last] >= WindowStart(hits[..last], window) + window then hits[last]
    else WindowStart(hits[..last], window)
  }

  /** Hits since that moment, the last one included. */
  function Count(hits: seq<Time>, window: Time): (n: nat)
    requires hits != []
    ensures 1 <= n <= |hits|
    decreases hits
  {
    var last := |hits| - 1;
    if last == 0 || hits[last] >= WindowStart(hits[..last], window) + window then 1
    else Count(hits[..last], window) + 1
  }

  ghost predicate Sorted(hits: seq<Time>) {
    forall i, j :: 0 <= i < j < |hits| ==> hits[i] <= hits[j]
  }

  lemma OneMoreHit(hits: seq<Time>, now: Time, window: Time)
    requires hits != [] && Sorted(hits) && hits[|hits| - 1] <= now
    ensures Sorted(hits + [now])
    ensures var renewed := now >= WindowStart(hits, window) + window;
            && WindowStart(hits + [now], window) == (if renewed then now else WindowStart(hits, window))
            && Count(hits + [now], window) == if renewed then 1 else Count(hits, window) + 1
  {
  }

  datatype Counter = Counter(value: nat, deadline: Time)

  class Limiter {
    const max: int
    const window: Time
    var counter: Option<Counter>
    ghost var hits: seq<Time>

    ghost predicate Valid()
      reads this
    {
      && Sorted(hits)
      && (hits == [] ==> counter == None)
      && (hits != [] ==> counter == Some(Counter(Count(hits, window), WindowStart(hits, window) + window)))
    }

    constructor (max: int, window: Time)
      ensures Valid() && hits == [] && this.max == max && this.window == window
    {
      this.max, this.window := max, window;
      counter, hits := None, [];
    }

    method Check(now: Time) returns (remaining: int, allowed: bool)
      requires Valid()
      requires hits != [] ==> hits[|hits| - 1] <= now
      modifies this
      ensures Valid() && hits == old(hits) + [now]
      ensures allowed <==> Count(hits, window) <= max
      ensures remaining == Max(0, max - Count(hits, window))
    {
      if hits != [] { OneMoreHit(hits, now, window); }
      hits := hits + [now];

      // INCR: a key whose TTL has run out counts from zero again.
      var live := counter.Some? && now < counter.value.deadline;
      var count := if live then counter.value.value + 1 else 1;
      if count == 1 {
        counter := Some(Counter(1, now + window)); // EXPIRE
      } else {
        counter := Some(counter.value.(value := count));
      }

      remaining := max - count;
      if remaining < 0 {
        remaining := 0;
      }
      allowed := count <= max;
    }
  }

  /** Where the counting window of the last hit lies in the history. */
  lemma {:induction false} WindowShape(hits: seq<Time>, window: Time)
    requires hits != [] && Sorted(hits) && window > 0
    ensures var n, last := Count(hits, window), |hits| - 1;
            && WindowStart(hits, window) == hits[|hits| - n]
            && hits[last] < WindowStart(hits, window) + window
    decreases hits
  {
    var last := |hits| - 1;
    var before := hits[..last];
    if last > 0 {
      WindowShape(before, window);
      if hits[last] < WindowStart(before, window) + window {
        assert Count(hits, window) == Count(before, window) + 1;
      }
    }
  }

  /** Hit i falls in the half-open window that ends with the last hit. */
  predicate InWindow(hits: seq<Time>, window: Time, i: int)
    requires 0 <= i < |hits|
  {
    hits[|hits| - 1] - window < hits[i] <= hits[|hits| - 1]
  }

  /** A hit is refused only if at least `max` earlier hits fall in the half-open window that ends with it. */
  lemma RefusalMeansAFullWindow(hits: seq<Time>, window: Time, max: int)
    requires hits != [] && Sorted(hits) && window > 0
    requires Count(hits, window) > max
    ensures max < |hits|
    ensures forall i :: 0 <= i && |hits| - 1 - max <= i < |hits| - 1 ==> InWindow(hits, window, i)
  {
    WindowShape(hits, window);
    forall i | 0 <= i && |hits| - 1 - max <= i < |hits| - 1 ensures InWindow(hits, window, i) {
      var first := |hits| - Count(hits, window);
      assert first <= i;
      assert hits[first] <= hits[i] by { if first < i { assert Sorted(hits); } }
    }
  }

  // ----- INCR and EXPIRE as separate steps of any number of requests -----

  /** What one INCR returned, and when it ran. The request is allowed iff count <= max. */
  datatype Hit = Hit(at: Time, count: nat)

  datatype Key = Absent | Present(value: nat, deadline: Option<Time>)

  /** `expiring` are the requests that were told 1 and still have to send EXPIRE. */
  datatype State = State(now: Time, key: Key, expiring: set<nat>, hits: seq<Hit>)

  const INITIAL := State(0, Absent, {}, [])

  datatype Label =
    | Tick(at: Time)
    | Incr(p: nat)
    | Expire(p: nat)
    /** EXPIRE fails; its error is ignored. */
    | Lose(p: nat)
    /** Redis drops the key, at its deadline or later. */
    | Vanish

  predicate Enabled(s: State, l: Label) {
    match l
    case Tick(at) => s.now <= at
    case Incr(p) => p !in s.expiring
    case Expire(p) => p in s.expiring
    case Lose(p) => p in s.expiring
    case Vanish => s.key.Present? && s.key.deadline.Some? && s.key.deadline.value <= s.now
  }

  function After(window: Time, s: State, l: Label): State
    requires Enabled(s, l)
  {
    match l
    case Tick(at) => s.(now := at)
    case Incr(p) =>
      var count := if s.key.Absent? then 1 else s.key.value + 1;
      State(s.now,
            if s.key.Absent? then Present(1, None) else s.key.(value := count),
            if count == 1 then s.expiring + {p} else s.expiring,
            s.hits + [Hit(s.now, count)])
    case Expire(p) =>
      // EXPIRE on a missing key does nothing.
      s.(key := if s.key.Present? then s.key.(deadline := Some(s.now + window)) else Absent,
         expiring := s.expiring - {p})
    case Lose(p) => s.(expiring := s.expiring - {p})
    case Vanish => s.(key := Absent)
  }

  function Exec(window: Time, schedule: seq<Label>): Option<State>
    decreases schedule
  {
    if schedule == [] then Some(INITIAL)
    else
      var last := |schedule| - 1;
      var before := Exec(window, schedule[..last]);
      if before.Some? && Enabled(before.value, schedule[last])
        then Some(After(window, before.value, schedule[last])) else None
  }

  /** When the key that answered hit i was created. */
  function LifeStart(hits: seq<Hit>, i: int): Time
    requires 0 <= i < |hits| && 1 <= hits[i].count <= i + 1
  {
    hits[i + 1 - hits[i].count].at
  }

  /** Hit i continues the lifetime of the key, or starts one at least `window` after the previous lifetime began. */
  ghost predicate Spaced(hits: seq<Hit>, window: Time, i: int)
    requires 0 <= i < |hits|
  {
    && 1 <= hits[i].count <= i + 1
    && (i > 0 ==>
          && hits[i - 1].at <= hits[i].at
          && 1 <= hits[i - 1].count <= i
          && (|| hits[i].count == hits[i - 1].count + 1
              || (hits[i].count == 1 && LifeStart(hits, i - 1) + window <= hits[i].at)))
  }

  ghost predicate AllSpaced(hits: seq<Hit>, window: Time) {
    forall i :: 0 <= i < |hits| ==> Spaced(hits, window, i)
  }

  ghost function LastStart(s: State, window: Time): Time
    requires AllSpaced(s.hits, window) && s.hits != []
  {
    assert Spaced(s.hits, window, |s.hits| - 1);
    LifeStart(s.hits, |s.hits| - 1)
  }

  ghost predicate Inv(window: Time, s: State) {
    && AllSpaced(s.hits, window)
    && (s.hits != [] ==> s.hits[|s.hits| - 1].at <= s.now && LastStart(s, window) <= s.now)
    && (s.key.Absent? ==> s.expiring == {} && (s.hits != [] ==> LastStart(s, window) + window <= s.now))
    && (s.key.Present? ==> s.hits != [] && s.key.value == s.hits[|s.hits| - 1].count)
    && (s.key.Present? && s.key.deadline.Some? ==>
          s.expiring == {} && LastStart(s, window) + window <= s.key.deadline.value)
    && |s.expiring| <= 1
  }

  lemma IncrKeepsInv(window: Time, s: State, p: nat)
    requires Inv(window, s) && Enabled(s, Incr(p))
    ensures Inv(window, After(window, s, Incr(p)))
  {
    var s' := After(window, s, Incr(p));
    forall i | 0 <= i < |s'.hits| ensures Spaced(s'.hits, window, i) {
      if i < |s.hits| {
        assert Spaced(s.hits, window, i);
      } else if i > 0 {
        assert Spaced(s.hits, window, i - 1);
      }
    }
    if s.hits != [] { assert Spaced(s.hits, window, |s.hits| - 1); }
    assert Spaced(s'.hits, window, |s'.hits| - 1);
  }

  lemma StepKeepsInv(window: Time, s: State, l: Label)
    requires Inv(window, s) && Enabled(s, l)
    ensures Inv(window, After(window, s, l))
  {
    match l
    case Incr(p) => IncrKeepsInv(window, s, p);
    case Expire(p) => assert |s.expiring - {p}| == 0;
    case _ =>
  }

  lemma {:induction false} InvHolds(window: Time, schedule: seq<Label>)
    requires Exec(window, schedule).Some?
    ensures Inv(window, Exec(window, schedule).value)
    decreases schedule
  {
    if schedule != [] {
      var last := |schedule| - 1;
      InvHolds(window, schedule[..last]);
      StepKeepsInv(window, Exec(window, schedule[..last]).value, schedule[last]);
    }
  }

  /** Hits among the first n that ran in [from, from + window) and were allowed. */
  function Allowed(hits: seq<Hit>, n: nat, max: int, from: Time, window: Time): nat
    requires n <= |hits|
  {
    if n == 0 then 0
    else
      var counted := from <= hits[n - 1].at < from + window && hits[n - 1].count <= max;
      Allowed(hits, n - 1, max, from, window) + if counted then 1 else 0
  }

  function AllowedIn(window: Time, schedule: seq<Label>, max: int, from: Time): nat
    requires Exec(window, schedule).Some?
  {
    var hits := Exec(window, schedule).value.hits;
    Allowed(hits, |hits|, max, from, window)
  }

  /** At most two lifetimes of the key reach into the interval, and the older one began before it. */
  lemma {:induction false} SpacedHitsAreFew(hits: seq<Hit>, n: nat, max: int, from: Time, window: Time)
    requires 0 < n <= |hits| && AllSpaced(hits, window) && window > 0
    ensures 1 <= hits[n - 1].count <= n
    ensures var start, count, allowed := LifeStart(hits, n - 1), hits[n - 1].count, Allowed(hits, n, max, from, window);
            && start <= hits[n - 1].at
            && (start < from ==> allowed <= Max(0, Min(count, max) - 1))
            && (from <= start < from + window ==> allowed <= Max(0, max - 1) + Max(0, Min(count, max)))
            && (from + window <= start ==> allowed <= Max(0, 2 * max - 1))
            && (hits[n - 1].at < from ==> allowed == 0)
  {
    assert Spaced(hits, window, n - 1);
    if n > 1 {
      SpacedHitsAreFew(hits, n - 1, max, from, window);
    }
  }

  /** Under any interleaving, with EXPIREs late or lost, any half-open interval as long as the window holds at most
      2 * max - 1 allowed requests for the key. */
  lemma WindowBound(window: Time, schedule: seq<Label>, max: int, from: Time)
    requires window > 0 && Exec(window, schedule).Some?
    ensures AllowedIn(window, schedule, max, from) <= Max(0, 2 * max - 1)
  {
    InvHolds(window, schedule);
    var hits := Exec(window, schedule).value.hits;
    if hits != [] { SpacedHitsAreFew(hits, |hits|, max, from, window); }
  }

  // ----- One request after the other, the steps are the limiter -----

  lemma OneMoreStep(window: Time, schedule: seq<Label>, l: Label)
    requires Exec(window, schedule).Some? && Enabled(Exec(window, schedule).value, l)
    ensures Exec(window, schedule + [l]) == Some(After(window, Exec(window, schedule).value, l))
  {
  }

  /** What the limiter counts for each request. */
  function Counted(times: seq<Time>, window: Time): seq<Hit>
    decreases times
  {
    if times == [] then []
    else
      var last := |times| - 1;
      Counted(times[..last], window) + [Hit(times[last], Count(times, window))]
  }

  ghost predicate Serves(window: Time, s: State, times: seq<Time>) {
    && s.expiring == {} && s.hits == Counted(times, window)
    && (times == [] ==> s == INITIAL)
    && (times != [] ==>
          && s.now == times[|times| - 1]
          && s.key == Present(Count(times, window), Some(WindowStart(times, window) + window)))
  }

  lemma KeyAtTime(window: Time, schedule: seq<Label>, times: seq<Time>, now: Time) returns (longer: seq<Label>)
    requires Exec(window, schedule).Some? && Serves(window, Exec(window, schedule).value, times)
    requires Exec(window, schedule).value.now <= now
    ensures Exec(window, longer).Some?
    ensures var s := Exec(window, longer).value;
            var renewed := times == [] || now >= WindowStart(times, window) + window;
            && s.now == now && s.expiring == {} && s.hits == Counted(times, window)
            && s.key == if renewed then Absent else Exec(window, schedule).value.key
  {
    OneMoreStep(window, schedule, Tick(now));
    longer := schedule + [Tick(now)];
    if times != [] && now >= WindowStart(times, window) + window {
      OneMoreStep(window, longer, Vanish);
      longer := longer + [Vanish];
    }
  }

  lemma OneMoreRequest(window: Time, schedule: seq<Label>, times: seq<Time>, now: Time) returns (longer: seq<Label>)
    requires Exec(window, schedule).Some? && Serves(window, Exec(window, schedule).value, times)
    requires Sorted(times) && Exec(window, schedule).value.now <= now && window > 0
    ensures Exec(window, longer).Some? && Serves(window, Exec(window, longer).value, times + [now])
  {
    longer := KeyAtTime(window, schedule, times, now);
    if times != [] { OneMoreHit(times, now, window); }
    assert (times + [now])[..|times|] == times;
    OneMoreStep(window, longer, Incr(0));
    longer := longer + [Incr(0)];
    if Count(times + [now], window) == 1 {
      OneMoreStep(window, longer, Expire(0));
      longer := longer + [Expire(0)];
    }
  }

  /** With each EXPIRE right behind its INCR and the key dropped when it is due, the requests get the counts of
      Limiter. */
  lemma {:induction false} SerialRequestsAreTheLimiter(window: Time, times: seq<Time>) returns (schedule: seq<Label>)
    requires window > 0 && Sorted(times) && (times != [] ==> times[0] >= 0)
    ensures Exec(window, schedule).Some? && Serves(window, Exec(window, schedule).value, times)
    decreases times
  {
    schedule := [];
    if times != [] {
      var last := |times| - 1;
      schedule := SerialRequestsAreTheLimiter(window, times[..last]);
      schedule := OneMoreRequest(window, schedule, times[..last], times[last]);
      assert times == times[..last] + [times[last]];
    }
  }

  // ----- The bound is exact: the window slides only for max <= 1 -----

  lemma {:induction false} SameAllowed(g: seq<Hit>, h: seq<Hit>, n: nat, max: int, from: Time, window: Time)
    requires n <= |g| && n <= |h| && g[..n] == h[..n]
    ensures Allowed(g, n, max, from, window) == Allowed(h, n, max, from, window)
  {
    if n > 0 {
      assert g[n - 1] == g[..n][n - 1] && h[n - 1] == h[..n][n - 1];
      assert g[..n - 1] == g[..n][..n - 1] && h[..n - 1] == h[..n][..n - 1];
      SameAllowed(g, h, n - 1, max, from, window);
    }
  }

  /** k more hits at one moment on a live key, all counted as allowed in the interval. */
  lemma {:induction false} Burst(window: Time, schedule: seq<Label>, k: nat, max: int,
                                 from: Time) returns (longer: seq<Label>)
    requires Exec(window, schedule).Some?
    requires var s := Exec(window, schedule).value;
             && s.key.Present? && s.key.value > 0 && s.key.value + k <= max && s.expiring == {}
             && from <= s.now < from + window
    ensures Exec(window, longer).Some?
    ensures var s, s' := Exec(window, schedule).value, Exec(window, longer).value;
            && s'.now == s.now && s'.expiring == {}
            && s'.key == s.key.(value := s.key.value + k)
            && Allowed(s'.hits, |s'.hits|, max, from, window) == Allowed(s.hits, |s.hits|, max, from, window) + k
  {
    if k == 0 {
      longer := schedule;
    } else {
      longer := Burst(window, schedule, k - 1, max, from);
      var s := Exec(window, longer).value;
      OneMoreStep(window, longer, Incr(0));
      var s' := After(window, s, Incr(0));
      SameAllowed(s'.hits, s.hits, |s.hits|, max, from, window);
      longer := longer + [Incr(0)];
    }
  }

  /** A moment after a first hit at 0 and no later than the end of its window. */
  function BetweenWindows(window: Time): Time { Max(1, window - 1) }

  /** Two windows meet inside one interval: max - 1 late hits of the first, then max hits of the next. */
  lemma WindowBoundIsReached(window: Time, max: int) returns (schedule: seq<Label>)
    requires window > 0 && max >= 1
    ensures Exec(window, schedule).Some?
    ensures AllowedIn(window, schedule, max, BetweenWindows(window)) == 2 * max - 1
  {
    var from := BetweenWindows(window);
    schedule := [];
    OneMoreStep(window, schedule, Incr(0));
    schedule := schedule + [Incr(0)];
    OneMoreStep(window, schedule, Expire(0));
    schedule := schedule + [Expire(0)];
    OneMoreStep(window, schedule, Tick(from));
    schedule := schedule + [Tick(from)];
    assert Allowed([Hit(0, 1)], 1, max, from, window) == 0;
    schedule := Burst(window, schedule, max - 1, max, from);
    OneMoreStep(window, schedule, Tick(window));
    schedule := schedule + [Tick(window)];
    OneMoreStep(window, schedule, Vanish);
    schedule := schedule + [Vanish];
    var before := Exec(window, schedule).value.hits;
    OneMoreStep(window, schedule, Incr(1));
    schedule := schedule + [Incr(1)];
    SameAllowed(before + [Hit(window, 1)], before, |before|, max, from, window);
    OneMoreStep(window, schedule, Expire(1));
    schedule := schedule + [Expire(1)];
    schedule := Burst(window, schedule, max - 1, max, from);
  }

  /** Some interval as long as the window holds more than `max` allowed requests. */
  ghost predicate SlidingWindowBroken(window: Time, max: int) {
    exists schedule: seq<Label>, from: Time ::
      Exec(window, schedule).Some? && AllowedIn(window, schedule, max, from) > Max(0, max)
  }

  /** The documented sliding window is kept exactly when at most one request is allowed per window. */
  lemma SlidesIffMaxAtMostOne(window: Time, max: int)
    requires window > 0
    ensures SlidingWindowBroken(window, max) <==> max > 1
  {
    if max > 1 {
      var schedule := WindowBoundIsReached(window, max);
      assert AllowedIn(window, schedule, max, BetweenWindows(window)) > max;
    } else {
      forall schedule: seq<Label>, from: Time | Exec(window, schedule).Some?
        ensures AllowedIn(window, schedule, max, from) <= Max(0, max)
      {
        WindowBound(window, schedule, max, from);
      }
    }
  }
}
