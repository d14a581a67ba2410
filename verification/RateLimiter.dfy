/** The sliding-window rate limiter of `backend/src/middleware/rateLimiter.ts`. */
module RateLimiters {
  import opened Wrappers

  const SWEEP_INTERVAL_MS: int := 60_000

  /** `resetAt` is missing when there is no in-window request to wait for, which takes a limit below one. */
  datatype Verdict =
    | Allowed(remaining: int, reset: int)
    | Rejected(resetAt: Option<int>, retryAfter: Option<int>)

  type Timestamps = map<string, seq<int>>

  datatype Limiter = Limiter(store: Timestamps, lastSweep: int)

  datatype Limit = Limit(windowMs: int, max: int)

  function Filter(ts: seq<int>, windowStart: int): seq<int> {
    if ts == [] then []
    else
      var front := Filter(ts[..|ts| - 1], windowStart);
      if ts[|ts| - 1] > windowStart then front + [ts[|ts| - 1]] else front
  }

  function CeilDiv(a: int, b: int): int
    requires b > 0
  {
    -((-a) / b)
  }

  function TimestampsOf(store: Timestamps, key: string): seq<int> {
    if key in store then store[key] else []
  }

  /** A list whose newest timestamp has left the window; an empty list has none. */
  predicate Expired(ts: seq<int>, windowStart: int) {
    ts != [] && ts[|ts| - 1] <= windowStart
  }

  function Swept(s: Limiter, now: int, limit: Limit): Limiter {
    if now - s.lastSweep < SWEEP_INTERVAL_MS then s
    else Limiter(map key | key in s.store && !Expired(s.store[key], now - limit.windowMs) :: s.store[key], now)
  }

  /** The key's timestamps still inside the window when a request arrives. */
  function Kept(s: Limiter, now: int, key: string, limit: Limit): seq<int> {
    Filter(TimestampsOf(Swept(s, now, limit).store, key), now - limit.windowMs)
  }

  predicate Admits(s: Limiter, now: int, key: string, limit: Limit) {
    |Kept(s, now, key, limit)| < limit.max
  }

  function Handled(s: Limiter, now: int, key: string, limit: Limit): Limiter {
    var ts := Kept(s, now, key, limit);
    var swept := Swept(s, now, limit);
    Limiter(swept.store[key := if |ts| < limit.max then ts + [now] else ts], swept.lastSweep)
  }

  /** The response to a request that finds `ts` in the window. */
  function VerdictOn(ts: seq<int>, now: int, limit: Limit): Verdict {
    if |ts| < limit.max then Allowed(limit.max - (|ts| + 1), CeilDiv(now + limit.windowMs, 1000))
    else if ts == [] then Rejected(None, None)
    else
      var resetAt := ts[0] + limit.windowMs;
      var wait := CeilDiv(resetAt - now, 1000);
      Rejected(Some(resetAt), Some(if wait < 1 then 1 else wait))
  }

  class RateLimiter {
    const limit: Limit
    var store: Timestamps
    var lastSweep: int

    function Snapshot(): Limiter
      reads this
    {
      Limiter(store, lastSweep)
    }

    constructor (limit: Limit, now: int)
      ensures this.limit == limit && Snapshot() == Limiter(map[], now)
    {
      this.limit := limit;
      store, lastSweep := map[], now;
    }

    method Sweep(now: int)
      modifies this
      ensures Snapshot() == Swept(old(Snapshot()), now, limit)
    {
      if now - lastSweep < SWEEP_INTERVAL_MS { return; }
      lastSweep := now;
      var windowStart := now - limit.windowMs;
      var keys := store.Keys;
      while keys != {}
        invariant lastSweep == now && keys <= old(store).Keys
        invariant forall k :: k in store <==> k in old(store) && (k in keys || !Expired(old(store)[k], windowStart))
        invariant forall k :: k in store ==> store[k] == old(store)[k]
        decreases |keys|
      {
        var key := AnyOf(keys);
        var timestamps := store[key];
        if timestamps != [] && timestamps[|timestamps| - 1] <= windowStart { store := store - {key}; }
        keys := keys - {key};
      }
      assert store == Swept(old(Snapshot()), now, limit).store;
    }

    method Handle(now: int, key: string) returns (v: Verdict)
      modifies this
      ensures Snapshot() == Handled(old(Snapshot()), now, key, limit)
      ensures v == VerdictOn(Kept(old(Snapshot()), now, key, limit), now, limit)
    {
      var windowStart := now - limit.windowMs;
      Sweep(now);
      var timestamps := if key in store then store[key] else [];
      timestamps := Filter(timestamps, windowStart);
      if |timestamps| >= limit.max {
        store := store[key := timestamps];
        if timestamps == [] { return Rejected(None, None); }
        var resetAt := timestamps[0] + limit.windowMs;
        var wait := CeilDiv(resetAt - now, 1000);
        return Rejected(Some(resetAt), Some(if wait < 1 then 1 else wait));
      }
      timestamps := timestamps + [now];
      store := store[key := timestamps];
      v := Allowed(limit.max - |timestamps|, CeilDiv(now + limit.windowMs, 1000));
    }
  }

  // --------------------------------------------------------------------- runs

  datatype Request = Request(now: int, key: string)

  /** The clock does not go back. */
  predicate Monotone(start: int, run: seq<Request>) {
    && (run != [] ==> start <= run[0].now)
    && forall i, j :: 0 <= i < j < |run| ==> run[i].now <= run[j].now
  }

  function After(start: int, run: seq<Request>, limit: Limit): Limiter {
    if run == [] then Limiter(map[], start)
    else
      var last := run[|run| - 1];
      Handled(After(start, run[..|run| - 1], limit), last.now, last.key, limit)
  }

  /** The instants at which `key` was let through, in order. */
  function Admitted(start: int, run: seq<Request>, limit: Limit, key: string): seq<int> {
    if run == [] then []
    else
      var front, last := run[..|run| - 1], run[|run| - 1];
      var before := Admitted(start, front, limit, key);
      if last.key == key && Admits(After(start, front, limit), last.now, key, limit)
      then before + [last.now] else before
  }

  function LastNow(start: int, run: seq<Request>): int {
    if run == [] then start else run[|run| - 1].now
  }

  predicate Sorted(ts: seq<int>) {
    forall i, j :: 0 <= i <= j < |ts| ==> ts[i] <= ts[j]
  }

  function Cap(limit: Limit): nat {
    if limit.max < 0 then 0 else limit.max
  }

  /** The admission `max` places after this one is at least a window later. */
  predicate SpacedAt(a: seq<int>, i: int, limit: Limit)
    requires 0 <= i < |a|
  {
    i + Cap(limit) < |a| ==> a[i + Cap(limit)] - a[i] >= limit.windowMs
  }

  predicate Spaced(a: seq<int>, limit: Limit) {
    forall i :: 0 <= i < |a| ==> SpacedAt(a, i, limit)
  }

  /** `l` is the tail of `a`, and what is missing had left the window by `now`. */
  predicate Remembers(l: seq<int>, a: seq<int>, now: int, limit: Limit) {
    && |l| <= |a| && a[|a| - |l|..] == l && |l| <= Cap(limit)
    && forall i :: 0 <= i < |a| - |l| ==> a[i] <= now - limit.windowMs
  }

  lemma {:induction false} FilterTakesTail(ts: seq<int>, windowStart: int)
    requires Sorted(ts)
    ensures var f := Filter(ts, windowStart);
            && |f| <= |ts| && ts[|ts| - |f|..] == f
            && (forall i :: 0 <= i < |ts| - |f| ==> ts[i] <= windowStart)
            && (forall i :: 0 <= i < |f| ==> f[i] > windowStart)
  {
    if ts != [] {
      var front := ts[..|ts| - 1];
      FilterTakesTail(front, windowStart);
      var g := Filter(front, windowStart);
      assert g != [] ==> g[0] == front[|front| - |g|];
      assert ts[|ts| - 1] > windowStart ==>
               ts[|ts| - |g + [ts[|ts| - 1]]|..] == front[|front| - |g|..] + [ts[|ts| - 1]];
    }
  }

  lemma TailOfTail(a: seq<int>, l: seq<int>, f: seq<int>)
    requires |l| <= |a| && a[|a| - |l|..] == l && |f| <= |l| && l[|l| - |f|..] == f
    ensures a[|a| - |f|..] == f
  {
  }

  lemma TailSorted(a: seq<int>, l: seq<int>)
    requires Sorted(a) && |l| <= |a| && a[|a| - |l|..] == l
    ensures Sorted(l)
  {
    assert forall i :: 0 <= i < |l| ==> l[i] == a[|a| - |l| + i];
  }

  /** Pruning forgets only admissions that have left the window. */
  lemma PruneRemembers(l: seq<int>, a: seq<int>, before: int, now: int, limit: Limit)
    requires Sorted(a) && Remembers(l, a, before, limit) && before <= now
    ensures Remembers(Filter(l, now - limit.windowMs), a, now, limit)
  {
    var f := Filter(l, now - limit.windowMs);
    TailSorted(a, l);
    FilterTakesTail(l, now - limit.windowMs);
    TailOfTail(a, l, f);
    forall i | 0 <= i < |a| - |f| ensures a[i] <= now - limit.windowMs {
      if i >= |a| - |l| { assert a[i] == l[i - (|a| - |l|)]; }
    }
  }

  /** A swept list had nothing left in the window. */
  lemma SweepRemembers(s: Limiter, now: int, limit: Limit, key: string, a: seq<int>, before: int)
    requires Sorted(a) && Remembers(TimestampsOf(s.store, key), a, before, limit) && before <= now
    ensures Remembers(TimestampsOf(Swept(s, now, limit).store, key), a, now, limit)
  {
    var l := TimestampsOf(s.store, key);
    if key in s.store && key !in Swept(s, now, limit).store {
      assert l[|l| - 1] == a[|a| - 1];
      assert a[|a|..] == [];
    }
  }

  /** Admitting below the limit keeps the spacing: the `max`-th admission before had left the window. */
  lemma AdmitKeepsSpacing(f: seq<int>, a: seq<int>, now: int, limit: Limit)
    requires Sorted(a) && Spaced(a, limit) && Remembers(f, a, now, limit) && |f| < limit.max
    requires a != [] ==> a[|a| - 1] <= now
    ensures Sorted(a + [now]) && Spaced(a + [now], limit) && Remembers(f + [now], a + [now], now, limit)
  {
    var b := a + [now];
    forall i | 0 <= i < |b| ensures SpacedAt(b, i, limit) {
      if i < |a| { assert SpacedAt(a, i, limit); }
    }
    assert b[|b| - |f + [now]|..] == a[|a| - |f|..] + [now];
  }

  /** What the limiter keeps about a key whose admissions so far are `a`. */
  ghost predicate Tracks(l: seq<int>, a: seq<int>, now: int, limit: Limit) {
    Sorted(a) && Spaced(a, limit) && (a != [] ==> a[|a| - 1] <= now) && Remembers(l, a, now, limit)
  }

  ghost predicate Tracked(start: int, run: seq<Request>, limit: Limit, key: string) {
    Tracks(TimestampsOf(After(start, run, limit).store, key), Admitted(start, run, limit, key), LastNow(start, run),
           limit)
  }

  /** Another key's request can only sweep this key's list. */
  lemma OtherKeyTracks(s: Limiter, now: int, other: string, limit: Limit, key: string, a: seq<int>, before: int)
    requires Tracks(TimestampsOf(s.store, key), a, before, limit) && before <= now && other != key
    ensures Tracks(TimestampsOf(Handled(s, now, other, limit).store, key), a, now, limit)
  {
    SweepRemembers(s, now, limit, key, a, before);
  }

  lemma KeptRemembers(s: Limiter, now: int, limit: Limit, key: string, a: seq<int>, before: int)
    requires Sorted(a) && Remembers(TimestampsOf(s.store, key), a, before, limit) && before <= now
    ensures Remembers(Kept(s, now, key, limit), a, now, limit)
  {
    SweepRemembers(s, now, limit, key, a, before);
    PruneRemembers(TimestampsOf(Swept(s, now, limit).store, key), a, now, now, limit);
  }

  /** A request of the key itself is either refused, pruning its list, or recorded. */
  lemma OwnKeyTracks(s: Limiter, now: int, limit: Limit, key: string, a: seq<int>, before: int)
    requires Tracks(TimestampsOf(s.store, key), a, before, limit) && before <= now
    ensures Tracks(TimestampsOf(Handled(s, now, key, limit).store, key),
                   if Admits(s, now, key, limit) then a + [now] else a, now, limit)
  {
    KeptRemembers(s, now, limit, key, a, before);
    if Admits(s, now, key, limit) { AdmitKeepsSpacing(Kept(s, now, key, limit), a, now, limit); }
  }

  lemma StepTracks(start: int, front: seq<Request>, last: Request, limit: Limit, key: string)
    requires Tracked(start, front, limit, key) && LastNow(start, front) <= last.now
    ensures Tracked(start, front + [last], limit, key)
  {
    var run := front + [last];
    var s, a := After(start, front, limit), Admitted(start, front, limit, key);
    assert run[..|front|] == front;
    assert After(start, run, limit) == Handled(s, last.now, last.key, limit);
    assert Admitted(start, run, limit, key)
           == if last.key == key && Admits(s, last.now, key, limit) then a + [last.now] else a;
    if last.key == key {
      OwnKeyTracks(s, last.now, limit, key, a, LastNow(start, front));
    } else {
      OtherKeyTracks(s, last.now, last.key, limit, key, a, LastNow(start, front));
    }
  }

  lemma MonotoneFront(start: int, run: seq<Request>)
    requires run != [] && Monotone(start, run)
    ensures Monotone(start, run[..|run| - 1]) && LastNow(start, run[..|run| - 1]) <= run[|run| - 1].now
  {
  }

  lemma {:induction false} RunTracks(start: int, run: seq<Request>, limit: Limit, key: string)
    requires Monotone(start, run)
    ensures Tracked(start, run, limit, key)
  {
    if run != [] {
      var front, last := run[..|run| - 1], run[|run| - 1];
      MonotoneFront(start, run);
      RunTracks(start, front, limit, key);
      StepTracks(start, front, last, limit, key);
      assert run == front + [last];
    }
  }

  // ------------------------------------------------------------- the guarantee

  predicate IsIn(t: int, from: int, limit: Limit) {
    from <= t < from + limit.windowMs
  }

  /** How many of the instants fall in the half-open window from `from`. */
  function CountIn(a: seq<int>, from: int, limit: Limit): nat {
    if a == [] then 0
    else CountIn(a[..|a| - 1], from, limit) + (if IsIn(a[|a| - 1], from, limit) then 1 else 0)
  }

  lemma {:induction false} CountFromFirst(a: seq<int>, from: int, limit: Limit, low: int)
    requires low <= |a| && forall i :: 0 <= i < |a| && i < low ==> !IsIn(a[i], from, limit)
    ensures CountIn(a, from, limit) <= if low < 0 then |a| else |a| - low
  {
    if a != [] { CountFromFirst(a[..|a| - 1], from, limit, if low < |a| then low else |a| - 1); }
  }

  lemma {:induction false} SpacingBoundsWindow(a: seq<int>, from: int, limit: Limit)
    requires Sorted(a) && Spaced(a, limit)
    ensures CountIn(a, from, limit) <= Cap(limit)
  {
    if a != [] {
      var n := |a| - 1;
      if IsIn(a[n], from, limit) {
        forall i | 0 <= i < |a| && i < |a| - Cap(limit) ensures !IsIn(a[i], from, limit) {
          assert SpacedAt(a, i, limit) && a[i + Cap(limit)] <= a[n];
        }
        CountFromFirst(a, from, limit, |a| - Cap(limit));
      } else {
        assert forall i :: 0 <= i < n ==> SpacedAt(a, i, limit) && SpacedAt(a[..n], i, limit);
        SpacingBoundsWindow(a[..n], from, limit);
      }
    }
  }

  /**
   With a clock that does not go back, in every half-open window of length `windowMs` at most
   `max` requests of any key are admitted, over the whole run and through every sweep.
   */
  lemma AtMostMaxPerWindow(start: int, run: seq<Request>, limit: Limit, key: string, from: int)
    requires Monotone(start, run)
    ensures CountIn(Admitted(start, run, limit, key), from, limit) <= Cap(limit)
  {
    RunTracks(start, run, limit, key);
    SpacingBoundsWindow(Admitted(start, run, limit, key), from, limit);
  }

  // ------------------------------------------------------------- each response

  lemma {:induction false} CountAfter(a: seq<int>, dropped: nat, from: int, limit: Limit)
    requires dropped <= |a| && forall i :: 0 <= i < dropped ==> a[i] < from
    requires forall i :: dropped <= i < |a| ==> IsIn(a[i], from, limit)
    ensures CountIn(a, from, limit) == |a| - dropped
  {
    if a != [] { CountAfter(a[..|a| - 1], if dropped < |a| then dropped else |a| - 1, from, limit); }
  }

  /** A key's list is sorted and holds at most `max` instants. */
  lemma ListIsShort(start: int, run: seq<Request>, limit: Limit, key: string)
    requires Monotone(start, run)
    ensures Sorted(TimestampsOf(After(start, run, limit).store, key))
    ensures |TimestampsOf(After(start, run, limit).store, key)| <= Cap(limit)
  {
    RunTracks(start, run, limit, key);
    TailSorted(Admitted(start, run, limit, key), TimestampsOf(After(start, run, limit).store, key));
  }

  /** What is kept about a key are its admissions of the last `windowMs`. */
  lemma KeptAreRecent(start: int, run: seq<Request>, limit: Limit, key: string, now: int)
    requires Monotone(start, run) && LastNow(start, run) <= now
    ensures |Kept(After(start, run, limit), now, key, limit)|
            == CountIn(Admitted(start, run, limit, key), now - limit.windowMs + 1, limit)
  {
    var s, a := After(start, run, limit), Admitted(start, run, limit, key);
    RunTracks(start, run, limit, key);
    KeptRemembers(s, now, limit, key, a, LastNow(start, run));
    ListIsShort(start, run, limit, key);
    KeptInside(s, limit, key, now);
    RecentTail(a, Kept(s, now, key, limit), limit, now);
  }

  lemma KeptInside(s: Limiter, limit: Limit, key: string, now: int)
    requires Sorted(TimestampsOf(s.store, key))
    ensures var kept := Kept(s, now, key, limit); forall i :: 0 <= i < |kept| ==> kept[i] > now - limit.windowMs
  {
    var listed := TimestampsOf(Swept(s, now, limit).store, key);
    assert listed == [] || listed == TimestampsOf(s.store, key);
    FilterTakesTail(listed, now - limit.windowMs);
  }

  /** A remembered list with nothing old in it is what falls in the window. */
  lemma RecentTail(a: seq<int>, kept: seq<int>, limit: Limit, now: int)
    requires Sorted(a) && (a != [] ==> a[|a| - 1] <= now) && Remembers(kept, a, now, limit)
    requires forall i :: 0 <= i < |kept| ==> kept[i] > now - limit.windowMs
    ensures |kept| == CountIn(a, now - limit.windowMs + 1, limit)
  {
    var dropped := |a| - |kept|;
    forall i | dropped <= i < |a| ensures IsIn(a[i], now - limit.windowMs + 1, limit) {
      assert a[i] == a[dropped..][i - dropped];
    }
    CountAfter(a, dropped, now - limit.windowMs + 1, limit);
  }

  /**
   A request is let through exactly when fewer than `max` of its key were in the last
   `windowMs`; only then is it recorded. The response counts what is left after it, and
   rounds the end of its window up to a second.
   */
  lemma AllowedIffRoom(start: int, run: seq<Request>, limit: Limit, key: string, now: int)
    requires Monotone(start, run) && LastNow(start, run) <= now
    ensures var a := Admitted(start, run, limit, key);
            var used := CountIn(a, now - limit.windowMs + 1, limit);
            var v := VerdictOn(Kept(After(start, run, limit), now, key, limit), now, limit);
            && (v.Allowed? <==> used < limit.max)
            && Admitted(start, run + [Request(now, key)], limit, key) == (if v.Allowed? then a + [now] else a)
            && (v.Allowed? ==> v.remaining == limit.max - used - 1
                               && 1000 * v.reset >= now + limit.windowMs > 1000 * (v.reset - 1))
  {
    KeptAreRecent(start, run, limit, key, now);
    AdmittedNext(start, run, limit, key, now);
    VerdictCounts(Kept(After(start, run, limit), now, key, limit), now, limit);
  }

  lemma AdmittedNext(start: int, run: seq<Request>, limit: Limit, key: string, now: int)
    ensures Admitted(start, run + [Request(now, key)], limit, key)
            == Admitted(start, run, limit, key)
               + if Admits(After(start, run, limit), now, key, limit) then [now] else []
  {
    assert (run + [Request(now, key)])[..|run|] == run;
  }

  lemma VerdictCounts(ts: seq<int>, now: int, limit: Limit)
    ensures var v := VerdictOn(ts, now, limit);
            && (v.Allowed? <==> |ts| < limit.max)
            && (v.Allowed? ==> v.remaining == limit.max - |ts| - 1
                               && 1000 * v.reset >= now + limit.windowMs > 1000 * (v.reset - 1))
  {
    RoundsUp(now + limit.windowMs);
  }

  lemma RoundsUp(x: int)
    ensures 1000 * CeilDiv(x, 1000) >= x > 1000 * (CeilDiv(x, 1000) - 1)
  {
  }

  /**
   Sweeping changes no response: what a request finds in its window is the same without it.
   When it is due it leaves no key whose newest entry has left the window.
   */
  lemma SweepIsInvisible(s: Limiter, now: int, limit: Limit, key: string)
    requires Sorted(TimestampsOf(s.store, key))
    ensures Kept(s, now, key, limit) == Filter(TimestampsOf(s.store, key), now - limit.windowMs)
    ensures now - s.lastSweep >= 60_000 && key in Swept(s, now, limit).store ==>
              var ts := Swept(s, now, limit).store[key]; ts == [] || ts[|ts| - 1] > now - limit.windowMs
  {
    FilterTakesTail(TimestampsOf(s.store, key), now - limit.windowMs);
  }

  // -------------------------------------------------------------- reset instant

  predicate Without(run: seq<Request>, key: string) {
    forall i :: 0 <= i < |run| ==> run[i].key != key
  }

  function Continue(s: Limiter, run: seq<Request>, limit: Limit): Limiter {
    if run == [] then s
    else
      var last := run[|run| - 1];
      Handled(Continue(s, run[..|run| - 1], limit), last.now, last.key, limit)
  }

  /** Other keys' requests leave a key's list alone, or sweep it away once its newest entry has expired. */
  lemma {:induction false} UnusedKeyKept(s: Limiter, run: seq<Request>, limit: Limit, key: string)
    requires key in s.store && s.store[key] != [] && Without(run, key)
    requires forall i, j :: 0 <= i < j < |run| ==> run[i].now <= run[j].now
    ensures var t := Continue(s, run, limit);
            if key in t.store then t.store[key] == s.store[key]
            else run != [] && Expired(s.store[key], run[|run| - 1].now - limit.windowMs)
  {
    if run != [] { UnusedKeyKept(s, run[..|run| - 1], limit, key); }
  }

  /**
   A key rejected at `now`, and not used in between, is admitted again at exactly the
   instants from its reported reset on, whatever other keys do meanwhile; waiting the
   reported number of seconds is long enough.
   */
  lemma AdmittedExactlyFromReset(start: int, run: seq<Request>, limit: Limit, key: string, now: int,
                                 others: seq<Request>, later: int)
    requires Monotone(start, run) && LastNow(start, run) <= now
    requires Monotone(now, others) && Without(others, key) && LastNow(now, others) <= later
    requires limit.max >= 1 && !Admits(After(start, run, limit), now, key, limit)
    ensures var s := After(start, run, limit);
            var v := VerdictOn(Kept(s, now, key, limit), now, limit);
            && v.Rejected? && v.resetAt.Some? && v.retryAfter.Some?
            && (Admits(Continue(Handled(s, now, key, limit), others, limit), later, key, limit)
                <==> later >= v.resetAt.value)
            && now + 1000 * v.retryAfter.value >= v.resetAt.value
  {
    var s := After(start, run, limit);
    var t := Handled(s, now, key, limit);
    var ts := Kept(s, now, key, limit);
    var through := run + [Request(now, key)];
    assert through[..|run|] == run;
    MonotoneExtends(start, run, Request(now, key));
    ListIsShort(start, through, limit, key);
    assert After(start, through, limit) == t && t.store[key] == ts;
    UnusedKeyKept(t, others, limit, key);
    LaterVerdict(Continue(t, others, limit), limit, key, ts, LastNow(now, others), later);
    WaitCovers(ts[0] + limit.windowMs - now);
  }

  lemma MonotoneExtends(start: int, run: seq<Request>, r: Request)
    requires Monotone(start, run) && LastNow(start, run) <= r.now
    ensures Monotone(start, run + [r])
  {
  }

  lemma WaitCovers(gap: int)
    ensures 1000 * CeilDiv(gap, 1000) >= gap
  {
  }

  lemma LaterVerdict(t: Limiter, limit: Limit, key: string, ts: seq<int>, before: int, later: int)
    requires limit.max >= 1 && |ts| == limit.max && Sorted(ts) && before <= later
    requires if key in t.store then t.store[key] == ts else Expired(ts, before - limit.windowMs)
    ensures Admits(t, later, key, limit) <==> later >= ts[0] + limit.windowMs
  {
    var listed := TimestampsOf(Swept(t, later, limit).store, key);
    assert listed == ts || (listed == [] && Expired(ts, later - limit.windowMs));
    FilterTakesTail(ts, later - limit.windowMs);
    var f := Filter(ts, later - limit.windowMs);
    assert |f| == |ts| ==> f[0] == ts[0];
  }
}
