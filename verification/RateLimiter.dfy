/** The in-memory rate limiters (app/core/middleware.py). */
module RateLimiter {
  import opened TimeWindow
  import opened WindowBuckets

  /** Above this many keys, stale buckets are swept before a request is judged. */
  const SWEEP_ABOVE := 1000

  function Swept(buckets: Buckets, now: real, window: real): Buckets {
    if |buckets| > SWEEP_ABOVE then Sweep(buckets, now, window) else buckets
  }

  /** Every other key in the table has a recent entry. */
  ghost predicate OnlyLive(buckets: Buckets, hist: Buckets, now: real, window: real, ip: string) {
    forall k :: k in buckets && k != ip ==> Recent(Get(hist, k), now, window) != []
  }

  lemma SweptAreLive(buckets: Buckets, hist: Buckets, most: int, window: real, now: real)
    requires AllSane(buckets, hist, most, window, now)
    ensures forall k :: k in Sweep(buckets, now, window) ==> Recent(Get(hist, k), now, window) != []
  {
    forall k | k in Sweep(buckets, now, window) ensures Recent(Get(hist, k), now, window) != [] {
      assert Sane(Get(buckets, k), Get(hist, k), most, window, now);
      LastIsRecent(Get(buckets, k), Get(hist, k), most, window, now);
    }
  }

  /** One request judged in the table, swept first when there are too many buckets. */
  method JudgeSwept(buckets: Buckets, ip: string, now: real, most: int, window: real,
                    ghost hist: Buckets, ghost clock: real)
    returns (ok: bool, next: Buckets, remaining: int)
    requires AllSane(buckets, hist, most, window, clock) && clock <= now
    ensures ok <==> |Recent(Get(hist, ip), now, window)| < most
    ensures next == Swept(buckets, now, window)[ip := Grown(Recent(Get(hist, ip), now, window), now, ok)]
    ensures ok ==> remaining == most - 1 - |Recent(Get(hist, ip), now, window)|
    ensures if |buckets| > SWEEP_ABOVE then OnlyLive(next, hist, now, window, ip) else buckets.Keys <= next.Keys
    ensures AllSane(next, Extended(hist, ip, now, ok), most, window, now)
  {
    SaneLater(buckets, hist, most, window, clock, now);
    SweepSane(buckets, hist, most, window, now);
    SweptAreLive(buckets, hist, most, window, now);
    var kept, bucket := Swept(buckets, now, window), [];
    ok, bucket := JudgeIn(kept, ip, now, most, window, hist);
    next := kept[ip := bucket];
    remaining := most - |bucket|;
  }

  /** The global limiter: one bucket of admission times per client address. */
  class SlidingWindowLimiter {
    const maxRequests: int
    const window: real
    var buckets: Buckets
    var allowed: nat
    var blocked: nat
    ghost var history: Buckets   // every admission ever, per address
    ghost var clock: real        // time of the last request

    ghost predicate Valid()
      reads this
    {
      AllSane(buckets, history, maxRequests, window, clock)
    }

    constructor (maxRequests: int, window: real, now: real)
      ensures Valid() && buckets == map[] && history == map[] && clock == now
      ensures this.maxRequests == maxRequests && this.window == window && allowed == 0 && blocked == 0
    {
      this.maxRequests, this.window := maxRequests, window;
      buckets, allowed, blocked, history, clock := map[], 0, 0, map[], now;
    }

    /** Judges one request: admitted exactly when fewer than maxRequests admitted
        requests of the address lie in the last `window` seconds. */
    method Dispatch(ip: string, now: real) returns (ok: bool, remaining: int)
      requires Valid() && clock <= now
      modifies this
      ensures Valid() && clock == now
      ensures ok <==> |Recent(Get(old(history), ip), now, window)| < maxRequests
      ensures history == if ok then old(history)[ip := Get(old(history), ip) + [now]] else old(history)
      ensures ok ==> remaining == maxRequests - 1 - |Recent(Get(old(history), ip), now, window)|
      ensures allowed == old(allowed) + (if ok then 1 else 0) && blocked == old(blocked) + (if ok then 0 else 1)
      ensures buckets == Swept(old(buckets), now, window)[
                ip := Grown(Recent(Get(old(history), ip), now, window), now, ok)]
      ensures |old(buckets)| > SWEEP_ABOVE ==> OnlyLive(buckets, old(history), now, window, ip)
      ensures |old(buckets)| <= SWEEP_ABOVE ==> old(buckets).Keys <= buckets.Keys
    {
      var next;
      ok, next, remaining := JudgeSwept(buckets, ip, now, maxRequests, window, history, clock);
      buckets, history, clock := next, Extended(history, ip, now, ok), now;
      if ok {
        allowed := allowed + 1;
      } else {
        blocked := blocked + 1;
      }
    }

    /** The promise of the limiter, at any moment of any run. */
    lemma AtMostMaxPerWindow(ip: string, a: real)
      requires Valid()
      ensures |Within(Get(history, ip), a, a + window)| <= if maxRequests > 0 then maxRequests else 0
    {
      BetweenCounts(Get(history, ip), a, a + window);
      assert Sane(Get(buckets, ip), Get(history, ip), maxRequests, window, clock);
      WindowBound(Get(history, ip), maxRequests, window, a);
    }
  }

  // ---------- the per-route limiter ----------

  type Duration = r: real | r >= 0.0 witness 0.0

  /** One call for a (route, address) key, with the limits the caller passed. */
  datatype Call = Call(now: real, most: int, window: Duration)

  lemma {:induction false} CutBeforeClock(calls: seq<Call>, clock: real)
    requires calls != [] && InOrder(calls, clock)
    ensures Cut(calls) <= clock
  {
    if |calls| > 1 {
      CutBeforeClock(calls[..|calls| - 1], calls[|calls| - 1].now);
    }
  }

  function Max(a: real, b: real): real { if a >= b then a else b }

  /** Entries older than this have been dropped by some call so far. */
  function Cut(calls: seq<Call>): real
    requires calls != []
  {
    var c := calls[|calls| - 1];
    if |calls| == 1 then c.now - c.window else Max(Cut(calls[..|calls| - 1]), c.now - c.window)
  }

  /** The admission times of a sequence of calls. */
  function Admitted(calls: seq<Call>): Times {
    if calls == [] then []
    else
      var before, c := Admitted(calls[..|calls| - 1]), calls[|calls| - 1];
      if |Since(before, Cut(calls))| < c.most then before + [c.now] else before
  }

  ghost predicate InOrder(calls: seq<Call>, clock: real) {
    && (forall i, j :: 0 <= i < j < |calls| ==> calls[i].now <= calls[j].now)
    && (calls != [] ==> calls[|calls| - 1].now <= clock)
  }

  lemma {:induction false} AdmittedOrdered(calls: seq<Call>, clock: real)
    requires InOrder(calls, clock)
    ensures Ordered(Admitted(calls))
    ensures Admitted(calls) != [] ==> Admitted(calls)[|Admitted(calls)| - 1] <= clock
  {
    if calls != [] {
      var before, now := calls[..|calls| - 1], calls[|calls| - 1].now;
      InOrderPrefix(calls, clock);
      AdmittedOrdered(before, now);
      OrderedAppend(Admitted(before), now);
      AdmittedStep(calls);
    }
  }

  lemma InOrderPrefix(calls: seq<Call>, clock: real)
    requires calls != [] && InOrder(calls, clock)
    ensures InOrder(calls[..|calls| - 1], calls[|calls| - 1].now) && calls[|calls| - 1].now <= clock
  {
  }

  lemma AdmittedStep(calls: seq<Call>)
    requires calls != []
    ensures var before, now := Admitted(calls[..|calls| - 1]), calls[|calls| - 1].now;
            Admitted(calls) == before || Admitted(calls) == before + [now]
  {
  }

  ghost predicate FixedLimits(calls: seq<Call>, most: int, window: real) {
    forall i :: 0 <= i < |calls| ==> calls[i].most == most && calls[i].window == window
  }

  lemma {:induction false} CutOfFixedWindow(calls: seq<Call>, most: int, window: real, clock: real)
    requires calls != [] && FixedLimits(calls, most, window) && InOrder(calls, clock)
    ensures Cut(calls) == calls[|calls| - 1].now - window
  {
    if |calls| > 1 {
      CutOfFixedWindow(calls[..|calls| - 1], most, window, calls[|calls| - 1].now);
    }
  }

  /** With the limits of a route fixed, a call is admitted exactly when fewer than
      `most` admissions lie in its window. */
  lemma FixedRouteJudgesWindow(calls: seq<Call>, most: int, window: real, clock: real)
    requires calls != [] && FixedLimits(calls, most, window) && InOrder(calls, clock)
    ensures var before, now := Admitted(calls[..|calls| - 1]), calls[|calls| - 1].now;
            Admitted(calls) == Grown(before, now, |Recent(before, now, window)| < most)
  {
    CutOfFixedWindow(calls, most, window, clock);
  }

  /** Its admissions therefore obey the sliding window. */
  lemma {:induction false} FixedRouteIsSlidingWindow(calls: seq<Call>, most: int, window: real, clock: real)
    requires FixedLimits(calls, most, window) && InOrder(calls, clock)
    ensures AdmittedBy(Admitted(calls), most, window)
  {
    if calls != [] {
      var before, now := calls[..|calls| - 1], calls[|calls| - 1].now;
      FixedRouteIsSlidingWindow(before, most, window, now);
      FixedRouteJudgesWindow(calls, most, window, clock);
      if |Recent(Admitted(before), now, window)| < most {
        AdmittedAppend(Admitted(before), now, most, window);
      }
    }
  }

  /** A route with fixed limits never admits more than `most` per window. */
  lemma RouteBound(calls: seq<Call>, most: int, window: real, clock: real, a: real)
    requires FixedLimits(calls, most, window) && InOrder(calls, clock)
    ensures |Within(Admitted(calls), a, a + window)| <= if most > 0 then most else 0
  {
    BetweenCounts(Admitted(calls), a, a + window);
    FixedRouteIsSlidingWindow(calls, most, window, clock);
    WindowBound(Admitted(calls), most, window, a);
  }

  /** The bucket holds exactly the admissions that no call has dropped. */
  ghost predicate Remembers(bucket: Times, calls: seq<Call>) {
    if calls == [] then bucket == []
    else Tracks(bucket, Admitted(calls), Cut(calls)) && forall i :: 0 <= i < |bucket| ==> bucket[i] >= Cut(calls)
  }

  ghost predicate Kept(bucket: Times, calls: seq<Call>, clock: real) {
    InOrder(calls, clock) && Remembers(bucket, calls)
  }

  ghost predicate AllKept(buckets: Buckets, calls: map<string, seq<Call>>, clock: real) {
    forall key :: Kept(Get(buckets, key), Get(calls, key), clock)
  }

  lemma KeptLater(bucket: Times, calls: seq<Call>, clock: real, now: real)
    requires Kept(bucket, calls, clock) && clock <= now
    ensures Kept(bucket, calls, now)
  {
  }

  lemma KeptUpdate(buckets: Buckets, calls: map<string, seq<Call>>, clock: real,
                   key: string, bucket: Times, all: seq<Call>, now: real)
    requires AllKept(buckets, calls, clock) && clock <= now
    requires Kept(bucket, all, now)
    ensures AllKept(buckets[key := bucket], calls[key := all], now)
  {
    var buckets', calls' := buckets[key := bucket], calls[key := all];
    forall k ensures Kept(Get(buckets', k), Get(calls', k), now) {
      if k == key {
        assert Get(buckets', k) == bucket && Get(calls', k) == all;
      } else {
        assert Get(buckets', k) == Get(buckets, k) && Get(calls', k) == Get(calls, k);
        KeptLater(Get(buckets, k), Get(calls, k), clock, now);
      }
    }
  }

  class RouteLimiter {
    var buckets: Buckets
    ghost var calls: map<string, seq<Call>>   // every call ever, per bucket key
    ghost var clock: real

    ghost predicate Valid()
      reads this
    {
      AllKept(buckets, calls, clock)
    }

    constructor (now: real)
      ensures Valid() && buckets == map[] && calls == map[] && clock == now
    {
      buckets, calls, clock := map[], map[], now;
    }

    /** The answer depends only on the earlier calls for the same route and address. */
    method CheckPerRoute(ip: string, route: string, most: int, window: Duration, now: real) returns (ok: bool)
      requires Valid() && clock <= now
      modifies this
      ensures Valid() && clock == now
      ensures var key := route + ":" + ip;
              && calls == old(calls)[key := Get(old(calls), key) + [Call(now, most, window)]]
              && Admitted(Get(calls, key)) == Admitted(Get(old(calls), key)) + if ok then [now] else []
    {
      ok, buckets := JudgeRouteIn(buckets, route + ":" + ip, now, most, window, calls, clock);
      calls, clock := WithCall(calls, route + ":" + ip, Call(now, most, window)), now;
    }
  }

  /** The calls with one more for a key. */
  ghost function WithCall(calls: map<string, seq<Call>>, key: string, c: Call): map<string, seq<Call>> {
    calls[key := Get(calls, key) + [c]]
  }

  /** One call in the whole table. */
  method JudgeRouteIn(buckets: Buckets, key: string, now: real, most: int, window: Duration,
                      ghost calls: map<string, seq<Call>>, ghost clock: real)
    returns (ok: bool, next: Buckets)
    requires AllKept(buckets, calls, clock) && clock <= now
    ensures AllKept(next, WithCall(calls, key, Call(now, most, window)), now)
    ensures Admitted(Get(calls, key) + [Call(now, most, window)]) == Grown(Admitted(Get(calls, key)), now, ok)
    ensures key in next && next == buckets[key := next[key]]
  {
    ghost var cs, c := Get(calls, key), Call(now, most, window);
    assert Kept(Get(buckets, key), cs, clock);
    var bucket;
    ok, bucket := JudgeRoute(Get(buckets, key), now, most, window, cs, clock);
    assert Kept(bucket, cs + [c], now);
    KeptUpdate(buckets, calls, clock, key, bucket, cs + [c], now);
    assert WithCall(calls, key, c) == calls[key := cs + [c]];
    next := buckets[key := bucket];
  }

  /** One call on the bucket of its key. */
  method JudgeRoute(bucket: Times, now: real, most: int, window: Duration, ghost calls: seq<Call>, ghost clock: real)
    returns (ok: bool, next: Times)
    requires InOrder(calls, clock) && clock <= now && Remembers(bucket, calls)
    ensures var all := calls + [Call(now, most, window)];
            && InOrder(all, now) && Remembers(next, all)
            && Admitted(all) == Grown(Admitted(calls), now, ok)
  {
    ghost var c := Call(now, most, window);
    CallInOrder(calls, c, clock);
    CallCut(bucket, calls, c, clock);
    next := PopTo(bucket, now, window, Admitted(calls), Cut(calls + [c]));
    RememberCall(next, calls, c);
    ok := |next| < most;
    next := Grown(next, now, ok);
  }

  /** The pruned bucket, with an admitted call appended, is what is remembered. */
  lemma RememberCall(kept: Times, calls: seq<Call>, c: Call)
    requires kept == Since(Admitted(calls), Cut(calls + [c])) && Tracks(kept, Admitted(calls), Cut(calls + [c]))
    requires Cut(calls + [c]) <= c.now && forall i :: 0 <= i < |kept| ==> kept[i] >= Cut(calls + [c])
    ensures Remembers(Grown(kept, c.now, |kept| < c.most), calls + [c])
    ensures Admitted(calls + [c]) == Grown(Admitted(calls), c.now, |kept| < c.most)
  {
    CallAdmits(calls, c);
    TracksAppend(kept, Admitted(calls), Cut(calls + [c]), c.now);
  }

  lemma CallInOrder(calls: seq<Call>, c: Call, clock: real)
    requires InOrder(calls, clock) && clock <= c.now
    ensures InOrder(calls + [c], c.now) && Ordered(Admitted(calls)) && Cut(calls + [c]) <= c.now
  {
    AdmittedOrdered(calls, clock);
    CutBeforeClock(calls + [c], c.now);
  }

  lemma CutStep(calls: seq<Call>, c: Call)
    ensures Cut(calls + [c]) == if calls == [] then c.now - c.window else Max(Cut(calls), c.now - c.window)
  {
    assert (calls + [c])[..|calls|] == calls;
  }

  lemma CallCut(bucket: Times, calls: seq<Call>, c: Call, clock: real)
    requires InOrder(calls, clock) && clock <= c.now && Remembers(bucket, calls)
    ensures Tracks(bucket, Admitted(calls), Cut(calls + [c])) && c.now - c.window <= Cut(calls + [c])
    ensures forall i :: 0 <= i < |bucket| ==> bucket[i] < Cut(calls + [c]) ==> bucket[i] < c.now - c.window
  {
    CutStep(calls, c);
  }

  lemma CallAdmits(calls: seq<Call>, c: Call)
    ensures Admitted(calls + [c]) ==
            if |Since(Admitted(calls), Cut(calls + [c]))| < c.most then Admitted(calls) + [c.now] else Admitted(calls)
  {
    assert (calls + [c])[..|calls|] == calls;
  }

  /** The popleft loop when earlier calls may have used another window. */
  method PopTo(bucket: Times, now: real, window: real, ghost h: Times, ghost cut: real) returns (kept: Times)
    requires Ordered(h) && cut >= now - window
    requires Tracks(bucket, h, cut)
    requires forall i :: 0 <= i < |bucket| ==> bucket[i] < cut ==> bucket[i] < now - window
    ensures kept == Since(h, cut) && Tracks(kept, h, cut)
    ensures forall i :: 0 <= i < |kept| ==> kept[i] >= cut
  {
    kept := bucket;
    while kept != [] && now - kept[0] > window
      invariant Tracks(kept, h, cut)
      invariant forall i :: 0 <= i < |kept| ==> kept[i] < cut ==> kept[i] < now - window
      decreases |kept|
    {
      assert kept[0] == h[|h| - |kept|];
      kept := kept[1..];
    }
    PrunedIsSince(kept, h, cut);
    assert forall i :: 0 <= i < |kept| ==> kept[i] == h[|h| - |kept| + i];
  }
}
