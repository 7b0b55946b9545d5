/** The in-memory tracker of failed logins (app/core/middleware.py). */
module LoginTracker {
  import opened TimeWindow
  import opened WindowBuckets

  /** Cap on the number of addresses that are tracked. */
  const MAX_IPS := 10_000

  function NonEmpty(buckets: Buckets): set<string> {
    set ip | ip in buckets && buckets[ip] != []
  }

  /** Addresses with a recorded, uncleared failure inside the window. */
  function Live(recorded: Buckets, now: real, window: real): set<string> {
    set ip | ip in recorded && Recent(recorded[ip], now, window) != []
  }

  /** What survives the sweep is exactly the set of live addresses. */
  lemma SweepKeepsLive(buckets: Buckets, recorded: Buckets, most: int, window: real, now: real)
    requires AllSane(buckets, recorded, most, window, now)
    ensures var kept := Sweep(buckets, now, window);
            && kept.Keys == Live(recorded, now, window) == NonEmpty(kept)
            && kept.Keys <= NonEmpty(buckets)
            && AllSane(kept, recorded, most, window, now)
  {
    var kept := Sweep(buckets, now, window);
    forall ip ensures ip in kept <==> ip in Live(recorded, now, window) {
      assert Sane(Get(buckets, ip), Get(recorded, ip), most, window, now);
      LastIsRecent(Get(buckets, ip), Get(recorded, ip), most, window, now);
    }
    SweepSane(buckets, recorded, most, window, now);
  }

  /** Live addresses always have a bucket. */
  lemma LiveHaveBuckets(buckets: Buckets, recorded: Buckets, most: int, window: real, now: real)
    requires AllSane(buckets, recorded, most, window, now)
    ensures Live(recorded, now, window) <= NonEmpty(buckets)
    ensures |Live(recorded, now, window)| <= |NonEmpty(buckets)| <= |buckets|
  {
    SweepKeepsLive(buckets, recorded, most, window, now);
    SubsetSize(Live(recorded, now, window), NonEmpty(buckets));
    assert NonEmpty(buckets) <= buckets.Keys;
    SubsetSize(NonEmpty(buckets), buckets.Keys);
  }

  /** A new failure is turned away only when MAX_IPS other addresses are live. */
  ghost predicate Full(recorded: Buckets, ip: string, now: real, window: real) {
    |Live(recorded, now, window)| >= MAX_IPS && ip !in Live(recorded, now, window)
  }

  /** Storing a bucket adds one address at most. */
  lemma StoredSize(buckets: Buckets, ip: string, bucket: Times)
    ensures |NonEmpty(buckets[ip := bucket])| <= |buckets[ip := bucket]|
    ensures |buckets[ip := bucket]| == |buckets| + if ip in buckets then 0 else 1
  {
    SubsetSize(NonEmpty(buckets[ip := bucket]), buckets[ip := bucket].Keys);
  }

  /** Evicts stale addresses when more than half of the cap is in use. */
  method MakeRoom(buckets: Buckets, now: real, window: real, ghost most: int, ghost recorded: Buckets, ghost ip: string)
    returns (kept: Buckets)
    requires AllSane(buckets, recorded, most, window, now) && |NonEmpty(buckets)| <= MAX_IPS
    ensures kept == if |buckets| > MAX_IPS / 2 then Sweep(buckets, now, window) else buckets
    ensures AllSane(kept, recorded, most, window, now) && |kept| <= MAX_IPS
    ensures |kept| >= MAX_IPS && ip !in kept <==> Full(recorded, ip, now, window)
  {
    LiveHaveBuckets(buckets, recorded, most, window, now);
    if |buckets| <= MAX_IPS / 2 {
      return buckets;
    }
    SweepKeepsLive(buckets, recorded, most, window, now);
    kept := Sweep(buckets, now, window);
    SubsetSize(kept.Keys, NonEmpty(buckets));
    assert |kept| == |kept.Keys|;
  }

  /** One failure recorded in the table, or turned away. */
  method RecordIn(buckets: Buckets, ip: string, now: real, most: int, window: real, ghost recorded: Buckets)
    returns (ok: bool, next: Buckets)
    requires AllSane(buckets, recorded, most, window, now) && |NonEmpty(buckets)| <= MAX_IPS
    ensures ok <==> !Full(recorded, ip, now, window) && |Recent(Get(recorded, ip), now, window)| < most
    ensures AllSane(next, Extended(recorded, ip, now, ok), most, window, now)
    ensures |NonEmpty(next)| <= |next| <= MAX_IPS
  {
    next := MakeRoom(buckets, now, window, most, recorded, ip);
    SubsetSize(NonEmpty(next), next.Keys);
    if |next| >= MAX_IPS && ip !in next {
      return false, next;
    }
    var bucket;
    ok, bucket := JudgeIn(next, ip, now, most, window, recorded);
    StoredSize(next, ip, bucket);
    next := next[ip := bucket];
  }

  class FailureTracker {
    const most: nat       // LOGIN_FAIL_MAX
    const window: real    // LOGIN_FAIL_WINDOW
    var buckets: Buckets
    ghost var recorded: Buckets   // failures recorded and not cleared, per address
    ghost var clock: real

    ghost predicate Valid()
      reads this
    {
      && AllSane(buckets, recorded, most, window, clock)
      && |NonEmpty(buckets)| <= MAX_IPS
    }

    constructor (most: nat, window: real, now: real)
      ensures Valid() && buckets == map[] && recorded == map[] && clock == now
      ensures this.most == most && this.window == window
    {
      this.most, this.window := most, window;
      buckets, recorded, clock := map[], map[], now;
      new;
      assert NonEmpty(map[]) == {};
    }

    /** Answers exactly by the recorded, uncleared failures in the window. */
    method CheckLoginAllowed(ip: string, now: real) returns (ok: bool)
      requires Valid() && clock <= now
      modifies this
      ensures Valid() && clock == now && recorded == old(recorded)
      ensures ok <==> |Recent(Get(recorded, ip), now, window)| < most
      ensures buckets == old(buckets)[ip := Recent(Get(recorded, ip), now, window)]
    {
      SaneLater(buckets, recorded, most, window, clock, now);
      assert Sane(Get(buckets, ip), Get(recorded, ip), most, window, now);
      var bucket := PopStale(Get(buckets, ip), now, window, Get(recorded, ip));
      ok := |bucket| < most;
      SaneUpdate(buckets, recorded, most, window, now, ip, bucket, false);
      ghost var before := NonEmpty(buckets);
      buckets := buckets[ip := bucket];
      SubsetSize(NonEmpty(buckets), before);
      clock := now;
    }

    /** Records a failure, unless the address is at its limit or the table is full. */
    method RecordLoginFailure(ip: string, now: real)
      requires Valid() && clock <= now
      modifies this
      ensures Valid() && clock == now
      ensures recorded ==
              if !Full(old(recorded), ip, now, window) && |Recent(Get(old(recorded), ip), now, window)| < most
              then old(recorded)[ip := Get(old(recorded), ip) + [now]] else old(recorded)
      ensures |buckets| <= MAX_IPS
    {
      SaneLater(buckets, recorded, most, window, clock, now);
      var ok, next := RecordIn(buckets, ip, now, most, window, recorded);
      buckets, recorded, clock := next, Extended(recorded, ip, now, ok), now;
    }

    /** Forgets the failures of one address after a successful login. */
    method ClearLoginFailures(ip: string)
      requires Valid()
      modifies this
      ensures Valid() && clock == old(clock)
      ensures recorded == old(recorded) - {ip} && buckets == old(buckets) - {ip}
    {
      ghost var before := NonEmpty(buckets);
      SaneClear(buckets, recorded, most, window, clock, ip);
      buckets := buckets - {ip};
      recorded := recorded - {ip};
      SubsetSize(NonEmpty(buckets), before);
    }

    /** The bounds that hold between any two calls; no window ever holds more than
        the allowed number of recorded failures. */
    lemma Bounds(ip: string, a: real)
      requires Valid()
      ensures |NonEmpty(buckets)| <= MAX_IPS && |Get(buckets, ip)| <= most
      ensures |Within(Get(recorded, ip), a, a + window)| <= most
    {
      BetweenCounts(Get(recorded, ip), a, a + window);
      assert Sane(Get(buckets, ip), Get(recorded, ip), most, window, clock);
      WindowBound(Get(recorded, ip), most, window, a);
    }
  }
}
