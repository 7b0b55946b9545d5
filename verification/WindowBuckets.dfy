/** Tables of pruned buckets, one per key, shared by the limiters and the tracker of
    failed logins (app/core/middleware.py). An entry is accepted when fewer than
    `most` accepted entries of its key lie in the window. */
module WindowBuckets {
  import opened TimeWindow

  /** A bucket stands for the history of its key at the given time: it holds the
      accepted entries without some that are stale, and never more than allowed. */
  ghost predicate Sane(bucket: Times, h: Times, most: int, window: real, clock: real) {
    && Ordered(h) && (h != [] ==> h[|h| - 1] <= clock)
    && Tracks(bucket, h, clock - window)
    && AdmittedBy(h, most, window) && |bucket| <= Cap(most)
  }

  ghost predicate AllSane(buckets: Buckets, hist: Buckets, most: int, window: real, clock: real) {
    forall k :: Sane(Get(buckets, k), Get(hist, k), most, window, clock)
  }

  lemma SaneLater(buckets: Buckets, hist: Buckets, most: int, window: real, clock: real, now: real)
    requires AllSane(buckets, hist, most, window, clock) && clock <= now
    ensures AllSane(buckets, hist, most, window, now)
  {
  }

  /** The newest entry of a bucket tells whether any entry is recent. */
  lemma LastIsRecent(bucket: Times, h: Times, most: int, window: real, now: real)
    requires Sane(bucket, h, most, window, now)
    ensures bucket != [] && now - bucket[|bucket| - 1] <= window <==> Recent(h, now, window) != []
  {
    if bucket != [] {
      assert bucket[|bucket| - 1] == h[|h| - 1];
    }
    if h == [] || h[|h| - 1] < now - window {
      SinceNothing(h, now - window);
    }
  }

  /** Sweeping forgets only what no later decision can count. */
  lemma SweepSane(buckets: Buckets, hist: Buckets, most: int, window: real, now: real)
    requires AllSane(buckets, hist, most, window, now)
    ensures AllSane(Sweep(buckets, now, window), hist, most, window, now)
    ensures |Sweep(buckets, now, window)| <= |buckets|
  {
    var kept := Sweep(buckets, now, window);
    assert kept.Keys <= buckets.Keys;
    SubsetSize(kept.Keys, buckets.Keys);
    forall k ensures Sane(Get(kept, k), Get(hist, k), most, window, now) {
      assert Sane(Get(buckets, k), Get(hist, k), most, window, now);
      if k !in kept {
        TracksForget(Get(buckets, k), Get(hist, k), now - window);
      }
    }
  }

  lemma {:induction false} SaneAppend(bucket: Times, h: Times, most: int, window: real, now: real)
    requires Sane(bucket, h, most, window, now) && |Recent(h, now, window)| < most && |bucket| < most
    ensures Sane(bucket + [now], h + [now], most, window, now)
  {
    TracksAppend(bucket, h, now - window, now);
    OrderedAppend(h, now);
    AdmittedAppend(h, now, most, window);
  }

  /** One entry judged on its bucket. */
  method Judge(bucket: Times, now: real, most: int, window: real, ghost h: Times) returns (ok: bool, next: Times)
    requires Sane(bucket, h, most, window, now)
    ensures ok <==> |Recent(h, now, window)| < most
    ensures next == Grown(Recent(h, now, window), now, ok)
    ensures Sane(next, Grown(h, now, ok), most, window, now)
  {
    next := PopStale(bucket, now, window, h);
    ok := |next| < most;
    assert Sane(next, h, most, window, now);
    if ok {
      SaneAppend(next, h, most, window, now);
      next := next + [now];
    }
  }

  lemma SaneUpdate(buckets: Buckets, hist: Buckets, most: int, window: real, now: real,
                   ip: string, next: Times, ok: bool)
    requires AllSane(buckets, hist, most, window, now)
    requires Sane(next, Grown(Get(hist, ip), now, ok), most, window, now)
    ensures AllSane(buckets[ip := next], Extended(hist, ip, now, ok), most, window, now)
  {
    forall k ensures Sane(Get(buckets[ip := next], k), Get(Extended(hist, ip, now, ok), k), most, window, now) {
      GetUpdated(buckets, ip, next, k);
      GetExtended(hist, ip, now, ok, k);
      assert Sane(Get(buckets, k), Get(hist, k), most, window, now);
    }
  }

  /** Forgetting a key together with its history. */
  lemma SaneClear(buckets: Buckets, hist: Buckets, most: int, window: real, now: real, key: string)
    requires AllSane(buckets, hist, most, window, now)
    ensures AllSane(buckets - {key}, hist - {key}, most, window, now)
  {
  }

  /** One entry judged in the whole table. */
  method JudgeIn(kept: Buckets, ip: string, now: real, most: int, window: real, ghost hist: Buckets)
    returns (ok: bool, next: Times)
    requires AllSane(kept, hist, most, window, now)
    ensures ok <==> |Recent(Get(hist, ip), now, window)| < most
    ensures next == Grown(Recent(Get(hist, ip), now, window), now, ok)
    ensures AllSane(kept[ip := next], Extended(hist, ip, now, ok), most, window, now)
  {
    assert Sane(Get(kept, ip), Get(hist, ip), most, window, now);
    ok, next := Judge(Get(kept, ip), now, most, window, Get(hist, ip));
    SaneUpdate(kept, hist, most, window, now, ip, next, ok);
  }
}
