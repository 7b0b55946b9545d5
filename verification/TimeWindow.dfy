/** Time-stamped buckets pruned from the left, and the full histories they stand for. */
module TimeWindow {

  type Times = seq<real>

  ghost predicate Ordered(s: Times) {
    forall i, j :: 0 <= i < j < |s| ==> s[i] <= s[j]
  }

  /** The entries at or after `cut`. */
  function Since(s: Times, cut: real): Times {
    if s == [] then []
    else Since(s[..|s| - 1], cut) + if s[|s| - 1] >= cut then [s[|s| - 1]] else []
  }

  /** The entries at most `window` old. */
  function Recent(s: Times, now: real, window: real): Times {
    Since(s, now - window)
  }

  function Between(s: Times, a: real, b: real): Times {
    if s == [] then []
    else Between(s[..|s| - 1], a, b) + if a <= s[|s| - 1] <= b then [s[|s| - 1]] else []
  }

  function Get<K, V>(m: map<K, seq<V>>, k: K): seq<V> {
    if k in m then m[k] else []
  }

  /** The bucket is the history without some entries older than `cut`. */
  ghost predicate Tracks(bucket: Times, history: Times, cut: real) {
    && |bucket| <= |history|
    && bucket == history[|history| - |bucket|..]
    && forall i :: 0 <= i < |history| - |bucket| ==> history[i] < cut
  }

  lemma {:induction false} SinceNothing(s: Times, cut: real)
    requires forall i :: 0 <= i < |s| ==> s[i] < cut
    ensures Since(s, cut) == []
  {
    if s != [] {
      SinceNothing(s[..|s| - 1], cut);
    }
  }

  lemma {:induction false} SinceSplit(s: Times, n: nat, cut: real)
    requires n <= |s|
    requires forall i :: 0 <= i < n ==> s[i] < cut
    requires forall i :: n <= i < |s| ==> s[i] >= cut
    ensures Since(s, cut) == s[n..]
  {
    if n == |s| {
      SinceNothing(s, cut);
    } else {
      SinceSplit(s[..|s| - 1], n, cut);
      assert s[n..] == s[..|s| - 1][n..] + [s[|s| - 1]];
    }
  }

  /** Which entries lie between two times. */
  ghost function Within(s: Times, a: real, b: real): set<nat> {
    set i: nat | i < |s| && a <= s[i] <= b
  }

  ghost function Later(s: Times, cut: real): set<nat> {
    set i: nat | i < |s| && s[i] >= cut
  }

  /** The entries between two times, counted. */
  lemma {:induction false} BetweenCounts(s: Times, a: real, b: real)
    ensures |Between(s, a, b)| == |Within(s, a, b)|
  {
    if s != [] {
      var n := |s| - 1;
      BetweenCounts(s[..n], a, b);
      if a <= s[n] <= b {
        assert Within(s, a, b) == Within(s[..n], a, b) + {n};
      } else {
        assert Within(s, a, b) == Within(s[..n], a, b);
      }
    }
  }

  lemma {:induction false} SinceCounts(s: Times, cut: real)
    ensures |Since(s, cut)| == |Later(s, cut)|
  {
    if s != [] {
      var n := |s| - 1;
      SinceCounts(s[..n], cut);
      if s[n] >= cut {
        assert Later(s, cut) == Later(s[..n], cut) + {n};
      } else {
        assert Later(s, cut) == Later(s[..n], cut);
      }
    }
  }

  /** A pruned bucket holds exactly the recent part of the history. */
  lemma PrunedIsSince(bucket: Times, history: Times, cut: real)
    requires Ordered(history) && Tracks(bucket, history, cut)
    requires bucket != [] ==> bucket[0] >= cut
    ensures bucket == Since(history, cut)
  {
    var n := |history| - |bucket|;
    forall i | n <= i < |history| ensures history[i] >= cut {
      assert history[n] == bucket[0];
    }
    SinceSplit(history, n, cut);
  }

  /** `while bucket and now - bucket[0] > window: bucket.popleft()` */
  method PopStale(bucket: Times, now: real, window: real, ghost history: Times) returns (kept: Times)
    requires Ordered(history) && Tracks(bucket, history, now - window)
    ensures kept == Recent(history, now, window) && Tracks(kept, history, now - window)
    ensures |kept| <= |bucket|
  {
    kept := bucket;
    while kept != [] && now - kept[0] > window
      invariant |kept| <= |bucket| && Tracks(kept, history, now - window)
      decreases |kept|
    {
      assert kept[0] == history[|history| - |kept|];
      kept := kept[1..];
    }
    PrunedIsSince(kept, history, now - window);
  }

  lemma TracksAppend(bucket: Times, history: Times, cut: real, t: real)
    requires Tracks(bucket, history, cut)
    ensures Tracks(bucket + [t], history + [t], cut)
  {
  }

  lemma OrderedAppend(s: Times, t: real)
    requires Ordered(s) && (s != [] ==> s[|s| - 1] <= t)
    ensures Ordered(s + [t])
  {
  }

  /** A bucket whose newest entry is stale may be forgotten. */
  lemma TracksForget(bucket: Times, history: Times, cut: real)
    requires Ordered(history) && Tracks(bucket, history, cut)
    requires bucket == [] || bucket[|bucket| - 1] < cut
    ensures Tracks([], history, cut)
  {
  }

  // ---------- one bucket per key ----------

  type Buckets = map<string, Times>

  /** Drops every bucket that is empty or whose newest entry is stale. */
  function Sweep(buckets: Buckets, now: real, window: real): Buckets {
    map k | k in buckets && buckets[k] != [] && now - buckets[k][|buckets[k]| - 1] <= window :: buckets[k]
  }

  function Grown(s: Times, now: real, ok: bool): Times { if ok then s + [now] else s }

  /** The histories after an entry of one key was accepted or turned away. */
  ghost function Extended(hist: Buckets, key: string, now: real, ok: bool): Buckets {
    if ok then hist[key := Get(hist, key) + [now]] else hist
  }

  lemma GetUpdated(m: Buckets, key: string, s: Times, k: string)
    ensures Get(m[key := s], k) == if k == key then s else Get(m, k)
  {
  }

  lemma GetExtended(hist: Buckets, key: string, now: real, ok: bool, k: string)
    ensures Get(Extended(hist, key, now, ok), k) == if k == key then Grown(Get(hist, key), now, ok) else Get(hist, k)
  {
  }

  lemma SubsetSize<T>(a: set<T>, b: set<T>)
    requires a <= b
    ensures |a| <= |b|
  {
    assert b == a + (b - a);
  }

  // ---------- rate bounds over a whole history ----------

  function Cap(most: int): nat { if most > 0 then most else 0 }

  /** Each entry was admitted with fewer than `most` entries in its window. */
  ghost predicate AdmittedBy(s: Times, most: int, window: real) {
    forall k :: 0 <= k < |s| ==> |Recent(s[..k], s[k], window)| < most
  }

  lemma AdmittedAppend(s: Times, t: real, most: int, window: real)
    requires AdmittedBy(s, most, window) && |Recent(s, t, window)| < most
    ensures AdmittedBy(s + [t], most, window)
  {
    var u := s + [t];
    forall k | 0 <= k < |u| ensures |Recent(u[..k], u[k], window)| < most {
      if k < |s| {
        assert u[..k] == s[..k];
      } else {
        assert u[..k] == s;
      }
    }
  }

  lemma {:induction false} BetweenWithinSince(s: Times, a: real, b: real, cut: real)
    requires cut <= a
    ensures |Between(s, a, b)| <= |Since(s, cut)|
  {
    if s != [] {
      BetweenWithinSince(s[..|s| - 1], a, b, cut);
    }
  }

  /** No closed interval as long as the window holds more than `most` entries. */
  lemma {:induction false} WindowBound(s: Times, most: int, window: real, a: real)
    requires AdmittedBy(s, most, window)
    ensures |Between(s, a, a + window)| <= Cap(most)
  {
    if s != [] {
      var t, before := s[|s| - 1], s[..|s| - 1];
      assert AdmittedBy(before, most, window) by {
        forall k | 0 <= k < |before| ensures |Recent(before[..k], before[k], window)| < most {
          assert before[..k] == s[..k];
        }
      }
      WindowBound(before, most, window, a);
      if a <= t <= a + window {
        BetweenWithinSince(before, a, a + window, t - window);
        assert |Recent(s[..|s| - 1], s[|s| - 1], window)| < most;
      }
    }
  }
}
