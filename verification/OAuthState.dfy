/** Signed OAuth states with single use (app/core/oauth_state.py, app/core/oauth_nonce.py). */
module OAuthState {
  import opened Text
  import opened Oldest

  type Mac = string -> string

  // ---------- the state string ----------

  function SignState(mac: Mac, org: int, ts: int, nonce: string): string {
    var payload := Decimal(org) + (":" + (Decimal(ts) + (":" + nonce)));
    payload + (":" + mac(payload))
  }

  function ColonAt(s: string): (k: nat)
    ensures k <= |s|
  {
    if s == "" || s[0] == ':' then 0 else 1 + ColonAt(s[1..])
  }

  /** The four parts of `state.split(":", 3)`, if there are four. */
  datatype Parts = Parts(org: string, ts: string, nonce: string, sig: string)

  function Split(s: string): Option<Parts> {
    var i := ColonAt(s);
    if i == |s| then None
    else
      var s1 := s[i + 1..];
      var j := ColonAt(s1);
      if j == |s1| then None
      else
        var s2 := s1[j + 1..];
        var k := ColonAt(s2);
        if k == |s2| then None else Some(Parts(s[..i], s1[..j], s2[..k], s2[k + 1..]))
  }

  ghost predicate ColonFree(s: string) { forall i :: 0 <= i < |s| ==> s[i] != ':' }

  lemma {:induction false} ColonAfter(a: string, x: string)
    requires ColonFree(a)
    ensures ColonAt(a + (":" + x)) == |a|
  {
    var s := a + (":" + x);
    if a != "" {
      assert s[1..] == a[1..] + (":" + x);
      ColonAfter(a[1..], x);
    }
  }

  lemma SplitJoined(a: string, b: string, c: string, d: string)
    requires ColonFree(a) && ColonFree(b) && ColonFree(c)
    ensures Split(a + (":" + (b + (":" + (c + (":" + d)))))) == Some(Parts(a, b, c, d))
  {
    var s2 := c + (":" + d);
    var s1 := b + (":" + s2);
    CutAtColon(a, s1, a + (":" + s1));
    CutAtColon(b, s2, s1);
    CutAtColon(c, d, s2);
  }

  lemma CutAtColon(a: string, x: string, s: string)
    requires ColonFree(a) && s == a + (":" + x)
    ensures ColonAt(s) == |a| < |s| && s[..|a|] == a && s[|a| + 1..] == x
  {
    ColonAfter(a, x);
  }

  /** The checks made before the nonce is consumed; they yield the nonce. */
  function Check(mac: Mac, state: string, maxAge: int, expected: Option<int>, now: int): Option<string> {
    var parts := Split(state);
    if parts == None then None
    else
      var p := parts.value;
      if p.sig != mac(p.org + (":" + (p.ts + (":" + p.nonce)))) then None
      else if expected.Some? && ParseInt(p.org) != expected then None
      else if ParseInt(p.ts) == None || now - ParseInt(p.ts).value > maxAge then None
      else Some(p.nonce)
  }

  lemma {:induction false} ColonAtCuts(s: string)
    ensures ColonFree(s[..ColonAt(s)])
    ensures ColonAt(s) < |s| ==> s == s[..ColonAt(s)] + (":" + s[ColonAt(s) + 1..])
  {
    if s != "" && s[0] != ':' {
      ColonAtCuts(s[1..]);
      var k := ColonAt(s[1..]);
      var head, tail := s[..k + 1], s[1..][..k];
      assert head == [s[0]] + tail;
      assert forall i :: 0 <= i < |head| ==> head[i] == if i == 0 then s[0] else tail[i - 1];
      assert k < |s[1..]| ==> s == [s[0]] + s[1..];
    }
  }

  /** The parts are colon-free, but for the last one, and make up the text. */
  lemma SplitMakesUp(s: string)
    ensures Split(s).Some? ==>
              var p := Split(s).value;
              && ColonFree(p.org) && ColonFree(p.ts) && ColonFree(p.nonce)
              && s == p.org + (":" + (p.ts + (":" + (p.nonce + (":" + p.sig)))))
  {
    if Split(s).Some? {
      ColonAtCuts(s);
      var s1 := s[ColonAt(s) + 1..];
      ColonAtCuts(s1);
      ColonAtCuts(s1[ColonAt(s1) + 1..]);
    }
  }

  /** The state was signed under the key, for these three texts; it is for the expected
      organization, if one is named, and not too old. */
  ghost predicate Genuine(mac: Mac, state: string, maxAge: int, expected: Option<int>, now: int,
                          o: string, t: string, n: string) {
    && ColonFree(o) && ColonFree(t) && ColonFree(n)
    && state == (o + (":" + (t + (":" + n)))) + (":" + mac(o + (":" + (t + (":" + n)))))
    && (expected == None || ParseInt(o) == expected)
    && ParseInt(t).Some? && now - ParseInt(t).value <= maxAge
  }

  lemma Regroup(o: string, t: string, n: string, sig: string)
    ensures (o + (":" + (t + (":" + n)))) + (":" + sig) == o + (":" + (t + (":" + (n + (":" + sig)))))
  {
  }

  lemma GenuineSplits(mac: Mac, state: string, maxAge: int, expected: Option<int>, now: int, o: string, t: string, n: string)
    requires Genuine(mac, state, maxAge, expected, now, o, t, n)
    ensures Split(state) == Some(Parts(o, t, n, mac(o + (":" + (t + (":" + n))))))
  {
    var sig := mac(o + (":" + (t + (":" + n))));
    Regroup(o, t, n, sig);
    SplitJoined(o, t, n, sig);
  }

  /** Whatever passes the checks is genuine. */
  lemma PassedIsGenuine(mac: Mac, state: string, maxAge: int, expected: Option<int>, now: int) returns (p: Parts)
    requires Check(mac, state, maxAge, expected, now).Some?
    ensures Split(state) == Some(p) && Check(mac, state, maxAge, expected, now) == Some(p.nonce)
    ensures Genuine(mac, state, maxAge, expected, now, p.org, p.ts, p.nonce)
  {
    p := Split(state).value;
    SplitMakesUp(state);
    Regroup(p.org, p.ts, p.nonce, p.sig);
  }

  /** Whatever is genuine passes the checks. */
  lemma GenuinePasses(mac: Mac, state: string, maxAge: int, expected: Option<int>, now: int, o: string, t: string, n: string)
    requires Genuine(mac, state, maxAge, expected, now, o, t, n)
    ensures Check(mac, state, maxAge, expected, now) == Some(n)
  {
    GenuineSplits(mac, state, maxAge, expected, now, o, t, n);
  }

  /** A state with any other signature, for another organization, out of date, or with
      a time that is no number does not pass. */
  lemma BadStatesFail(mac: Mac, o: string, t: string, n: string, sig: string, maxAge: int, expected: Option<int>, now: int)
    requires ColonFree(o) && ColonFree(t) && ColonFree(n)
    requires sig != mac(o + (":" + (t + (":" + n)))) || (expected.Some? && ParseInt(o) != expected)
             || ParseInt(t) == None || now - ParseInt(t).value > maxAge
    ensures Check(mac, o + (":" + (t + (":" + (n + (":" + sig))))), maxAge, expected, now) == None
  {
    SplitJoined(o, t, n, sig);
  }

  /** A freshly signed state is genuine, for its own organization. */
  lemma SignedIsGenuine(mac: Mac, org: int, ts: int, nonce: string, maxAge: int, expected: Option<int>, now: int)
    requires ColonFree(nonce) && now - ts <= maxAge && (expected == None || expected == Some(org))
    ensures Genuine(mac, SignState(mac, org, ts, nonce), maxAge, expected, now, Decimal(org), Decimal(ts), nonce)
    ensures ParseInt(Decimal(org)) == Some(org) && ParseInt(Decimal(ts)) == Some(ts)
  {
    DecimalChars(org, ':');
    DecimalChars(ts, ':');
    ParseDecimal(org);
    ParseDecimal(ts);
  }

  // ---------- the nonce store ----------

  const MAX_NONCES := 10_000

  function NonceKey(namespace: string, nonce: string): string { namespace + (":" + nonce) }

  /** Different namespaces never share a key, as nonces hold no colon. */
  lemma NonceKeyInjective(a: string, m: string, b: string, n: string)
    requires ColonFree(m) && ColonFree(n) && NonceKey(a, m) == NonceKey(b, n)
    ensures a == b && m == n
  {
    var s, t := NonceKey(a, m), NonceKey(b, n);
    assert s[|a|] == ':' && t[|b|] == ':';
    assert forall i :: |a| < i < |s| ==> s[i] == m[i - |a| - 1];
    assert forall i :: |b| < i < |t| ==> t[i] == n[i - |b| - 1];
    assert |a| == |b|;
    assert a == s[..|a|] && b == t[..|b|] && m == s[|a| + 1..] && n == t[|b| + 1..];
  }

  /** `max(max_age_seconds, 1)` */
  function Lifetime(maxAge: int): real { if maxAge > 1 then maxAge as real else 1.0 }

  lemma LifetimeIsMax(maxAge: int)
    ensures var r := Lifetime(maxAge); r >= maxAge as real && r >= 1.0 && (r == maxAge as real || r == 1.0)
  {
  }

  function Prune(used: map<string, real>, now: real): map<string, real> {
    map k | k in used && used[k] > now :: used[k]
  }

  /** One accepted nonce. */
  datatype Use = Use(key: string, at: real, expiry: real)

  ghost predicate Spent(log: seq<Use>, key: string, now: real) {
    exists i :: 0 <= i < |log| && log[i].key == key && log[i].expiry > now
  }

  /** Unexpired uses are remembered, and nothing else is. */
  ghost predicate Remembers(used: map<string, real>, log: seq<Use>, now: real) {
    && (forall i :: 0 <= i < |log| && log[i].expiry > now ==> log[i].key in used && used[log[i].key] == log[i].expiry)
    && (forall k :: k in used && used[k] > now ==> Spent(log, k, now))
  }

  /** Uses of one key never overlap in time. */
  ghost predicate SingleUse(log: seq<Use>) {
    forall i, j :: 0 <= i < j < |log| && log[i].key == log[j].key ==> log[i].expiry <= log[j].at
  }

  lemma PruneRemembers(used: map<string, real>, log: seq<Use>, before: real, now: real)
    requires Remembers(used, log, before) && before <= now
    ensures Remembers(Prune(used, now), log, now)
    ensures forall k :: k in Prune(used, now) <==> Spent(log, k, now)
    ensures Prune(used, now).Keys <= used.Keys
  {
    var kept := Prune(used, now);
    forall k | k in kept ensures Spent(log, k, now) {
      var i :| 0 <= i < |log| && log[i].key == k && log[i].expiry > before;
      assert used[k] == log[i].expiry;
    }
  }

  lemma UseRemembers(used: map<string, real>, log: seq<Use>, u: Use)
    requires Remembers(used, log, u.at) && !Spent(log, u.key, u.at) && u.expiry > u.at
    ensures Remembers(used[u.key := u.expiry], log + [u], u.at)
  {
    var used', log' := used[u.key := u.expiry], log + [u];
    assert log'[|log|] == u;
    forall i | 0 <= i < |log| ensures log'[i] == log[i] && (log[i].expiry > u.at ==> log[i].key != u.key) {}
    forall k | k in used' && used'[k] > u.at ensures Spent(log', k, u.at) {
      if k != u.key {
        var i :| 0 <= i < |log| && log[i].key == k && log[i].expiry > u.at;
        assert log'[i].key == k;
      }
    }
  }

  lemma UseKeepsSingle(log: seq<Use>, u: Use)
    requires SingleUse(log) && !Spent(log, u.key, u.at)
    ensures SingleUse(log + [u])
  {
  }

  class NonceStore {
    const debug: bool
    var used: map<string, real>
    ghost var log: seq<Use>       // every accepted nonce, in order
    ghost var clock: real
    ghost var overflowed: bool    // whether the size cap ever evicted a live nonce

    ghost predicate Valid()
      reads this
    {
      && |used| <= MAX_NONCES
      && (!overflowed ==> Remembers(used, log, clock) && SingleUse(log))
    }

    constructor (debug: bool, now: real)
      ensures Valid() && this.debug == debug && used == map[] && log == [] && clock == now && !overflowed
    {
      this.debug := debug;
      used, log, clock, overflowed := map[], [], now, false;
    }

    /** Accepts a nonce unless an earlier use of it is still alive. Without Redis
        this is allowed in debug mode only. */
    method ConsumeOnce(namespace: string, nonce: string, maxAge: int, now: real) returns (ok: bool)
      requires Valid() && clock <= now
      modifies this
      ensures Valid() && clock == now
      ensures log == if ok then old(log) + [Use(NonceKey(namespace, nonce), now, now + Lifetime(maxAge))] else old(log)
      ensures !overflowed ==> (ok <==> debug && !Spent(old(log), NonceKey(namespace, nonce), now))
      ensures debug && !overflowed ==>
                used == if ok then Prune(old(used), now)[NonceKey(namespace, nonce) := now + Lifetime(maxAge)]
                        else Prune(old(used), now)
      ensures overflowed ==> old(overflowed) || |Prune(old(used), now)| >= MAX_NONCES
      ensures old(overflowed) ==> overflowed
    {
      ghost var before := clock;
      clock := now;
      if !debug {
        KeepWhileWaiting(before);
        return false;
      }
      ok := ConsumeInMemory(NonceKey(namespace, nonce), now, now + Lifetime(maxAge), before);
    }

    /** The in-memory path, in debug mode. */
    method ConsumeInMemory(key: string, now: real, expiry: real, ghost before: real) returns (ok: bool)
      requires clock == now && before <= now < expiry && |used| <= MAX_NONCES
      requires !overflowed ==> Remembers(used, log, before) && SingleUse(log)
      modifies this`used, this`log, this`overflowed
      ensures Valid()
      ensures log == if ok then old(log) + [Use(key, clock, expiry)] else old(log)
      ensures !overflowed ==> (ok <==> !Spent(old(log), key, clock))
      ensures !overflowed ==> used == if ok then Prune(old(used), clock)[key := expiry] else Prune(old(used), clock)
      ensures overflowed <==> old(overflowed) || |Prune(old(used), clock)| >= MAX_NONCES
    {
      ShrinkTo(now, before);
      ok := key !in used;
      if ok {
        Accept(Use(key, clock, expiry), key, expiry);
      }
    }

    /** Remembers an accepted nonce until it expires. */
    method Accept(ghost u: Use, key: string, expiry: real)
      requires |used| < MAX_NONCES && u == Use(key, clock, expiry) && clock < expiry
      requires !overflowed ==> Remembers(used, log, clock) && SingleUse(log) && !Spent(log, key, clock)
      modifies this`used, this`log
      ensures Valid() && log == old(log) + [u] && used == old(used)[key := expiry]
    {
      if !overflowed {
        UseRemembers(used, log, u);
        UseKeepsSingle(log, u);
      }
      used := used[key := expiry];
      log := log + [u];
    }

    /** Whether a nonce is marked inside its replay window. */
    method NonceSeen(namespace: string, nonce: string, now: real) returns (seen: bool)
      requires Valid() && clock <= now
      modifies this
      ensures Valid() && clock == now && log == old(log) && overflowed == old(overflowed)
      ensures !overflowed ==> (seen <==> !debug || Spent(log, NonceKey(namespace, nonce), now))
    {
      if !overflowed {
        PruneRemembers(used, log, clock, now);
      }
      ghost var before := clock;
      clock := now;
      if !debug {
        KeepWhileWaiting(before);
        return true;
      }
      SmallerMap(Prune(used, now), used);
      used := Prune(used, now);
      return NonceKey(namespace, nonce) in used;
    }

    /** Time passing alone keeps the store consistent. */
    lemma KeepWhileWaiting(before: real)
      requires before <= clock
      requires !overflowed ==> Remembers(used, log, before)
      ensures !overflowed ==> Remembers(used, log, clock)
    {
      if !overflowed {
        forall k | k in used && used[k] > clock ensures Spent(log, k, clock) {
          var i :| 0 <= i < |log| && log[i].key == k && log[i].expiry > before;
        }
      }
    }

    /** Prunes expired nonces and evicts the oldest ones when the cap is reached. */
    method ShrinkTo(now: real, ghost before: real)
      requires clock == now && before <= now && |used| <= MAX_NONCES
      requires !overflowed ==> Remembers(used, log, before) && SingleUse(log)
      modifies this`used, this`overflowed
      ensures |used| < MAX_NONCES
      ensures !overflowed ==> used == Prune(old(used), now) && Remembers(used, log, now)
      ensures !overflowed ==> forall k :: k in used <==> Spent(log, k, now)
      ensures overflowed <==> old(overflowed) || |Prune(old(used), now)| >= MAX_NONCES
    {
      if !overflowed {
        PruneRemembers(used, log, before, now);
      }
      used := Prune(used, now);
      SmallerMap(used, old(used));
      if |used| >= MAX_NONCES {
        overflowed := true;
        used := DropOldest(used, |used| - MAX_NONCES + 1);
      }
    }
  }

  lemma SmallerMap(a: map<string, real>, b: map<string, real>)
    requires a.Keys <= b.Keys
    ensures |a| <= |b|
  {
    assert b.Keys == a.Keys + (b.Keys - a.Keys);
    assert |a| == |a.Keys| && |b| == |b.Keys|;
  }

  // ---------- verification of a state ----------

  /** A use under an age limit keeps the next use of its key that many seconds away. */
  lemma UsesApart(log: seq<Use>, i: nat, j: nat, maxAge: int)
    requires SingleUse(log) && i < j < |log| && log[i].key == log[j].key
    requires log[i].expiry == log[i].at + Lifetime(maxAge)
    ensures log[j].at - log[i].at >= maxAge as real && log[j].at - log[i].at >= 1.0
  {
  }

  /** The state was accepted under the age limit at least one second after its timestamp
      (plus the time `lag` that the current verification takes between its clock reads). */
  ghost predicate SpentForGood(log: seq<Use>, key: string, ts: int, maxAge: int, lag: real) {
    exists i :: 0 <= i < |log| && log[i].key == key && log[i].at >= ts as real + 1.0 + lag
                && log[i].expiry == log[i].at + Lifetime(maxAge)
  }

  lemma NeverAgain(log: seq<Use>, key: string, ts: int, maxAge: int, now: real, later: real)
    requires SpentForGood(log, key, ts, maxAge, later - now) && now.Floor - ts <= maxAge
    ensures Spent(log, key, later)
  {
    var i :| 0 <= i < |log| && log[i].key == key && log[i].at >= ts as real + 1.0 + (later - now)
             && log[i].expiry == log[i].at + Lifetime(maxAge);
    assert now < now.Floor as real + 1.0;
    assert (now.Floor - ts) as real <= maxAge as real;
    assert log[i].expiry > later;
  }

  /** Verifies and consumes a state; `now` and `later` are its two clock reads.
      None stands for the HTTP 400 answer. */
  method VerifyState(mac: Mac, store: NonceStore, state: string, namespace: string, maxAge: int,
                     expected: Option<int>, now: real, later: real)
    returns (org: Option<int>)
    requires store.Valid() && 0.0 <= now <= later && store.clock <= later
    modifies store
    ensures store.Valid()
    // an accepted state is genuine, was free, and is now used
    ensures org.Some? ==>
              exists o, t, n :: Genuine(mac, state, maxAge, expected, now.Floor, o, t, n) && org == ParseInt(o)
                && store.log == old(store.log) + [Use(NonceKey(namespace, n), later, later + Lifetime(maxAge))]
                && (!store.overflowed ==> store.debug && !Spent(old(store.log), NonceKey(namespace, n), later))
    // a genuine state for a number is accepted while it is free
    ensures forall o, t, n :: Genuine(mac, state, maxAge, expected, now.Floor, o, t, n) ==>
              (ParseInt(o).Some? && store.debug && !store.overflowed && !Spent(old(store.log), NonceKey(namespace, n), later) ==>
                 org == ParseInt(o))
    // a refusal uses nothing, unless it is for an organization that is no number
    ensures org == None && store.log != old(store.log) ==>
              exists o, t, n :: Genuine(mac, state, maxAge, expected, now.Floor, o, t, n) && ParseInt(o) == None
    // a state accepted a second after its timestamp is dead for good
    ensures forall o, t, n :: Genuine(mac, state, maxAge, expected, now.Floor, o, t, n) ==>
              (!store.overflowed && SpentForGood(old(store.log), NonceKey(namespace, n), ParseInt(t).value, maxAge, later - now) ==>
                 org == None)
  {
    var nonce := Check(mac, state, maxAge, expected, now.Floor);
    if nonce == None {
      forall o, t, n ensures !Genuine(mac, state, maxAge, expected, now.Floor, o, t, n) {
        if Genuine(mac, state, maxAge, expected, now.Floor, o, t, n) {
          GenuinePasses(mac, state, maxAge, expected, now.Floor, o, t, n);
          assert false;
        }
      }
      return None;
    }
    ghost var p := PassedIsGenuine(mac, state, maxAge, expected, now.Floor);
    forall o, t, n | Genuine(mac, state, maxAge, expected, now.Floor, o, t, n)
      ensures o == p.org && t == p.ts && n == p.nonce
    {
      GenuineSplits(mac, state, maxAge, expected, now.Floor, o, t, n);
    }
    ghost var key, ts := NonceKey(namespace, p.nonce), ParseInt(p.ts).value;
    if SpentForGood(store.log, key, ts, maxAge, later - now) {
      NeverAgain(store.log, key, ts, maxAge, now, later);
    }
    var first := store.ConsumeOnce(namespace, nonce.value, maxAge, later);
    if !first {
      return None;
    }
    return ParseInt(Split(state).value.org);
  }

  /** A signed state used for the first time, in time, yields its organization. */
  method FirstUse(mac: Mac, store: NonceStore, namespace: string, org: int, ts: int, nonce: string,
                  maxAge: int, now: real, later: real)
    returns (answer: Option<int>)
    requires store.Valid() && 0.0 <= now <= later && store.clock <= later && store.debug
    requires ColonFree(nonce) && now.Floor - ts <= maxAge
    requires !Spent(store.log, NonceKey(namespace, nonce), later)
    modifies store
    ensures store.Valid() && (!store.overflowed ==> answer == Some(org))
  {
    SignedIsGenuine(mac, org, ts, nonce, maxAge, None, now.Floor);
    answer := VerifyState(mac, store, SignState(mac, org, ts, nonce), namespace, maxAge, None, now, later);
  }
}
