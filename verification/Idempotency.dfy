/** The in-memory cache of idempotent responses (app/core/idempotency.py). */
module Idempotency {
  import opened Text
  import opened Oldest
  import opened Json
  import opened Documents

  function TtlSeconds(setting: int): int { if setting >= 60 then setting else 1800 }

  function MaxItems(setting: int): nat { if setting >= 100 then setting else 5000 }

  function CacheKey(scope: string, key: string): string { scope + ":" + key }

  /** Scopes without colons share no keys. */
  lemma KeysApart(s: string, k: string, t: string, j: string)
    requires Without(s, ':') && Without(t, ':') && CacheKey(s, k) == CacheKey(t, j)
    ensures s == t && k == j
  {
    var a, b := CacheKey(s, k), CacheKey(t, j);
    assert a[|s|] == ':' && b[|t|] == ':';
    assert forall i :: 0 <= i < |s| ==> a[i] == s[i];
    assert forall i :: 0 <= i < |t| ==> b[i] == t[i];
    assert |s| == |t|;
    assert s == a[..|s|] && t == b[..|t|] && k == a[|s| + 1..] && j == b[|t| + 1..];
  }

  datatype Entry = Entry(stamp: real, payload: Node, fingerprint: Option<string>)

  type Entries = map<string, Entry>

  /** The write that the last accepted store made under a key. */
  datatype Write = Write(at: real, value: Json, fingerprint: Option<string>)

  datatype Lookup = Miss | Hit(payload: Node) | Conflict

  /** Two fingerprints that must not share a key: the request names a non-empty
      one and a different one was stored. */
  predicate Clash(stored: Option<string>, asked: Option<string>) {
    stored.Some? && asked.Some? && asked.value != "" && stored != asked
  }

  predicate IsLive(e: Entry, now: real, ttl: real) { now - e.stamp <= ttl }

  function Live(entries: Entries, now: real, ttl: real): Entries {
    map k | k in entries && IsLive(entries[k], now, ttl) :: entries[k]
  }

  function Stamps(entries: Entries): map<string, real> {
    map k | k in entries :: entries[k].stamp
  }

  ghost predicate EvictedFrom(live: Entries, kept: Entries, gone: string) { gone in live && gone !in kept }

  ghost predicate KeptFrom(entries: Entries, kept: Entries, now: real, ttl: real) {
    forall k :: k in kept ==> k in entries && kept[k] == entries[k] && IsLive(kept[k], now, ttl)
  }

  /** Size eviction takes only as many entries as it must, and only oldest ones. */
  ghost predicate TrimmedTo(live: Entries, kept: Entries, most: nat) {
    && |kept| == (if |live| > most then most else |live|)
    && forall gone, k :: EvictedFrom(live, kept, gone) && k in kept ==> live[gone].stamp <= kept[k].stamp
  }

  ghost predicate CleanedUp(entries: Entries, kept: Entries, now: real, ttl: real, most: nat) {
    KeptFrom(entries, kept, now, ttl) && TrimmedTo(Live(entries, now, ttl), kept, most)
  }

  /** Keeps the entries that `sorted(...)[: len - most]` does not name. */
  method Trim(live: Entries, most: nat) returns (kept: Entries)
    ensures TrimmedTo(live, kept, most)
    ensures forall k :: k in kept ==> k in live && kept[k] == live[k]
  {
    kept := live;
    if |live| > most {
      assert Stamps(live).Keys == live.Keys;
      assert |Stamps(live)| == |Stamps(live).Keys| && |live| == |live.Keys|;
      var stamps := DropOldest(Stamps(live), |live| - most);
      kept := map k | k in live && k in stamps :: live[k];
      assert kept.Keys == stamps.Keys;
      assert |stamps| == |stamps.Keys| && |kept| == |kept.Keys|;
    }
  }

  /** `_cleanup` */
  method Cleanup(entries: Entries, now: real, ttl: real, most: nat) returns (kept: Entries)
    ensures CleanedUp(entries, kept, now, ttl, most)
  {
    kept := Live(entries, now, ttl);
    kept := Trim(kept, most);
  }

  /** Under key k the cache shows the last accepted write, in an object of its
      own, or misses a write that is too old or was evicted for size. */
  ghost predicate Correct(entries: Entries, writes: map<string, Write>, evicted: set<string>, owned: set<Node>,
                          clock: real, ttl: real, k: string)
    reads owned
  {
    if k in entries then k in writes && k !in evicted && Shows(entries[k], writes[k], owned)
    else k in writes ==> k in evicted || clock - writes[k].at > ttl
  }

  ghost predicate Shows(e: Entry, w: Write, owned: set<Node>)
    reads owned
  {
    && e.payload in owned && e.payload.Repr <= owned && e.payload.Valid() && e.payload.View() == w.value
    && e.stamp == w.at && e.fingerprint == w.fingerprint
  }

  ghost predicate AllCorrect(entries: Entries, writes: map<string, Write>, evicted: set<string>, owned: set<Node>,
                             clock: real, ttl: real)
    reads owned
  {
    forall k :: Correct(entries, writes, evicted, owned, clock, ttl, k)
  }

  ghost predicate NewlyEvicted(before: set<string>, after: set<string>, k: string) { k in after && k !in before }

  /** Evictions happen only to a full cache, and only to the oldest writes. */
  ghost predicate OldestEvicted(before: set<string>, after: set<string>, entries: Entries, writes: map<string, Write>,
                                most: nat) {
    && before <= after
    && (before != after ==> |entries| == most)
    && forall gone, k :: NewlyEvicted(before, after, gone) && k in entries ==>
         gone in writes && writes[gone].at <= entries[k].stamp
  }

  /** The keys that a cleanup drops although they are not stale. */
  ghost function Dropped(entries: Entries, kept: Entries, now: real, ttl: real): set<string> {
    Live(entries, now, ttl).Keys - kept.Keys
  }

  lemma CorrectAfterCleanup(entries: Entries, kept: Entries, writes: map<string, Write>, evicted: set<string>,
                            owned: set<Node>, clock: real, now: real, ttl: real)
    requires AllCorrect(entries, writes, evicted, owned, clock, ttl) && clock <= now
    requires KeptFrom(entries, kept, now, ttl)
    ensures AllCorrect(kept, writes, evicted + Dropped(entries, kept, now, ttl), owned, now, ttl)
  {
    var next := evicted + Dropped(entries, kept, now, ttl);
    forall k ensures Correct(kept, writes, next, owned, now, ttl, k) {
      assert Correct(entries, writes, evicted, owned, clock, ttl, k);
    }
  }

  lemma OldestAreEvicted(entries: Entries, kept: Entries, writes: map<string, Write>, evicted: set<string>,
                         owned: set<Node>, clock: real, now: real, ttl: real, most: nat)
    requires AllCorrect(entries, writes, evicted, owned, clock, ttl)
    requires CleanedUp(entries, kept, now, ttl, most)
    ensures OldestEvicted(evicted, evicted + Dropped(entries, kept, now, ttl), kept, writes, most)
  {
    var live := Live(entries, now, ttl);
    NothingDropped(live, kept, most);
    forall gone, k | NewlyEvicted(evicted, evicted + Dropped(entries, kept, now, ttl), gone) && k in kept
      ensures gone in writes && writes[gone].at <= kept[k].stamp
    {
      assert EvictedFrom(live, kept, gone);
      assert Correct(entries, writes, evicted, owned, clock, ttl, gone);
    }
  }

  lemma NothingDropped(live: Entries, kept: Entries, most: nat)
    requires TrimmedTo(live, kept, most) && kept.Keys <= live.Keys
    ensures live.Keys != kept.Keys ==> |kept| == most
  {
    assert |kept.Keys| == |kept| && |live.Keys| == |live|;
    assert live.Keys == kept.Keys + (live.Keys - kept.Keys);
  }

  lemma CorrectAfterWrite(entries: Entries, writes: map<string, Write>, evicted: set<string>, owned: set<Node>,
                          clock: real, ttl: real, k: string, copy: Node, view: Json, fingerprint: Option<string>)
    requires AllCorrect(entries, writes, evicted, owned, clock, ttl) && copy.Valid() && copy.View() == view
    ensures AllCorrect(entries[k := Entry(clock, copy, fingerprint)], writes[k := Write(clock, view, fingerprint)],
                       evicted - {k}, owned + copy.Repr, clock, ttl)
  {
    var entries', writes' := entries[k := Entry(clock, copy, fingerprint)], writes[k := Write(clock, view, fingerprint)];
    forall j ensures Correct(entries', writes', evicted - {k}, owned + copy.Repr, clock, ttl, j) {
      assert Correct(entries, writes, evicted, owned, clock, ttl, j);
    }
  }

  /** What the tidied entries say about one key. */
  lemma WhatIsShown(entries: Entries, writes: map<string, Write>, evicted: set<string>, owned: set<Node>,
                    now: real, ttl: real, k: string)
    requires AllCorrect(entries, writes, evicted, owned, now, ttl) && KeptFrom(entries, entries, now, ttl)
    ensures k in entries ==>
              k in writes && k !in evicted && now - writes[k].at <= ttl && Shows(entries[k], writes[k], owned)
    ensures k !in entries ==> k !in writes || k in evicted || now - writes[k].at > ttl
  {
    assert Correct(entries, writes, evicted, owned, now, ttl, k);
  }

  /** A store is refused exactly on a clash with a live entry, and then changes
      nothing; otherwise it replaces the entry of its key only. */
  ghost predicate StoredAs(ok: bool, tidy: Entries, gone: set<string>, k: string, e: Entry,
                           before: map<string, Write>, w: Write,
                           entries: Entries, writes: map<string, Write>, evicted: set<string>) {
    && (ok <==> k !in tidy || tidy[k].fingerprint == None || e.fingerprint in {None, Some(""), tidy[k].fingerprint})
    && entries == (if ok then tidy[k := e] else tidy)
    && writes == (if ok then before[k := w] else before)
    && evicted == (if ok then gone - {k} else gone)
  }

  class ResponseCache {
    const ttl: real
    const most: nat
    var entries: Entries
    var hits: nat
    var misses: nat
    var stores: nat
    var conflicts: nat
    ghost var writes: map<string, Write>   // last accepted write per key, never pruned
    ghost var evicted: set<string>         // keys whose last write was dropped for size
    ghost var owned: set<Node>         // objects made by the cache; no caller holds one
    ghost var clock: real

    ghost predicate Valid()
      reads this, owned
    {
      && |entries| <= most + 1
      && AllCorrect(entries, writes, evicted, owned, clock, ttl)
    }

    constructor (ttlSetting: int, maxSetting: int, now: real)
      ensures Valid() && entries == map[] && writes == map[] && evicted == {} && clock == now
      ensures ttl == (if ttlSetting >= 60 then ttlSetting else 1800) as real && ttl >= 60.0
      ensures most == (if maxSetting >= 100 then maxSetting else 5000) && most >= 100
      ensures hits == misses == stores == conflicts == 0
    {
      ttl, most := TtlSeconds(ttlSetting) as real, MaxItems(maxSetting);
      entries, hits, misses, stores, conflicts := map[], 0, 0, 0, 0;
      writes, evicted, owned, clock := map[], {}, {}, now;
    }

    /** Cleanup under the lock, before every lookup and store. */
    method Tidy(now: real)
      requires Valid() && clock <= now
      modifies this`entries, this`evicted, this`clock
      ensures Valid() && clock == now && |entries| <= most
      ensures KeptFrom(old(entries), entries, now, ttl)
      ensures OldestEvicted(old(evicted), evicted, entries, writes, most)
    {
      var kept := Cleanup(entries, now, ttl, most);
      CorrectAfterCleanup(entries, kept, writes, evicted, owned, clock, now, ttl);
      OldestAreEvicted(entries, kept, writes, evicted, owned, clock, now, ttl, most);
      evicted := evicted + Dropped(entries, kept, now, ttl);
      entries, clock := kept, now;
    }

    /** Answers from the tidied entries. */
    method Answer(k: string, fingerprint: Option<string>, ghost now: real) returns (r: Lookup)
      requires Valid() && clock == now
      requires KeptFrom(entries, entries, now, ttl)
      modifies this`hits, this`misses, this`conflicts
      ensures Valid()
      ensures Answers(r, k, fingerprint, writes, evicted, now)
      ensures r.Hit? ==> fresh(r.payload.Repr)
      ensures hits == old(hits) + (if r.Miss? then 0 else 1) && misses == old(misses) + (if r.Miss? then 1 else 0)
      ensures conflicts == old(conflicts) + (if r.Conflict? then 1 else 0)
    {
      WhatIsShown(entries, writes, evicted, owned, now, ttl, k);
      if k !in entries {
        misses := misses + 1;
        return Miss;
      }
      hits := hits + 1;
      if Clash(entries[k].fingerprint, fingerprint) {
        conflicts := conflicts + 1;
        return Conflict;
      }
      var copy := JsonClone(entries[k].payload);
      return Hit(copy);
    }

    /** A lookup in the full write history: a hit shows the last accepted write of
        the key, at most TTL old, to a request that may see it; a miss means there
        is no such write, or it is too old, or it was dropped for size. */
    ghost predicate Answers(r: Lookup, k: string, fingerprint: Option<string>, writes: map<string, Write>,
                            evicted: set<string>, now: real)
      reads if r.Hit? then {r.payload} + r.payload.Repr else {}
    {
      match r
      case Miss => k !in writes || k in evicted || now - writes[k].at > ttl
      case Hit(payload) =>
        payload.Valid() && k in writes && k !in evicted && payload.View() == writes[k].value && now - writes[k].at <= ttl
        && (writes[k].fingerprint == None || fingerprint in {None, Some(""), writes[k].fingerprint})
      case Conflict =>
        k in writes && k !in evicted && now - writes[k].at <= ttl
        && writes[k].fingerprint.Some? && fingerprint !in {None, Some(""), writes[k].fingerprint}
    }

    /** A hit returns a private copy of the payload last accepted for the key. */
    method GetCached(scope: string, key: string, fingerprint: Option<string>, now: real) returns (r: Lookup)
      requires Valid() && clock <= now
      modifies this
      ensures Valid() && clock == now && writes == old(writes) && owned == old(owned)
      ensures |entries| <= most && KeptFrom(old(entries), entries, now, ttl)
      ensures OldestEvicted(old(evicted), evicted, entries, writes, most)
      ensures Answers(r, scope + ":" + key, fingerprint, writes, evicted, now)
      ensures r.Hit? ==> fresh(r.payload.Repr)
      ensures hits == old(hits) + (if r.Miss? then 0 else 1) && misses == old(misses) + (if r.Miss? then 1 else 0)
      ensures conflicts == old(conflicts) + (if r.Conflict? then 1 else 0) && stores == old(stores)
    {
      Tidy(now);
      r := Answer(CacheKey(scope, key), fingerprint, now);
    }

    /** Stores a private copy, unless a live entry carries another fingerprint.
        `tidy` and `gone` are the entries and the evicted keys after the cleanup. */
    method StoreResponse(scope: string, key: string, payload: Node, fingerprint: Option<string>, now: real)
      returns (ok: bool, ghost tidy: Entries, ghost gone: set<string>, ghost e: Entry)
      requires payload.Valid() && Valid() && clock <= now
      modifies this
      ensures Valid() && clock == now && |entries| <= most + 1
      ensures |tidy| <= most && KeptFrom(old(entries), tidy, now, ttl)
      ensures OldestEvicted(old(evicted), gone, tidy, old(writes), most)
      ensures owned == if ok then old(owned) + e.payload.Repr else old(owned)
      ensures fresh(e.payload.Repr) && e == Entry(now, e.payload, fingerprint)
      ensures StoredAs(ok, tidy, gone, scope + ":" + key, e, old(writes), Write(now, old(payload.View()), fingerprint),
                entries, writes, evicted)
      ensures stores == old(stores) + (if ok then 1 else 0) && conflicts == old(conflicts) + (if ok then 0 else 1)
      ensures hits == old(hits) && misses == old(misses)
    {
      var copy := JsonClone(payload);
      ok, tidy, gone := StoreCopy(CacheKey(scope, key), copy, payload.View(), fingerprint, now);
      e := Entry(now, copy, fingerprint);
    }

    /** The part under the lock. */
    method StoreCopy(k: string, copy: Node, ghost view: Json, fingerprint: Option<string>, now: real)
      returns (ok: bool, ghost tidy: Entries, ghost gone: set<string>)
      requires Valid() && clock <= now && copy.Valid() && copy.View() == view
      modifies this`entries, this`writes, this`evicted, this`owned, this`clock, this`stores, this`conflicts
      ensures Valid() && clock == now
      ensures |tidy| <= most && KeptFrom(old(entries), tidy, now, ttl)
      ensures OldestEvicted(old(evicted), gone, tidy, old(writes), most)
      ensures owned == if ok then old(owned) + copy.Repr else old(owned)
      ensures StoredAs(ok, tidy, gone, k, Entry(now, copy, fingerprint), old(writes), Write(now, view, fingerprint),
                entries, writes, evicted)
      ensures stores == old(stores) + (if ok then 1 else 0) && conflicts == old(conflicts) + (if ok then 0 else 1)
    {
      Tidy(now);
      tidy, gone := entries, evicted;
      ok := Put(k, copy, view, fingerprint, now);
    }

    /** The store itself, on tidied entries. */
    method Put(k: string, copy: Node, ghost view: Json, fingerprint: Option<string>, now: real) returns (ok: bool)
      requires Valid() && clock == now && |entries| <= most && copy.Valid() && copy.View() == view
      modifies this`entries, this`writes, this`evicted, this`owned, this`stores, this`conflicts
      ensures Valid() && (ok <==> !(k in old(entries) && Clash(old(entries)[k].fingerprint, fingerprint)))
      ensures entries == if ok then old(entries)[k := Entry(now, copy, fingerprint)] else old(entries)
      ensures writes == if ok then old(writes)[k := Write(now, view, fingerprint)] else old(writes)
      ensures owned == if ok then old(owned) + copy.Repr else old(owned)
      ensures evicted == if ok then old(evicted) - {k} else old(evicted)
      ensures stores == old(stores) + (if ok then 1 else 0) && conflicts == old(conflicts) + (if ok then 0 else 1)
    {
      if k in entries && Clash(entries[k].fingerprint, fingerprint) {
        conflicts := conflicts + 1;
        return false;
      }
      CorrectAfterWrite(entries, writes, evicted, owned, now, ttl, k, copy, view, fingerprint);
      entries := entries[k := Entry(now, copy, fingerprint)];
      writes := writes[k := Write(now, view, fingerprint)];
      evicted := evicted - {k};
      owned := owned + copy.Repr;
      stores := stores + 1;
      return true;
    }
  }
}
