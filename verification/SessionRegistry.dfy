/** The in-memory session registry (app/core/account_security.py). */
module SessionRegistry {
  import opened Text

  datatype Session = Session(id: string, created: real, last: real)

  type Sessions = seq<Session>

  function GetOr<K, V>(m: map<K, seq<V>>, k: K): seq<V> { if k in m then m[k] else [] }

  predicate Active(s: Session, now: real, timeout: real) { now - s.last <= timeout }

  /** `[s for s in sessions if now - s.last <= timeout]` */
  function Purge(list: Sessions, now: real, timeout: real): Sessions {
    if list == [] then []
    else if Active(list[0], now, timeout) then [list[0]] + Purge(list[1..], now, timeout)
    else Purge(list[1..], now, timeout)
  }

  function Remove(list: Sessions, id: string): Sessions {
    if list == [] then []
    else if list[0].id != id then [list[0]] + Remove(list[1..], id)
    else Remove(list[1..], id)
  }

  /** The first session with the id is refreshed. */
  function Touch(list: Sessions, id: string, now: real): Sessions {
    if list == [] then []
    else if list[0].id == id then [list[0].(last := now)] + list[1..]
    else [list[0]] + Touch(list[1..], id, now)
  }

  /** Last activities of the sessions with the id, in the order of the list. Ids are
      drawn at random, but nothing stops a caller from registering one twice. */
  function Seen(list: Sessions, id: string): seq<real> {
    if list == [] then []
    else if list[0].id == id then [list[0].last] + Seen(list[1..], id)
    else Seen(list[1..], id)
  }

  /** The first session of an id decides. */
  predicate ValidAt(seen: seq<real>, now: real, timeout: real) { seen != [] && now - seen[0] <= timeout }

  // ---------- the reference: one session id, followed through the history ----------

  /** What happened to the sessions of one user. */
  datatype Happening =
    | Registered(id: string, at: real)
    | Touched(id: string, at: real)
    | Evicted(id: string)
    | Removed(id: string)
    | Purged(at: real)
    | Cleared

  function NotIdle(seen: seq<real>, now: real, timeout: real): seq<real> {
    if seen == [] then []
    else if now - seen[0] <= timeout then [seen[0]] + NotIdle(seen[1..], now, timeout)
    else NotIdle(seen[1..], now, timeout)
  }

  function FirstRefreshed(seen: seq<real>, now: real): seq<real> {
    if seen == [] then [] else [now] + seen[1..]
  }

  function FirstGone(seen: seq<real>): seq<real> {
    if seen == [] then [] else seen[1..]
  }

  function After(before: seq<real>, x: Happening, id: string, timeout: real): seq<real> {
    match x
    case Registered(y, at) => if y == id then before + [at] else before
    case Touched(y, at) => if y == id then FirstRefreshed(before, at) else before
    case Evicted(y) => if y == id then FirstGone(before) else before
    case Removed(y) => if y == id then [] else before
    case Purged(at) => NotIdle(before, at, timeout)
    case Cleared => []
  }

  /** Last activities of a session id, from the history alone. */
  function Trace(h: seq<Happening>, id: string, timeout: real): seq<real> {
    if h == [] then [] else After(Trace(h[..|h| - 1], id, timeout), h[|h| - 1], id, timeout)
  }

  lemma TraceStep(h: seq<Happening>, x: Happening, id: string, timeout: real)
    ensures Trace(h + [x], id, timeout) == After(Trace(h, id, timeout), x, id, timeout)
  {
    assert (h + [x])[..|h|] == h;
  }

  // ---------- when ids are fresh ----------

  function Registrations(h: seq<Happening>, id: string): nat {
    if h == [] then 0
    else Registrations(h[..|h| - 1], id) + if h[|h| - 1].Registered? && h[|h| - 1].id == id then 1 else 0
  }

  ghost function RegisteredAt(h: seq<Happening>, id: string): set<nat> {
    set i: nat | i < |h| && h[i].Registered? && h[i].id == id
  }

  /** How often an id was registered. */
  lemma {:induction false} RegistrationsCounted(h: seq<Happening>, id: string)
    ensures Registrations(h, id) == |RegisteredAt(h, id)|
  {
    if h != [] {
      var n := |h| - 1;
      RegistrationsCounted(h[..n], id);
      if h[n].Registered? && h[n].id == id {
        assert RegisteredAt(h, id) == RegisteredAt(h[..n], id) + {n};
      } else {
        assert RegisteredAt(h, id) == RegisteredAt(h[..n], id);
      }
    }
  }

  lemma {:induction false} NotIdleShorter(seen: seq<real>, now: real, timeout: real)
    ensures |NotIdle(seen, now, timeout)| <= |seen|
  {
    if seen != [] {
      NotIdleShorter(seen[1..], now, timeout);
    }
  }

  /** An id is never in a list more often than it was registered. */
  lemma {:induction false} TraceWithinRegistrations(h: seq<Happening>, id: string, timeout: real)
    ensures |Trace(h, id, timeout)| <= Registrations(h, id)
  {
    if h != [] {
      TraceWithinRegistrations(h[..|h| - 1], id, timeout);
      NotIdleShorter(Trace(h[..|h| - 1], id, timeout), if h[|h| - 1].Purged? then h[|h| - 1].at else 0.0, timeout);
    }
  }

  // ---------- what each list operation does to one id ----------

  /** `part` is `list` without some sessions, in the same order. */
  ghost predicate Sublist(part: Sessions, list: Sessions) {
    part == [] || (list != [] && ((part[0] == list[0] && Sublist(part[1..], list[1..])) || Sublist(part, list[1..])))
  }

  ghost predicate InCreationOrder(list: Sessions) {
    forall i, j :: 0 <= i < j < |list| ==> list[i].created <= list[j].created
  }

  lemma {:induction false} SublistHas(part: Sessions, list: Sessions, i: nat) returns (j: nat)
    requires Sublist(part, list) && i < |part|
    ensures j < |list| && list[j] == part[i]
    decreases |list|
  {
    if part[0] == list[0] && Sublist(part[1..], list[1..]) {
      if i == 0 {
        j := 0;
      } else {
        j := SublistHas(part[1..], list[1..], i - 1);
        j := j + 1;
      }
    } else {
      j := SublistHas(part, list[1..], i);
      j := j + 1;
    }
  }

  lemma {:induction false} SublistKeepsShape(part: Sessions, list: Sessions)
    requires Sublist(part, list) && InCreationOrder(list)
    ensures InCreationOrder(part) && |part| <= |list|
    decreases |list|
  {
    if part != [] {
      if part[0] == list[0] && Sublist(part[1..], list[1..]) {
        SublistKeepsShape(part[1..], list[1..]);
        forall j | 1 <= j < |part| ensures part[0].created <= part[j].created {
          assert part[1..][j - 1] == part[j];
          var k := SublistHas(part[1..], list[1..], j - 1);
          assert list[k + 1] == part[j];
        }
        forall i, j | 1 <= i < j < |part| ensures part[i].created <= part[j].created {
          assert part[1..][i - 1] == part[i] && part[1..][j - 1] == part[j];
        }
      } else {
        SublistKeepsShape(part, list[1..]);
      }
    }
  }

  lemma {:induction false} SublistSelf(list: Sessions)
    ensures Sublist(list, list)
  {
    if list != [] {
      SublistSelf(list[1..]);
    }
  }

  lemma NotIdleCons(x: real, rest: seq<real>, now: real, timeout: real)
    ensures NotIdle([x] + rest, now, timeout) ==
            if now - x <= timeout then [x] + NotIdle(rest, now, timeout) else NotIdle(rest, now, timeout)
  {
    assert ([x] + rest)[1..] == rest;
  }

  lemma SeenCons(s: Session, rest: Sessions, id: string)
    ensures Seen([s] + rest, id) == if s.id == id then [s.last] + Seen(rest, id) else Seen(rest, id)
  {
    assert ([s] + rest)[1..] == rest;
  }

  /** Purging keeps the active sessions, in order. */
  lemma {:induction false} PurgeShape(list: Sessions, now: real, timeout: real)
    ensures Sublist(Purge(list, now, timeout), list)
    ensures forall i :: 0 <= i < |Purge(list, now, timeout)| ==> Active(Purge(list, now, timeout)[i], now, timeout)
  {
    if list != [] {
      PurgeShape(list[1..], now, timeout);
      if Active(list[0], now, timeout) {
        assert Purge(list, now, timeout)[1..] == Purge(list[1..], now, timeout);
      }
    }
  }

  lemma {:induction false} PurgeEffect(list: Sessions, now: real, timeout: real, id: string)
    ensures Seen(Purge(list, now, timeout), id) == NotIdle(Seen(list, id), now, timeout)
  {
    if list != [] {
      PurgeEffect(list[1..], now, timeout, id);
      NotIdleCons(list[0].last, Seen(list[1..], id), now, timeout);
      SeenCons(list[0], Purge(list[1..], now, timeout), id);
    }
  }

  lemma {:induction false} RemoveEffect(list: Sessions, gone: string, id: string)
    ensures Sublist(Remove(list, gone), list)
    ensures Seen(Remove(list, gone), id) == if id == gone then [] else Seen(list, id)
  {
    if list != [] {
      RemoveEffect(list[1..], gone, id);
      var rest := Remove(list[1..], gone);
      if list[0].id != gone {
        assert Remove(list, gone)[1..] == rest;
        SeenCons(list[0], rest, id);
      } else {
        assert Remove(list, gone) == rest;
      }
    }
  }

  lemma {:induction false} TouchEffect(list: Sessions, touched: string, now: real, id: string)
    ensures |Touch(list, touched, now)| == |list|
    ensures forall i :: 0 <= i < |list| ==>
              Touch(list, touched, now)[i].id == list[i].id && Touch(list, touched, now)[i].created == list[i].created
    ensures Seen(Touch(list, touched, now), id) ==
            if id == touched then FirstRefreshed(Seen(list, id), now) else Seen(list, id)
  {
    if list != [] {
      TouchEffect(list[1..], touched, now, id);
      if list[0].id != touched {
        SeenCons(list[0], Touch(list[1..], touched, now), id);
      } else {
        SeenCons(list[0].(last := now), list[1..], id);
        assert id == touched ==> Seen(list, id)[1..] == Seen(list[1..], id);
      }
    }
  }

  lemma PopEffect(list: Sessions, id: string)
    requires list != []
    ensures Sublist(list[1..], list)
    ensures Seen(list[1..], id) == if id == list[0].id then FirstGone(Seen(list, id)) else Seen(list, id)
  {
    SublistSelf(list[1..]);
  }

  lemma {:induction false} SeenAppend(list: Sessions, s: Session, id: string)
    ensures Seen(list + [s], id) == Seen(list, id) + if id == s.id then [s.last] else []
  {
    var more: seq<real> := if id == s.id then [s.last] else [];
    if list == [] {
      assert [] + [s] == [s] && [s][1..] == [];
      assert [] + more == more;
    } else {
      assert list + [s] == [list[0]] + (list[1..] + [s]);
      SeenCons(list[0], list[1..] + [s], id);
      SeenAppend(list[1..], s, id);
      var first, rest := [list[0].last], Seen(list[1..], id);
      assert first + (rest + more) == first + rest + more;
    }
  }

  lemma {:induction false} TouchFirst(list: Sessions, id: string, now: real, k: nat)
    requires k <= |list| && forall i :: 0 <= i < k ==> list[i].id != id
    requires k < |list| ==> list[k].id == id
    ensures Touch(list, id, now) == if k < |list| then list[k := list[k].(last := now)] else list
  {
    if k > 0 {
      TouchFirst(list[1..], id, now, k - 1);
      assert list == [list[0]] + list[1..];
    }
  }

  /** Finds the session and refreshes it. */
  method TouchIn(list: Sessions, id: string, now: real) returns (next: Sessions)
    ensures next == Touch(list, id, now)
  {
    for i := 0 to |list|
      invariant forall j :: 0 <= j < i ==> list[j].id != id
    {
      if list[i].id == id {
        TouchFirst(list, id, now, i);
        return list[i := list[i].(last := now)];
      }
    }
    TouchFirst(list, id, now, |list|);
    next := list;
  }

  // ---------- purging and validity ----------

  lemma {:induction false} NotIdleFresh(seen: seq<real>, now: real, timeout: real)
    ensures NotIdle(seen, now, timeout) != [] ==> ValidAt(NotIdle(seen, now, timeout), now, timeout)
    ensures ValidAt(seen, now, timeout) ==> NotIdle(seen, now, timeout) != []
  {
    if seen != [] {
      NotIdleFresh(seen[1..], now, timeout);
    }
  }

  /** Purging revives an id exactly when its first session is idle and a later one
      with the same id is not; it never invalidates one. */
  lemma PurgeAnswers(list: Sessions, now: real, timeout: real, id: string)
    ensures var seen := Seen(list, id);
            var before, after := ValidAt(seen, now, timeout), ValidAt(Seen(Purge(list, now, timeout), id), now, timeout);
            && (before ==> after)
            && (before == after <==> ValidAt(seen, now, timeout) || NotIdle(seen, now, timeout) == [])
  {
    PurgeEffect(list, now, timeout, id);
    NotIdleFresh(Seen(list, id), now, timeout);
  }

  /** Two sessions of one id: the purge makes the second one decide. */
  lemma PurgeMayRevive(id: string)
    ensures var list := [Session(id, 0.0, 0.0), Session(id, 50.0, 50.0)];
            !ValidAt(Seen(list, id), 100.0, 60.0) && ValidAt(Seen(Purge(list, 100.0, 60.0), id), 100.0, 60.0)
  {
    var a, b := Session(id, 0.0, 0.0), Session(id, 50.0, 50.0);
    assert [a, b][1..] == [b] && [b][1..] == [];
    assert Purge([b], 100.0, 60.0) == [b];
    assert Purge([a, b], 100.0, 60.0) == [b];
  }

  // ---------- the registry ----------

  function Cap(limit: int): nat { if limit > 0 then limit else 0 }

  /** A list of one user agrees with the history of that user. */
  ghost predicate Agrees(list: Sessions, h: seq<Happening>, limit: int, clock: real, timeout: real) {
    && |list| <= Cap(limit) && InCreationOrder(list)
    && (list != [] ==> list[|list| - 1].created <= clock)
    && forall id :: Seen(list, id) == Trace(h, id, timeout)
  }

  lemma AgreesSublist(list: Sessions, part: Sessions, h: seq<Happening>, next: seq<Happening>, limit: int, clock: real, timeout: real)
    requires Agrees(list, h, limit, clock, timeout) && Sublist(part, list)
    requires forall id :: Seen(part, id) == Trace(next, id, timeout)
    ensures Agrees(part, next, limit, clock, timeout)
  {
    SublistKeepsShape(part, list);
    if part != [] {
      var j := SublistHas(part, list, |part| - 1);
    }
  }

  lemma AgreesPurge(list: Sessions, h: seq<Happening>, limit: int, clock: real, now: real, timeout: real)
    requires Agrees(list, h, limit, clock, timeout)
    ensures Agrees(Purge(list, now, timeout), h + [Purged(now)], limit, clock, timeout)
  {
    var part := Purge(list, now, timeout);
    forall id ensures Seen(part, id) == Trace(h + [Purged(now)], id, timeout) {
      PurgeEffect(list, now, timeout, id);
      TraceStep(h, Purged(now), id, timeout);
    }
    PurgeShape(list, now, timeout);
    AgreesSublist(list, part, h, h + [Purged(now)], limit, clock, timeout);
  }

  lemma AgreesRemove(list: Sessions, h: seq<Happening>, limit: int, clock: real, timeout: real, gone: string)
    requires Agrees(list, h, limit, clock, timeout)
    ensures Agrees(Remove(list, gone), h + [Removed(gone)], limit, clock, timeout)
  {
    var part := Remove(list, gone);
    forall id ensures Seen(part, id) == Trace(h + [Removed(gone)], id, timeout) {
      RemoveEffect(list, gone, id);
      TraceStep(h, Removed(gone), id, timeout);
    }
    RemoveEffect(list, gone, "");
    AgreesSublist(list, part, h, h + [Removed(gone)], limit, clock, timeout);
  }

  lemma AgreesPop(list: Sessions, h: seq<Happening>, limit: int, clock: real, timeout: real)
    requires Agrees(list, h, limit, clock, timeout) && list != []
    ensures Agrees(list[1..], h + [Evicted(list[0].id)], limit, clock, timeout)
  {
    var x := Evicted(list[0].id);
    forall id ensures Seen(list[1..], id) == Trace(h + [x], id, timeout) {
      PopEffect(list, id);
      TraceStep(h, x, id, timeout);
    }
    PopEffect(list, "");
    AgreesSublist(list, list[1..], h, h + [x], limit, clock, timeout);
  }

  lemma AgreesTouch(list: Sessions, h: seq<Happening>, limit: int, clock: real, now: real, timeout: real, touched: string)
    requires Agrees(list, h, limit, clock, timeout)
    ensures Agrees(Touch(list, touched, now), h + [Touched(touched, now)], limit, clock, timeout)
  {
    var next := Touch(list, touched, now);
    TouchEffect(list, touched, now, touched);
    forall id ensures Seen(next, id) == Trace(h + [Touched(touched, now)], id, timeout) {
      TouchEffect(list, touched, now, id);
      TraceStep(h, Touched(touched, now), id, timeout);
    }
  }

  lemma AgreesRegister(list: Sessions, h: seq<Happening>, limit: int, clock: real, now: real, timeout: real, id: string)
    requires Agrees(list, h, limit, clock, timeout) && clock <= now && |list| < limit
    ensures Agrees(list + [Session(id, now, now)], h + [Registered(id, now)], limit, now, timeout)
  {
    var s := Session(id, now, now);
    forall x ensures Seen(list + [s], x) == Trace(h + [Registered(id, now)], x, timeout) {
      SeenAppend(list, s, x);
      TraceStep(h, Registered(id, now), x, timeout);
    }
  }

  lemma AgreesLater(list: Sessions, h: seq<Happening>, limit: int, clock: real, now: real, timeout: real)
    requires Agrees(list, h, limit, clock, timeout) && clock <= now
    ensures Agrees(list, h, limit, now, timeout)
  {
  }

  /** How a registration ends: the IndexError of popping from an empty list is the
      answer when the limit is not positive. */
  datatype Outcome = Accepted | AcceptedEvicting(id: string) | Raised

  class Registry {
    const limit: int
    const timeout: real
    var active: map<int, Sessions>
    ghost var history: map<int, seq<Happening>>
    ghost var clock: real

    ghost predicate AgreesFor(user: int)
      reads this
    {
      Agrees(GetOr(active, user), GetOr(history, user), limit, clock, timeout)
    }

    ghost predicate Valid()
      reads this
    {
      forall user :: AgreesFor(user)
    }

    constructor (limit: int, timeout: real, now: real)
      ensures Valid() && active == map[] && history == map[] && clock == now
      ensures this.limit == limit && this.timeout == timeout
    {
      this.limit, this.timeout := limit, timeout;
      active, history, clock := map[], map[], now;
    }

    /** Moves to a map that differs in the list of one user only. */
    method Put(user: int, next: map<int, Sessions>, ghost h: seq<Happening>, now: real)
      requires Valid() && clock <= now && Agrees(GetOr(next, user), h, limit, now, timeout)
      requires forall u :: u != user ==> GetOr(next, u) == GetOr(active, u)
      modifies this
      ensures Valid() && clock == now
      ensures active == next && history == old(history)[user := h]
    {
      ghost var hist := history[user := h];
      forall u ensures Agrees(GetOr(next, u), GetOr(hist, u), limit, now, timeout) {
        assert AgreesFor(u);
        if u != user {
          AgreesLater(GetOr(active, u), GetOr(history, u), limit, clock, now, timeout);
        }
      }
      active, history, clock := next, hist, now;
      forall u ensures AgreesFor(u) {}
    }

    /** Registers a session. The earliest one is evicted exactly when `limit` of them
        are still not idle. */
    method RegisterSession(user: int, id: string, now: real) returns (r: Outcome)
      requires Valid() && clock <= now
      modifies this
      ensures Valid() && clock == now
      ensures var live := Purge(old(GetOr(active, user)), now, timeout);
              && (r.Raised? <==> limit <= 0)
              && (r.AcceptedEvicting? <==> limit > 0 && |live| == limit)
              && (r.AcceptedEvicting? ==> r.id == live[0].id)
              && active == old(active)[user := if r.Raised? then []
                   else (if r.AcceptedEvicting? then live[1..] else live) + [Session(id, now, now)]]
      ensures history == old(history)[user := old(GetOr(history, user)) + [Purged(now)]
                + (if r.AcceptedEvicting? then [Evicted(r.id)] else [])
                + (if r.Raised? then [] else [Registered(id, now)])]
    {
      assert AgreesFor(user);
      var sessions := Purge(GetOr(active, user), now, timeout);
      ghost var h := GetOr(history, user) + [Purged(now)];
      AgreesPurge(GetOr(active, user), GetOr(history, user), limit, clock, now, timeout);
      r := Accepted;
      if |sessions| >= limit {
        if sessions == [] {
          AgreesLater(sessions, h, limit, clock, now, timeout);
          Put(user, active[user := []], h, now);
          assert h + [] + [] == h;
          return Raised;
        }
        AgreesPop(sessions, h, limit, clock, timeout);
        r := AcceptedEvicting(sessions[0].id);
        h := h + [Evicted(sessions[0].id)];
        sessions := sessions[1..];
      } else {
        assert h == h + [];
      }
      AgreesRegister(sessions, h, limit, clock, now, timeout, id);
      Put(user, active[user := sessions + [Session(id, now, now)]], h + [Registered(id, now)], now);
    }

    method TouchSession(user: int, id: string, now: real)
      requires Valid() && clock <= now
      modifies this
      ensures Valid() && clock == now
      ensures active == if user in old(active) then old(active)[user := Touch(old(active[user]), id, now)] else old(active)
      ensures history == old(history)[user := old(GetOr(history, user)) + [Touched(id, now)]]
    {
      assert AgreesFor(user);
      AgreesTouch(GetOr(active, user), GetOr(history, user), limit, clock, now, timeout, id);
      var next := active;
      if user in active {
        var list := TouchIn(active[user], id, now);
        next := active[user := list];
      }
      AgreesLater(GetOr(next, user), GetOr(history, user) + [Touched(id, now)], limit, clock, now, timeout);
      Put(user, next, GetOr(history, user) + [Touched(id, now)], now);
    }

    /** Answers exactly as the history of the user demands. */
    method IsSessionValid(user: int, id: string, now: real) returns (ok: bool)
      requires Valid()
      ensures ok <==> ValidAt(Trace(GetOr(history, user), id, timeout), now, timeout)
    {
      assert AgreesFor(user);
      var sessions := GetOr(active, user);
      for i := 0 to |sessions|
        invariant Seen(sessions[i..], id) == Seen(sessions, id)
      {
        assert sessions[i..][1..] == sessions[i + 1..];
        if sessions[i].id == id {
          return now - sessions[i].last <= timeout;
        }
      }
      return false;
    }

    method RemoveSession(user: int, id: string, now: real)
      requires Valid() && clock <= now
      modifies this
      ensures Valid() && clock == now
      ensures active == old(active)[user := Remove(old(GetOr(active, user)), id)]
      ensures history == old(history)[user := old(GetOr(history, user)) + [Removed(id)]]
    {
      assert AgreesFor(user);
      var list := Remove(GetOr(active, user), id);
      AgreesRemove(GetOr(active, user), GetOr(history, user), limit, clock, timeout, id);
      AgreesLater(list, GetOr(history, user) + [Removed(id)], limit, clock, now, timeout);
      Put(user, active[user := list], GetOr(history, user) + [Removed(id)], now);
    }

    /** Counts after purging. */
    method ActiveSessionCount(user: int, now: real) returns (count: nat)
      requires Valid() && clock <= now
      modifies this
      ensures Valid() && clock == now && count == |GetOr(active, user)| <= Cap(limit)
      ensures GetOr(active, user) == Purge(old(GetOr(active, user)), now, timeout)
      ensures history == old(history)[user := old(GetOr(history, user)) + [Purged(now)]]
    {
      assert AgreesFor(user);
      AgreesPurge(GetOr(active, user), GetOr(history, user), limit, clock, now, timeout);
      var list := Purge(GetOr(active, user), now, timeout);
      AgreesLater(list, GetOr(history, user) + [Purged(now)], limit, clock, now, timeout);
      Put(user, if user in active then active[user := list] else active, GetOr(history, user) + [Purged(now)], now);
      assert AgreesFor(user);
      count := |GetOr(active, user)|;
    }

    method ClearAllSessions(user: int, now: real)
      requires Valid() && clock <= now
      modifies this
      ensures Valid() && clock == now && active == old(active) - {user}
      ensures history == old(history)[user := old(GetOr(history, user)) + [Cleared]]
    {
      ghost var h := GetOr(history, user) + [Cleared];
      forall id ensures Seen([], id) == Trace(h, id, timeout) {
        TraceStep(GetOr(history, user), Cleared, id, timeout);
      }
      Put(user, active - {user}, h, now);
    }

    /** The bounds that hold between any two calls. An id registered once at most is
        in the list once at most, and purging changes nothing about its validity. */
    lemma Bounds(user: int, id: string, now: real)
      requires Valid()
      ensures |GetOr(active, user)| <= Cap(limit) && InCreationOrder(GetOr(active, user))
      ensures |Seen(GetOr(active, user), id)| <= Registrations(GetOr(history, user), id)
      ensures Registrations(GetOr(history, user), id) <= 1 ==>
                ValidAt(Seen(Purge(GetOr(active, user), now, timeout), id), now, timeout)
                == ValidAt(Seen(GetOr(active, user), id), now, timeout)
    {
      assert AgreesFor(user);
      TraceWithinRegistrations(GetOr(history, user), id, timeout);
      PurgeAnswers(GetOr(active, user), now, timeout, id);
    }
  }
}
