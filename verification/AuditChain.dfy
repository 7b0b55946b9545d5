/** The signed audit ledger (app/core/audit_integrity.py). HMAC-SHA256 under the
    audit key is a function `mac` from messages to digests; nothing is assumed
    about it but the shape of a digest, so every theorem ends in "or here is a
    collision of mac". `dumps` is json.dumps with sorted keys. */
module AuditChain {
  import opened Text

  type Mac = string -> string
  type Payload = map<string, string>     // field name to JSON text
  type Dumps = Payload -> string

  /** `created` is the ISO text of created_at, empty when that is missing. */
  datatype Event = Event(id: int, org: int, kind: string, created: string,
                         payload: Option<Payload>, prevHash: Option<string>, signature: Option<string>)

  const GENESIS := "GENESIS"

  /** Missing and empty payloads are both dumped as {}. */
  function PayloadText(dumps: Dumps, payload: Option<Payload>): string {
    dumps(if payload.Some? then payload.value else map[])
  }

  function PrevText(prev: Option<string>): string {
    if prev.Some? && prev.value != "" then prev.value else GENESIS
  }

  function Message(dumps: Dumps, e: Event): string {
    Decimal(e.id) + ("|" + (Decimal(e.org) + ("|" + (e.kind + ("|" + (e.created + ("|"
      + (PayloadText(dumps, e.payload) + ("|" + PrevText(e.prevHash))))))))))
  }

  function ComputeSignature(mac: Mac, dumps: Dumps, e: Event): string {
    mac(Message(dumps, e))
  }

  // ---------- what verification looks at ----------

  function PrevSig(events: seq<Event>, i: nat): Option<string>
    requires i <= |events|
  {
    if i == 0 then None else events[i - 1].signature
  }

  /** Unsigned events are skipped; a signed one must link to its predecessor and
      carry its own signature. */
  ghost predicate Sound(mac: Mac, dumps: Dumps, e: Event, prev: Option<string>) {
    e.signature.Some? ==> e.prevHash == prev && e.signature.value == ComputeSignature(mac, dumps, e)
  }

  ghost predicate SoundAt(mac: Mac, dumps: Dumps, events: seq<Event>, i: nat)
    requires i < |events|
  {
    Sound(mac, dumps, events[i], PrevSig(events, i))
  }

  ghost predicate Accepted(mac: Mac, dumps: Dumps, events: seq<Event>) {
    forall i :: 0 <= i < |events| ==> SoundAt(mac, dumps, events, i)
  }

  ghost predicate FirstBroken(mac: Mac, dumps: Dumps, events: seq<Event>, k: nat) {
    && k < |events| && !SoundAt(mac, dumps, events, k)
    && forall i :: 0 <= i < k ==> SoundAt(mac, dumps, events, i)
  }

  /** The answer of a verification over the given events. */
  datatype Report = Report(valid: bool, checked: nat, firstBrokenId: Option<int>)

  ghost predicate Answers(mac: Mac, dumps: Dumps, events: seq<Event>, r: Report) {
    && (r.valid <==> Accepted(mac, dumps, events))
    && (r.valid ==> r.checked == |events| && r.firstBrokenId == None)
    && (!r.valid ==>
          exists k: nat :: FirstBroken(mac, dumps, events, k) && r.checked == k + 1 && r.firstBrokenId == Some(events[k].id))
  }

  // ---------- the table ----------

  /** The rows of one organization in id order. */
  function ForOrg(rows: seq<Event>, org: int): seq<Event> {
    if rows == [] then []
    else
      var last := rows[|rows| - 1];
      ForOrg(rows[..|rows| - 1], org) + if last.org == org then [last] else []
  }

  /** Signature of the newest row of the organization, not counting one id. */
  function LastHash(rows: seq<Event>, org: int, exclude: int): Option<string> {
    if rows == [] then None
    else
      var last := rows[|rows| - 1];
      if last.org == org && last.id != exclude then last.signature
      else LastHash(rows[..|rows| - 1], org, exclude)
  }

  ghost predicate IncreasingIds(rows: seq<Event>) {
    forall i, j :: 0 <= i < j < |rows| ==> rows[i].id < rows[j].id
  }

  ghost predicate Honest(mac: Mac, dumps: Dumps, rows: seq<Event>) {
    && IncreasingIds(rows)
    && forall org :: Accepted(mac, dumps, ForOrg(rows, org))
  }

  lemma {:induction false} LastHashIsPrevSig(rows: seq<Event>, org: int, exclude: int)
    requires forall i :: 0 <= i < |rows| ==> rows[i].id != exclude
    ensures LastHash(rows, org, exclude) == PrevSig(ForOrg(rows, org), |ForOrg(rows, org)|)
  {
    if rows != [] && rows[|rows| - 1].org != org {
      LastHashIsPrevSig(rows[..|rows| - 1], org, exclude);
    }
  }

  lemma AcceptedAppend(mac: Mac, dumps: Dumps, events: seq<Event>, e: Event)
    requires Accepted(mac, dumps, events) && Sound(mac, dumps, e, PrevSig(events, |events|))
    ensures Accepted(mac, dumps, events + [e])
  {
    var all := events + [e];
    forall i | 0 <= i < |all| ensures SoundAt(mac, dumps, all, i) {
      if i < |events| {
        assert SoundAt(mac, dumps, events, i);
      }
    }
  }

  /** Every prefix chosen by `limit` is accepted as well. */
  lemma AcceptedPrefix(mac: Mac, dumps: Dumps, events: seq<Event>, n: nat)
    requires Accepted(mac, dumps, events) && n <= |events|
    ensures Accepted(mac, dumps, events[..n])
  {
    forall i | 0 <= i < n ensures SoundAt(mac, dumps, events[..n], i) {
      assert SoundAt(mac, dumps, events, i);
    }
  }

  lemma {:induction false} HonestAppend(mac: Mac, dumps: Dumps, rows: seq<Event>, e: Event)
    requires Honest(mac, dumps, rows)
    requires forall i :: 0 <= i < |rows| ==> rows[i].id < e.id
    requires Sound(mac, dumps, e, LastHash(rows, e.org, e.id))
    ensures Honest(mac, dumps, rows + [e])
  {
    assert (rows + [e])[..|rows|] == rows;
    forall org ensures Accepted(mac, dumps, ForOrg(rows + [e], org)) {
      assert Accepted(mac, dumps, ForOrg(rows, org));
      if org == e.org {
        LastHashIsPrevSig(rows, org, e.id);
        AcceptedAppend(mac, dumps, ForOrg(rows, org), e);
        assert ForOrg(rows + [e], org) == ForOrg(rows, org) + [e];
      } else {
        assert ForOrg(rows + [e], org) == ForOrg(rows, org) + [] == ForOrg(rows, org);
      }
    }
  }

  /** What a program may do with the ledger: log an event of any organization with
      integrity on or off, under the id that the table hands out. */
  datatype Entry = Entry(id: int, org: int, kind: string, created: string, payload: Option<Payload>, enabled: bool)

  /** Ids grow, with gaps where a transaction was rolled back. */
  ghost predicate GrowingIds(entries: seq<Entry>) {
    forall i, j :: 0 <= i < j < |entries| ==> entries[i].id < entries[j].id
  }

  /** Signing a freshly inserted row, when integrity is enabled. */
  function Signed(mac: Mac, dumps: Dumps, rows: seq<Event>, e: Event, enabled: bool): Event {
    if !enabled then e
    else
      var linked := e.(prevHash := LastHash(rows, e.org, e.id));
      linked.(signature := Some(ComputeSignature(mac, dumps, linked)))
  }

  function Unsigned(x: Entry): Event {
    Event(x.id, x.org, x.kind, x.created, x.payload, None, None)
  }

  function Log(mac: Mac, dumps: Dumps, entries: seq<Entry>): (rows: seq<Event>)
    ensures |rows| == |entries|
  {
    if entries == [] then []
    else
      var n := |entries| - 1;
      var rows := Log(mac, dumps, entries[..n]);
      rows + [Signed(mac, dumps, rows, Unsigned(entries[n]), entries[n].enabled)]
  }

  /** Any log built by the ledger itself verifies, for every organization, however
      integrity was switched in between, and so does every prefix of it. */
  lemma {:induction false} HonestLogsVerify(mac: Mac, dumps: Dumps, entries: seq<Entry>)
    requires GrowingIds(entries)
    ensures Honest(mac, dumps, Log(mac, dumps, entries))
    ensures forall org, n :: 0 <= n <= |ForOrg(Log(mac, dumps, entries), org)| ==>
              Accepted(mac, dumps, ForOrg(Log(mac, dumps, entries), org)[..n])
  {
    HonestLogInvariant(mac, dumps, entries);
    var rows := Log(mac, dumps, entries);
    forall org, n | 0 <= n <= |ForOrg(rows, org)| ensures Accepted(mac, dumps, ForOrg(rows, org)[..n]) {
      assert Accepted(mac, dumps, ForOrg(rows, org));
      AcceptedPrefix(mac, dumps, ForOrg(rows, org), n);
    }
  }

  lemma {:induction false} HonestLogInvariant(mac: Mac, dumps: Dumps, entries: seq<Entry>)
    requires GrowingIds(entries)
    ensures var rows := Log(mac, dumps, entries);
            Honest(mac, dumps, rows) && forall i :: 0 <= i < |rows| ==> rows[i].id == entries[i].id
  {
    if entries != [] {
      var n := |entries| - 1;
      HonestLogInvariant(mac, dumps, entries[..n]);
      var rows := Log(mac, dumps, entries[..n]);
      HonestAppend(mac, dumps, rows, Signed(mac, dumps, rows, Unsigned(entries[n]), entries[n].enabled));
    }
  }

  /** The row logged for an entry: its fields, and, exactly when integrity was on, a
      signature over them and a link to the signature of the row of the organization
      in front of it. */
  ghost predicate LoggedAs(mac: Mac, dumps: Dumps, front: seq<Event>, x: Entry, e: Event) {
    && e.id == x.id && e.org == x.org && e.kind == x.kind && e.created == x.created && e.payload == x.payload
    && (!x.enabled ==> e.prevHash == None && e.signature == None)
    && (x.enabled ==>
          && e.prevHash == PrevSig(ForOrg(front, x.org), |ForOrg(front, x.org)|)
          && e.signature == Some(mac(Message(dumps, e))))
  }

  lemma SignedRow(mac: Mac, dumps: Dumps, front: seq<Event>, x: Entry)
    requires forall i :: 0 <= i < |front| ==> front[i].id != x.id
    ensures LoggedAs(mac, dumps, front, x, Signed(mac, dumps, front, Unsigned(x), x.enabled))
  {
    LastHashIsPrevSig(front, x.org, x.id);
    var linked := Unsigned(x).(prevHash := LastHash(front, x.org, x.id));
    MessageSkipsSignature(dumps, linked, Some(ComputeSignature(mac, dumps, linked)));
  }

  lemma MessageSkipsSignature(dumps: Dumps, e: Event, signature: Option<string>)
    ensures Message(dumps, e.(signature := signature)) == Message(dumps, e)
  {
  }

  /** Every entry is logged, in order, and signed exactly when integrity was on. */
  lemma {:induction false} LogIsExact(mac: Mac, dumps: Dumps, entries: seq<Entry>, i: nat)
    requires GrowingIds(entries) && i < |entries|
    ensures var rows := Log(mac, dumps, entries);
            LoggedAs(mac, dumps, rows[..i], entries[i], rows[i]) && (rows[i].signature.Some? <==> entries[i].enabled)
  {
    var n := |entries| - 1;
    var rows := Log(mac, dumps, entries[..n]);
    assert Log(mac, dumps, entries)[..n] == rows;
    HonestLogInvariant(mac, dumps, entries[..n]);
    if i == n {
      SignedRow(mac, dumps, rows, entries[n]);
    } else {
      LogIsExact(mac, dumps, entries[..n], i);
      assert rows[..i] == Log(mac, dumps, entries)[..i];
    }
  }

  lemma {:induction false} ForOrgMembers(rows: seq<Event>, org: int)
    ensures forall i :: 0 <= i < |ForOrg(rows, org)| ==> ForOrg(rows, org)[i] in rows
  {
    if rows != [] {
      ForOrgMembers(rows[..|rows| - 1], org);
    }
  }

  // ---------- the message encoding is injective ----------

  ghost predicate BarFree(s: string) { forall i :: 0 <= i < |s| ==> s[i] != '|' }

  /** Mode of a JSON reader: outside strings, inside one, behind a backslash. */
  datatype Mode = Out | In | Esc

  function Next(m: Mode, c: char): Mode {
    match m
    case Out => if c == '"' then In else Out
    case In => if c == '"' then Out else if c == '\\' then Esc else In
    case Esc => In
  }

  /** Bars and backslashes stand in strings only, and no bar is escaped. */
  predicate Legal(m: Mode, c: char) {
    match m
    case Out => c != '|' && c != '\\'
    case In => true
    case Esc => c != '|'
  }

  predicate Scans(s: string, m: Mode) {
    if s == "" then m == Out else Legal(m, s[0]) && Scans(s[1..], Next(m, s[0]))
  }

  /** What every serialised JSON object is: it opens with a brace, closes its strings
      and keeps bars inside them. */
  predicate JsonObjectText(s: string) { s != "" && s[0] == '{' && Scans(s, Out) }

  ghost predicate DumpsJson(dumps: Dumps) {
    forall p :: JsonObjectText(dumps(p))
  }

  /** The characters of a text as they stand in a JSON string. */
  function Escaped(s: string): string {
    if s == "" then ""
    else (if s[0] == '"' || s[0] == '\\' then ['\\', s[0]] else [s[0]]) + Escaped(s[1..])
  }

  lemma ReadOne(c: char, s: string, m: Mode)
    ensures Scans([c] + s, m) <==> Legal(m, c) && Scans(s, Next(m, c))
  {
    assert ([c] + s)[1..] == s;
  }

  lemma FrontOf(c: char, s: string, t: string)
    ensures ([c] + s) + t == [c] + (s + t)
  {
  }

  /** A string is read to its end, whatever it holds. */
  lemma {:induction false} EscapedScans(s: string, rest: string)
    ensures Scans(Escaped(s) + (['"'] + rest), In) <==> Scans(rest, Out)
  {
    var tail := ['"'] + rest;
    if s == "" {
      assert Escaped(s) + tail == tail;
      ReadOne('"', rest, In);
    } else {
      EscapedScans(s[1..], rest);
      var more, c := Escaped(s[1..]), s[0];
      FrontOf(c, more, tail);
      if c == '"' || c == '\\' {
        assert Escaped(s) == ['\\'] + ([c] + more);
        FrontOf('\\', [c] + more, tail);
        ReadOne('\\', [c] + (more + tail), In);
        ReadOne(c, more + tail, Esc);
      } else {
        assert Escaped(s) == [c] + more;
        ReadOne(c, more + tail, In);
      }
    }
  }

  function Quoted(s: string, rest: string): string { ['"'] + (Escaped(s) + (['"'] + rest)) }

  lemma QuotedScans(s: string, rest: string)
    requires Scans(rest, Out)
    ensures Scans(Quoted(s, rest), Out)
  {
    EscapedScans(s, rest);
    ReadOne('"', Escaped(s) + (['"'] + rest), Out);
  }

  /** Dictionaries with one text, dumped as JSON, are such objects, whatever the key
      and the text. */
  lemma DumpedField(key: string, value: string)
    ensures JsonObjectText(['{'] + Quoted(key, [':'] + ([' '] + Quoted(value, ['}']))))
  {
    ReadOne('}', [], Out);
    assert ['}'] + [] == ['}'];
    QuotedScans(value, ['}']);
    var v := Quoted(value, ['}']);
    ReadOne(' ', v, Out);
    ReadOne(':', [' '] + v, Out);
    QuotedScans(key, [':'] + ([' '] + v));
    ReadOne('{', Quoted(key, [':'] + ([' '] + v)), Out);
  }

  /** An ISO time, or nothing: no bar, and no brace in front. */
  ghost predicate PlainTime(e: Event) { BarFree(e.created) && (e.created == "" || e.created[0] != '{') }

  /** Behind a bar a serialised text is read inside a string. */
  lemma {:induction false} ScansBehindBar(x: string, y: string, m: Mode)
    requires Scans(x + ("|" + y), m)
    ensures Scans(y, In)
  {
    var s := x + ("|" + y);
    if x == "" {
      assert s == "|" + y && s[1..] == y;
    } else {
      assert s[1..] == x[1..] + ("|" + y);
      ScansBehindBar(x[1..], y, Next(m, x[0]));
    }
  }

  /** No text is complete both outside and inside a string. */
  lemma {:induction false} ScansOneWay(s: string)
    requires Scans(s, Out)
    ensures !Scans(s, In)
  {
    if s != "" && Scans(s, In) {
      ScansOneWay(s[1..]);
    }
  }

  lemma CutFirst(a: string, x: string, b: string, y: string)
    requires BarFree(a) && BarFree(b) && a + ("|" + x) == b + ("|" + y)
    ensures a == b && x == y
  {
    var s, t := a + ("|" + x), b + ("|" + y);
    assert s[|a|] == '|' && t[|b|] == '|';
    assert (forall i :: 0 <= i < |a| ==> s[i] == a[i]) && (forall i :: 0 <= i < |b| ==> t[i] == b[i]);
    assert |a| == |b|;
    assert a == s[..|a|] && b == t[..|b|] && x == s[|a| + 1..] && y == t[|b| + 1..];
  }

  lemma CutLast(a: string, x: string, b: string, y: string)
    requires BarFree(x) && BarFree(y) && a + ("|" + x) == b + ("|" + y)
    ensures a == b && x == y
  {
    var s, t := a + ("|" + x), b + ("|" + y);
    assert s[|a|] == '|' && t[|b|] == '|';
    assert forall i :: |a| < i < |s| ==> s[i] == x[i - |a| - 1];
    assert forall i :: |b| < i < |t| ==> t[i] == y[i - |b| - 1];
    assert |a| == |b|;
    assert a == s[..|a|] && b == t[..|b|] && x == s[|a| + 1..] && y == t[|b| + 1..];
  }

  lemma DecimalBarFree(n: int)
    ensures BarFree(Decimal(n))
  {
    assert forall k: nat, i :: 0 <= i < |Digits(k)| ==> Digits(k)[i] in Digits(k) && IsDigit(Digits(k)[i]);
  }

  /** No longer event type can stand for a shorter one: it would end inside the
      time or inside a string of the payload. */
  lemma KindNotLonger(a: string, c: string, p: string, b: string, d: string, q: string)
    requires BarFree(c) && BarFree(d) && (d == "" || d[0] != '{')
    requires JsonObjectText(p) && JsonObjectText(q)
    requires a + ("|" + (c + ("|" + p))) == b + ("|" + (d + ("|" + q)))
    ensures |b| <= |a|
  {
    if |b| > |a| {
      var s := a + ("|" + (c + ("|" + p)));
      var start := |a| + |c| + 2;
      assert s[|b|] == '|';
      assert forall i :: |a| < i < start - 1 ==> s[i] == c[i - |a| - 1];
      assert s[start..] == p;
      assert s[|b| + 1..] == d + ("|" + q);
      assert s[start] == p[0] && s[|b| + 1] == if d == "" then '|' else d[0];
      assert |b| + 1 != start;
      var x := s[start..|b|];
      assert p == x + ("|" + (d + ("|" + q)));
      ScansBehindBar(x, d + ("|" + q), Out);
      ScansBehindBar(d, q, In);
      ScansOneWay(q);
      assert false;
    }
  }

  lemma CutKind(a: string, c: string, p: string, b: string, d: string, q: string)
    requires BarFree(c) && BarFree(d) && (c == "" || c[0] != '{') && (d == "" || d[0] != '{')
    requires JsonObjectText(p) && JsonObjectText(q)
    requires a + ("|" + (c + ("|" + p))) == b + ("|" + (d + ("|" + q)))
    ensures a == b && c == d && p == q
  {
    KindNotLonger(a, c, p, b, d, q);
    KindNotLonger(b, d, q, a, c, p);
    var s, t := a + ("|" + (c + ("|" + p))), b + ("|" + (d + ("|" + q)));
    assert a == s[..|a|] && b == t[..|b|];
    assert s[|a| + 1..] == c + ("|" + p) && t[|b| + 1..] == d + ("|" + q);
    CutFirst(c, p, d, q);
  }

  lemma Reassociate(k: string, c: string, p: string, u: string)
    ensures k + ("|" + (c + ("|" + (p + ("|" + u))))) == (k + ("|" + (c + ("|" + p)))) + ("|" + u)
  {
  }

  /** A missing payload is signed like an empty one, and a missing link like the start
      of the chain. */
  lemma MissingFields(dumps: Dumps, e: Event)
    ensures Message(dumps, e.(payload := None)) == Message(dumps, e.(payload := Some(map[])))
    ensures Message(dumps, e.(prevHash := None)) == Message(dumps, e.(prevHash := Some("")))
    ensures Message(dumps, e.(prevHash := None)) == Message(dumps, e.(prevHash := Some("GENESIS")))
  {
  }

  /** The payloads are dumped alike; a missing one counts as an empty one. */
  ghost predicate SamePayload(dumps: Dumps, p: Option<Payload>, q: Option<Payload>) {
    match (p, q)
    case (Some(x), Some(y)) => dumps(x) == dumps(y)
    case (Some(x), None) => dumps(x) == dumps(map[])
    case (None, Some(y)) => dumps(map[]) == dumps(y)
    case (None, None) => true
  }

  /** Equal messages come from equal covered fields, whatever the event type. */
  lemma MessageInjective(dumps: Dumps, e: Event, f: Event)
    requires DumpsJson(dumps) && PlainTime(e) && PlainTime(f)
    requires BarFree(PrevText(e.prevHash)) && BarFree(PrevText(f.prevHash))
    requires Message(dumps, e) == Message(dumps, f)
    ensures e.id == f.id && e.org == f.org && e.kind == f.kind && e.created == f.created
    ensures SamePayload(dumps, e.payload, f.payload)
    ensures PrevText(e.prevHash) == PrevText(f.prevHash)
  {
    DecimalBarFree(e.id);
    DecimalBarFree(f.id);
    DecimalBarFree(e.org);
    DecimalBarFree(f.org);
    var p, q := PayloadText(dumps, e.payload), PayloadText(dumps, f.payload);
    var u, v := PrevText(e.prevHash), PrevText(f.prevHash);
    var e3 := e.kind + ("|" + (e.created + ("|" + (p + ("|" + u)))));
    var f3 := f.kind + ("|" + (f.created + ("|" + (q + ("|" + v)))));
    CutFirst(Decimal(e.id), Decimal(e.org) + ("|" + e3), Decimal(f.id), Decimal(f.org) + ("|" + f3));
    CutFirst(Decimal(e.org), e3, Decimal(f.org), f3);
    Reassociate(e.kind, e.created, p, u);
    Reassociate(f.kind, f.created, q, v);
    CutLast(e.kind + ("|" + (e.created + ("|" + p))), u, f.kind + ("|" + (f.created + ("|" + q))), v);
    CutKind(e.kind, e.created, p, f.kind, f.created, q);
    DecimalInjective(e.id, f.id);
    DecimalInjective(e.org, f.org);
  }

  // ---------- commitment ----------

  predicate IsHex(c: char) { '0' <= c <= '9' || 'a' <= c <= 'f' }

  /** A digest is 64 lower-case hexadecimal characters. */
  ghost predicate HexDigests(mac: Mac) {
    forall m :: IsDigest(mac(m))
  }

  ghost predicate IsDigest(s: string) {
    |s| == 64 && forall i :: 0 <= i < |s| ==> IsHex(s[i])
  }

  ghost predicate Collision(mac: Mac, m: string, n: string) {
    m != n && mac(m) == mac(n)
  }

  /** The two logs hold two different messages with the same digest. */
  ghost predicate CollisionIn(mac: Mac, dumps: Dumps, a: seq<Event>, b: seq<Event>) {
    exists i, j :: 0 <= i < |a| && 0 <= j < |b| && CollideAt(mac, dumps, a, b, i, j)
  }

  ghost predicate CollideAt(mac: Mac, dumps: Dumps, a: seq<Event>, b: seq<Event>, i: nat, j: nat)
    requires i < |a| && j < |b|
  {
    Collision(mac, Message(dumps, a[i]), Message(dumps, b[j]))
  }

  ghost predicate SameEvent(dumps: Dumps, e: Event, f: Event) {
    && e.id == f.id && e.org == f.org && e.kind == f.kind && e.created == f.created
    && SamePayload(dumps, e.payload, f.payload)
    && e.prevHash == f.prevHash && e.signature == f.signature
  }

  ghost predicate FullySigned(events: seq<Event>) {
    forall i :: 0 <= i < |events| ==> events[i].signature.Some? && PlainTime(events[i])
  }

  ghost predicate SameLog(dumps: Dumps, a: seq<Event>, b: seq<Event>) {
    |a| == |b| && forall i :: 0 <= i < |a| ==> SameEvent(dumps, a[i], b[i])
  }

  lemma LinkShape(mac: Mac, dumps: Dumps, a: seq<Event>, i: nat)
    requires HexDigests(mac) && DumpsJson(dumps) && Accepted(mac, dumps, a) && i < |a| && a[i].signature.Some?
    ensures a[i].prevHash == PrevSig(a, i)
    ensures a[i].prevHash.Some? ==> IsDigest(a[i].prevHash.value)
    ensures BarFree(PrevText(a[i].prevHash))
  {
    assert SoundAt(mac, dumps, a, i);
    if i > 0 {
      assert SoundAt(mac, dumps, a, i - 1);
    }
  }

  lemma PrevTextInjective(p: Option<string>, q: Option<string>)
    requires p.Some? ==> IsDigest(p.value)
    requires q.Some? ==> IsDigest(q.value)
    requires PrevText(p) == PrevText(q)
    ensures p == q
  {
  }

  /** Equal signatures come from equal events. */
  lemma HeadStep(mac: Mac, dumps: Dumps, a: seq<Event>, b: seq<Event>, m: nat, n: nat)
    requires HexDigests(mac) && DumpsJson(dumps) && m < |a| && n < |b|
    requires FullySigned(a) && FullySigned(b) && Accepted(mac, dumps, a) && Accepted(mac, dumps, b)
    requires a[m].signature == b[n].signature
    ensures (SameEvent(dumps, a[m], b[n]) && PrevSig(a, m) == PrevSig(b, n)) || CollisionIn(mac, dumps, a, b)
  {
    assert SoundAt(mac, dumps, a, m) && SoundAt(mac, dumps, b, n);
    if Message(dumps, a[m]) == Message(dumps, b[n]) {
      LinkShape(mac, dumps, a, m);
      LinkShape(mac, dumps, b, n);
      MessageInjective(dumps, a[m], b[n]);
      PrevTextInjective(a[m].prevHash, b[n].prevHash);
    } else {
      assert CollideAt(mac, dumps, a, b, m, n);
    }
  }

  ghost predicate SameUpTo(dumps: Dumps, a: seq<Event>, b: seq<Event>, m: nat, n: nat)
    requires m <= |a| && n <= |b|
  {
    m == n && forall i :: 0 <= i < m ==> SameEvent(dumps, a[i], b[i])
  }

  lemma SameOneMore(dumps: Dumps, a: seq<Event>, b: seq<Event>, m: nat)
    requires m < |a| && m < |b| && SameUpTo(dumps, a, b, m, m) && SameEvent(dumps, a[m], b[m])
    ensures SameUpTo(dumps, a, b, m + 1, m + 1)
  {
  }

  /** Two logs that show the same last signature are both empty or both not. */
  lemma BothOrNone(a: seq<Event>, b: seq<Event>, m: nat, n: nat)
    requires m <= |a| && n <= |b| && FullySigned(a) && FullySigned(b) && PrevSig(a, m) == PrevSig(b, n)
    ensures m == 0 <==> n == 0
    ensures m > 0 ==> a[m - 1].signature == b[n - 1].signature
  {
  }

  /** The same for the first m and n events of two logs. */
  lemma {:induction false} PrefixCommitment(mac: Mac, dumps: Dumps, a: seq<Event>, b: seq<Event>, m: nat, n: nat)
    requires HexDigests(mac) && DumpsJson(dumps) && m <= |a| && n <= |b|
    requires FullySigned(a) && FullySigned(b) && Accepted(mac, dumps, a) && Accepted(mac, dumps, b)
    requires PrevSig(a, m) == PrevSig(b, n)
    ensures SameUpTo(dumps, a, b, m, n) || CollisionIn(mac, dumps, a, b)
    decreases m
  {
    if CollisionIn(mac, dumps, a, b) {
      return;
    }
    BothOrNone(a, b, m, n);
    if m > 0 {
      PrefixStep(mac, dumps, a, b, m, n);
      PrefixCommitment(mac, dumps, a, b, m - 1, n - 1);
      SameOneMore(dumps, a, b, m - 1);
    }
  }

  lemma PrefixStep(mac: Mac, dumps: Dumps, a: seq<Event>, b: seq<Event>, m: nat, n: nat)
    requires HexDigests(mac) && DumpsJson(dumps) && 0 < m <= |a| && 0 < n <= |b|
    requires FullySigned(a) && FullySigned(b) && Accepted(mac, dumps, a) && Accepted(mac, dumps, b)
    requires PrevSig(a, m) == PrevSig(b, n) && !CollisionIn(mac, dumps, a, b)
    ensures SameEvent(dumps, a[m - 1], b[n - 1]) && PrevSig(a, m - 1) == PrevSig(b, n - 1)
  {
    HeadStep(mac, dumps, a, b, m - 1, n - 1);
  }

  /** Two fully signed, accepted logs that end in the same signature are the same
      log, unless mac has a collision between them. */
  lemma HeadCommitment(mac: Mac, dumps: Dumps, a: seq<Event>, b: seq<Event>)
    requires HexDigests(mac) && DumpsJson(dumps)
    requires FullySigned(a) && FullySigned(b) && Accepted(mac, dumps, a) && Accepted(mac, dumps, b)
    requires PrevSig(a, |a|) == PrevSig(b, |b|)
    ensures SameLog(dumps, a, b) || CollisionIn(mac, dumps, a, b)
  {
    PrefixCommitment(mac, dumps, a, b, |a|, |b|);
  }

  /** With integrity on throughout, every chain of the log is fully signed. */
  lemma AlwaysOnIsFullySigned(mac: Mac, dumps: Dumps, entries: seq<Entry>, org: int)
    requires GrowingIds(entries)
    requires forall i :: 0 <= i < |entries| ==> entries[i].enabled && PlainTime(Unsigned(entries[i]))
    ensures FullySigned(ForOrg(Log(mac, dumps, entries), org))
  {
    var rows := Log(mac, dumps, entries);
    forall i | 0 <= i < |rows| ensures rows[i].signature.Some? && PlainTime(rows[i]) {
      LogIsExact(mac, dumps, entries, i);
    }
    ForOrgMembers(rows, org);
  }

  /** The last signature of an organization commits to everything that was ever logged
      for it, when integrity was on throughout. */
  lemma LogsCommit(mac: Mac, dumps: Dumps, x: seq<Entry>, y: seq<Entry>, org: int)
    requires HexDigests(mac) && DumpsJson(dumps) && GrowingIds(x) && GrowingIds(y)
    requires forall i :: 0 <= i < |x| ==> x[i].enabled && PlainTime(Unsigned(x[i]))
    requires forall i :: 0 <= i < |y| ==> y[i].enabled && PlainTime(Unsigned(y[i]))
    requires var a, b := ForOrg(Log(mac, dumps, x), org), ForOrg(Log(mac, dumps, y), org);
             PrevSig(a, |a|) == PrevSig(b, |b|)
    ensures var a, b := ForOrg(Log(mac, dumps, x), org), ForOrg(Log(mac, dumps, y), org);
            SameLog(dumps, a, b) || CollisionIn(mac, dumps, a, b)
  {
    AlwaysOnIsFullySigned(mac, dumps, x, org);
    AlwaysOnIsFullySigned(mac, dumps, y, org);
    HonestLogInvariant(mac, dumps, x);
    HonestLogInvariant(mac, dumps, y);
    HeadCommitment(mac, dumps, ForOrg(Log(mac, dumps, x), org), ForOrg(Log(mac, dumps, y), org));
  }

  // ---------- fault localisation ----------

  /** A row whose signature was made over another message is not sound anywhere. */
  lemma ForeignSignature(mac: Mac, dumps: Dumps, e: Event, prev: Option<string>, was: Event)
    requires was.signature == Some(ComputeSignature(mac, dumps, was)) && e.signature == was.signature
    requires Message(dumps, e) != Message(dumps, was)
    ensures !Sound(mac, dumps, e, prev) || Collision(mac, Message(dumps, was), Message(dumps, e))
  {
  }

  /** Two rows with the same signature that differ in a covered field, the first of
      them linked to prev. */
  lemma ChangedRow(mac: Mac, dumps: Dumps, e: Event, prev: Option<string>, was: Event)
    requires HexDigests(mac) && DumpsJson(dumps) && PlainTime(was) && PlainTime(e)
    requires was.signature == Some(ComputeSignature(mac, dumps, was)) && e.signature == was.signature
    requires was.prevHash.Some? ==> IsDigest(was.prevHash.value)
    requires prev.Some? ==> IsDigest(prev.value)
    requires !SameEvent(dumps, e, was)
    ensures !Sound(mac, dumps, e, prev) || Collision(mac, Message(dumps, was), Message(dumps, e))
  {
    if e.prevHash == prev && Message(dumps, e) == Message(dumps, was) {
      MessageInjective(dumps, e, was);
      PrevTextInjective(e.prevHash, was.prevHash);
      assert false;
    }
    if Message(dumps, e) != Message(dumps, was) {
      ForeignSignature(mac, dumps, e, prev, was);
    }
  }

  /** Every signature in an accepted log is a digest. */
  lemma PrevSigShape(mac: Mac, dumps: Dumps, a: seq<Event>, i: nat)
    requires HexDigests(mac) && Accepted(mac, dumps, a) && i <= |a|
    ensures PrevSig(a, i).Some? ==> IsDigest(PrevSig(a, i).value)
  {
    if i > 0 {
      assert SoundAt(mac, dumps, a, i - 1);
    }
  }

  /** Changing a covered field of a signed event, its place kept, is reported at
      that event. */
  lemma TamperingIsLocated(mac: Mac, dumps: Dumps, a: seq<Event>, k: nat, e: Event)
    requires Accepted(mac, dumps, a) && k < |a| && a[k].signature.Some?
    requires e.id == a[k].id && e.org == a[k].org && e.signature == a[k].signature && !SameEvent(dumps, e, a[k])
    requires PlainTime(a[k]) && PlainTime(e) && HexDigests(mac) && DumpsJson(dumps)
    ensures FirstBroken(mac, dumps, a[k := e], k) || Collision(mac, Message(dumps, a[k]), Message(dumps, e))
  {
    var t := a[k := e];
    forall i | 0 <= i < k ensures SoundAt(mac, dumps, t, i) {
      assert SoundAt(mac, dumps, a, i);
    }
    assert SoundAt(mac, dumps, a, k);
    PrevSigShape(mac, dumps, a, k);
    assert PrevSig(t, k) == PrevSig(a, k);
    ChangedRow(mac, dumps, e, PrevSig(a, k), a[k]);
  }

  /** The place of a row in the chain of its organization. */
  function PlaceOf(rows: seq<Event>, p: nat, org: int): nat
    requires p <= |rows|
  {
    |ForOrg(rows[..p], org)|
  }

  lemma {:induction false} ForOrgConcat(a: seq<Event>, b: seq<Event>, org: int)
    ensures ForOrg(a + b, org) == ForOrg(a, org) + ForOrg(b, org)
  {
    if b == [] {
      assert a + b == a;
    } else {
      var n := |b| - 1;
      assert (a + b)[..|a| + n] == a + b[..n] && (a + b)[|a| + n] == b[n];
      ForOrgConcat(a, b[..n], org);
    }
  }

  /** The chain of an organization, cut at one row of the table. */
  lemma ForOrgAt(rows: seq<Event>, p: nat, org: int)
    requires p < |rows|
    ensures ForOrg(rows, org) == ForOrg(rows[..p], org)
              + (if rows[p].org == org then [rows[p]] else []) + ForOrg(rows[p + 1..], org)
  {
    assert rows == rows[..p] + ([rows[p]] + rows[p + 1..]);
    ForOrgConcat(rows[..p], [rows[p]] + rows[p + 1..], org);
    ForOrgConcat([rows[p]], rows[p + 1..], org);
    assert [rows[p]][..0] == [];
  }

  /** What one changed row does to the chain of an organization. */
  lemma ForOrgChanged(rows: seq<Event>, p: nat, e: Event, org: int)
    requires p < |rows|
    ensures var k, chain := PlaceOf(rows, p, org), ForOrg(rows, org);
            && k <= |chain|
            && (rows[p].org == org ==> k < |chain| && chain[k] == rows[p])
            && (rows[p].org == org && e.org == org ==> ForOrg(rows[p := e], org) == chain[k := e])
            && (rows[p].org == org && e.org != org ==> ForOrg(rows[p := e], org) == Without(chain, k))
            && (rows[p].org != org && e.org == org ==> ForOrg(rows[p := e], org) == Inserted(chain, k, e))
  {
    ForOrgAt(rows, p, org);
    ForOrgAt(rows[p := e], p, org);
    assert rows[p := e][..p] == rows[..p] && rows[p := e][p + 1..] == rows[p + 1..];
    Middle(ForOrg(rows[..p], org), rows[p], ForOrg(rows[p + 1..], org), e);
  }

  lemma Middle(a: seq<Event>, x: Event, b: seq<Event>, y: Event)
    ensures (a + [x] + b)[|a|] == x && (a + [x] + b)[|a| := y] == a + [y] + b
    ensures Without(a + [x] + b, |a|) == a + [] + b && Inserted(a + [] + b, |a|, y) == a + [y] + b
  {
  }

  function Inserted(a: seq<Event>, k: nat, e: Event): seq<Event>
    requires k <= |a|
  {
    a[..k] + [e] + a[k..]
  }

  lemma FirstBrokenUnique(mac: Mac, dumps: Dumps, events: seq<Event>, j: nat, k: nat)
    requires FirstBroken(mac, dumps, events, j) && FirstBroken(mac, dumps, events, k)
    ensures j == k
  {
  }

  lemma ReportNames(mac: Mac, dumps: Dumps, events: seq<Event>, k: nat, r: Report)
    requires FirstBroken(mac, dumps, events, k) && Answers(mac, dumps, events, r)
    ensures !r.valid && r.firstBrokenId == Some(events[k].id) && r.checked == k + 1
  {
    assert !SoundAt(mac, dumps, events, k);
    var j: nat :| FirstBroken(mac, dumps, events, j) && r.checked == j + 1 && r.firstBrokenId == Some(events[j].id);
    FirstBrokenUnique(mac, dumps, events, j, k);
  }

  lemma FirstBrokenWithin(mac: Mac, dumps: Dumps, events: seq<Event>, k: nat, n: nat)
    requires FirstBroken(mac, dumps, events, k) && k < n <= |events|
    ensures FirstBroken(mac, dumps, events[..n], k)
  {
    forall i | 0 <= i < k ensures SoundAt(mac, dumps, events[..n], i) {
      assert SoundAt(mac, dumps, events, i);
    }
  }

  /** Tampering with one row of the table: any report that looks that far names the
      changed event, or mac has a collision between the two messages. */
  lemma TamperingIsReported(mac: Mac, dumps: Dumps, rows: seq<Event>, p: nat, e: Event, n: nat, r: Report)
    requires Honest(mac, dumps, rows) && p < |rows| && rows[p].signature.Some?
    requires e.id == rows[p].id && e.org == rows[p].org && e.signature == rows[p].signature
    requires !SameEvent(dumps, e, rows[p])
    requires PlainTime(rows[p]) && PlainTime(e) && HexDigests(mac) && DumpsJson(dumps)
    requires PlaceOf(rows, p, e.org) < n <= |ForOrg(rows[p := e], e.org)|
    requires Answers(mac, dumps, ForOrg(rows[p := e], e.org)[..n], r)
    ensures (!r.valid && r.firstBrokenId == Some(e.id) && r.checked == PlaceOf(rows, p, e.org) + 1)
            || Collision(mac, Message(dumps, rows[p]), Message(dumps, e))
  {
    var k, chain := PlaceOf(rows, p, e.org), ForOrg(rows, e.org);
    ForOrgChanged(rows, p, e, e.org);
    assert Accepted(mac, dumps, chain);
    TamperingIsLocated(mac, dumps, chain, k, e);
    if FirstBroken(mac, dumps, chain[k := e], k) {
      FirstBrokenWithin(mac, dumps, chain[k := e], k, n);
      ReportNames(mac, dumps, chain[k := e][..n], k, r);
    }
  }

  /** A signed row that turns up in another chain is reported there. */
  lemma ForeignRowIsLocated(mac: Mac, dumps: Dumps, b: seq<Event>, j: nat, e: Event, was: Event)
    requires Accepted(mac, dumps, b) && j <= |b|
    requires was.signature == Some(ComputeSignature(mac, dumps, was)) && e.signature == was.signature
    requires Message(dumps, e) != Message(dumps, was)
    ensures FirstBroken(mac, dumps, Inserted(b, j, e), j) || Collision(mac, Message(dumps, was), Message(dumps, e))
  {
    var t := Inserted(b, j, e);
    forall i | 0 <= i < j ensures SoundAt(mac, dumps, t, i) {
      assert SoundAt(mac, dumps, b, i);
    }
    ForeignSignature(mac, dumps, e, PrevSig(t, j), was);
  }

  lemma OtherOrgOtherMessage(dumps: Dumps, e: Event, was: Event)
    requires e.id != was.id || e.org != was.org
    ensures Message(dumps, e) != Message(dumps, was)
  {
    if Message(dumps, e) == Message(dumps, was) {
      DecimalBarFree(e.id);
      DecimalBarFree(was.id);
      DecimalBarFree(e.org);
      DecimalBarFree(was.org);
      MessageStarts(dumps, e);
      MessageStarts(dumps, was);
      CutFirst(Decimal(e.id), Decimal(e.org) + ("|" + Rest(dumps, e)), Decimal(was.id), Decimal(was.org) + ("|" + Rest(dumps, was)));
      CutFirst(Decimal(e.org), Rest(dumps, e), Decimal(was.org), Rest(dumps, was));
      DecimalInjective(e.id, was.id);
      DecimalInjective(e.org, was.org);
      assert false;
    }
  }

  function Rest(dumps: Dumps, e: Event): string {
    e.kind + ("|" + (e.created + ("|" + (PayloadText(dumps, e.payload) + ("|" + PrevText(e.prevHash))))))
  }

  lemma MessageStarts(dumps: Dumps, e: Event)
    ensures Message(dumps, e) == Decimal(e.id) + ("|" + (Decimal(e.org) + ("|" + Rest(dumps, e))))
  {
  }

  /** A signed row moved to another organization: its new chain reports it, and its
      old chain reads as if it had been deleted. */
  lemma ReassignedRowIsReported(mac: Mac, dumps: Dumps, rows: seq<Event>, p: nat, e: Event)
    requires Honest(mac, dumps, rows) && p < |rows| && rows[p].signature.Some?
    requires e.org != rows[p].org && e.signature == rows[p].signature
    ensures FirstBroken(mac, dumps, ForOrg(rows[p := e], e.org), PlaceOf(rows, p, e.org))
            || Collision(mac, Message(dumps, rows[p]), Message(dumps, e))
    ensures PlaceOf(rows, p, e.org) < |ForOrg(rows[p := e], e.org)|
    ensures ForOrg(rows[p := e], e.org)[PlaceOf(rows, p, e.org)] == e
    ensures PlaceOf(rows, p, rows[p].org) < |ForOrg(rows, rows[p].org)|
    ensures ForOrg(rows[p := e], rows[p].org) == Without(ForOrg(rows, rows[p].org), PlaceOf(rows, p, rows[p].org))
  {
    ForOrgChanged(rows, p, e, e.org);
    ForOrgChanged(rows, p, e, rows[p].org);
    var k, chain := PlaceOf(rows, p, rows[p].org), ForOrg(rows, rows[p].org);
    assert Accepted(mac, dumps, chain) && Accepted(mac, dumps, ForOrg(rows, e.org));
    assert SoundAt(mac, dumps, chain, k);
    OtherOrgOtherMessage(dumps, e, rows[p]);
    ForeignRowIsLocated(mac, dumps, ForOrg(rows, e.org), PlaceOf(rows, p, e.org), e, rows[p]);
  }

  function Without(a: seq<Event>, k: nat): seq<Event>
    requires k < |a|
  {
    a[..k] + a[k + 1..]
  }

  /** The successor of a deleted event is linked to a signature that is gone. */
  lemma MissedLink(mac: Mac, dumps: Dumps, a: seq<Event>, k: nat)
    requires Accepted(mac, dumps, a) && IncreasingIds(a)
    requires k + 1 < |a| && a[k].signature.Some? && a[k + 1].signature.Some?
    ensures a[k + 1].prevHash != PrevSig(a, k) || CollisionIn(mac, dumps, a, a)
  {
    assert SoundAt(mac, dumps, a, k + 1) && SoundAt(mac, dumps, a, k);
    if a[k + 1].prevHash == PrevSig(a, k) {
      assert SoundAt(mac, dumps, a, k - 1);
      if Message(dumps, a[k]) == Message(dumps, a[k - 1]) {
        OtherOrgOtherMessage(dumps, a[k], a[k - 1]);
        assert false;
      }
      assert CollideAt(mac, dumps, a, a, k, k - 1);
    }
  }

  lemma DeletionKeepsOthers(mac: Mac, dumps: Dumps, a: seq<Event>, k: nat, i: nat)
    requires Accepted(mac, dumps, a) && k < |a| && i < |a| - 1
    requires i != k || a[k + 1].signature == None
    ensures SoundAt(mac, dumps, Without(a, k), i)
  {
    var t := Without(a, k);
    if i < k {
      assert SoundAt(mac, dumps, a, i);
    } else {
      assert t[i] == a[i + 1] && (i > k ==> t[i - 1] == a[i]);
      assert SoundAt(mac, dumps, a, i + 1);
    }
  }

  /** Deleting a signed event is reported at its successor exactly when the
      successor is signed; otherwise the deletion goes unnoticed. */
  lemma DeletionIsLocated(mac: Mac, dumps: Dumps, a: seq<Event>, k: nat)
    requires Accepted(mac, dumps, a) && IncreasingIds(a) && k < |a| && a[k].signature.Some?
    ensures (if k + 1 < |a| && a[k + 1].signature.Some?
             then FirstBroken(mac, dumps, Without(a, k), k) && Without(a, k)[k] == a[k + 1]
             else Accepted(mac, dumps, Without(a, k)))
            || CollisionIn(mac, dumps, a, a)
  {
    forall i | 0 <= i < |a| - 1 && (i != k || a[k + 1].signature == None) ensures SoundAt(mac, dumps, Without(a, k), i) {
      DeletionKeepsOthers(mac, dumps, a, k, i);
    }
    if k + 1 < |a| && a[k + 1].signature.Some? {
      MissedLink(mac, dumps, a, k);
      assert Without(a, k)[k] == a[k + 1] && PrevSig(Without(a, k), k) == PrevSig(a, k);
    }
  }

  /** A signed row whose id was changed stands where its new id puts it. Verification
      stops at that row, unless it moved behind a signed successor that misses it. */
  lemma RenumberingIsLocated(mac: Mac, dumps: Dumps, a: seq<Event>, k: nat, j: nat, e: Event)
    requires Accepted(mac, dumps, a) && IncreasingIds(a) && k < |a| && a[k].signature.Some? && j < |a|
    requires e.id != a[k].id && e.signature == a[k].signature
    ensures var t := Inserted(Without(a, k), j, e);
            (if k < j && a[k + 1].signature.Some? then FirstBroken(mac, dumps, t, k) && t[k] == a[k + 1]
             else FirstBroken(mac, dumps, t, j) && t[j] == e)
            || CollisionIn(mac, dumps, a, a + [e])
  {
    var w := Without(a, k);
    var t := Inserted(w, j, e);
    assert SoundAt(mac, dumps, a, k);
    OtherOrgOtherMessage(dumps, e, a[k]);
    ForeignSignature(mac, dumps, e, PrevSig(t, j), a[k]);
    if Collision(mac, Message(dumps, a[k]), Message(dumps, e)) {
      assert (a + [e])[|a|] == e && CollideAt(mac, dumps, a, a + [e], k, |a|);
    } else {
      assert t[j] == e && !SoundAt(mac, dumps, t, j);
      DeletionIsLocated(mac, dumps, a, k);
      if CollisionIn(mac, dumps, a, a) {
        CollisionInMore(mac, dumps, a, e);
      } else {
        if j <= k {
          AcceptedPrefix(mac, dumps, a, j);
          assert w[..j] == a[..j];
        }
        PrefixOfDeletion(mac, dumps, a, k, j, e);
      }
    }
  }

  lemma CollisionInMore(mac: Mac, dumps: Dumps, a: seq<Event>, e: Event)
    requires CollisionIn(mac, dumps, a, a)
    ensures CollisionIn(mac, dumps, a, a + [e])
  {
    var i, j :| 0 <= i < |a| && 0 <= j < |a| && CollideAt(mac, dumps, a, a, i, j);
    assert (a + [e])[j] == a[j];
    assert CollideAt(mac, dumps, a, a + [e], i, j);
  }

  /** In front of the inserted row, the log reads like the one without the old row. */
  lemma PrefixOfDeletion(mac: Mac, dumps: Dumps, a: seq<Event>, k: nat, j: nat, e: Event)
    requires k < |a| && j < |a|
    requires if k + 1 < |a| && a[k + 1].signature.Some?
             then FirstBroken(mac, dumps, Without(a, k), k)
             else Accepted(mac, dumps, Without(a, k))
    requires j <= k ==> Accepted(mac, dumps, Without(a, k)[..j])
    requires !SoundAt(mac, dumps, Inserted(Without(a, k), j, e), j)
    ensures var t := Inserted(Without(a, k), j, e);
            if k < j && a[k + 1].signature.Some? then FirstBroken(mac, dumps, t, k) && t[k] == a[k + 1]
            else FirstBroken(mac, dumps, t, j)
  {
    var w := Without(a, k);
    var t := Inserted(w, j, e);
    var stop := if k < j && a[k + 1].signature.Some? then k else j;
    forall i | 0 <= i < stop ensures SoundAt(mac, dumps, t, i) {
      assert t[i] == w[i] && PrevSig(t, i) == PrevSig(w, i);
      if j <= k {
        assert SoundAt(mac, dumps, w[..j], i);
      } else {
        assert SoundAt(mac, dumps, w, i);
      }
    }
    if stop == k && k < j {
      assert t[k] == w[k] && PrevSig(t, k) == PrevSig(w, k);
      assert !SoundAt(mac, dumps, w, k);
    }
  }

  /** Blanking a signature is reported at the successor exactly when that one is
      signed. */
  lemma BlankingIsLocated(mac: Mac, dumps: Dumps, a: seq<Event>, k: nat)
    requires Accepted(mac, dumps, a) && k < |a| && a[k].signature.Some?
    ensures var t := a[k := a[k].(signature := None)];
            if k + 1 < |a| && a[k + 1].signature.Some? then FirstBroken(mac, dumps, t, k + 1)
            else Accepted(mac, dumps, t)
  {
    var t := a[k := a[k].(signature := None)];
    forall i | 0 <= i < |t| && i != k + 1 ensures SoundAt(mac, dumps, t, i) {
      assert SoundAt(mac, dumps, a, i);
    }
    if k + 1 < |a| {
      assert SoundAt(mac, dumps, a, k + 1);
    }
  }

  // ---------- the same faults in the whole table, and in the report ----------

  lemma {:induction false} ForOrgIncreasing(rows: seq<Event>, org: int)
    requires IncreasingIds(rows)
    ensures IncreasingIds(ForOrg(rows, org))
    ensures forall i :: 0 <= i < |ForOrg(rows, org)| ==> rows != [] && ForOrg(rows, org)[i].id <= rows[|rows| - 1].id
  {
    if rows != [] {
      ForOrgIncreasing(rows[..|rows| - 1], org);
    }
  }

  /** The chain of an organization when one of its rows is deleted. */
  lemma ForOrgDropped(rows: seq<Event>, p: nat, org: int)
    requires p < |rows| && rows[p].org == org
    ensures var k, chain := PlaceOf(rows, p, org), ForOrg(rows, org);
            k < |chain| && chain[k] == rows[p] && ForOrg(Without(rows, p), org) == Without(chain, k)
  {
    ForOrgAt(rows, p, org);
    ForOrgConcat(rows[..p], rows[p + 1..], org);
    Middle(ForOrg(rows[..p], org), rows[p], ForOrg(rows[p + 1..], org), rows[p]);
  }

  /** The chain of an organization when one row is inserted. */
  lemma ForOrgInserted(rows: seq<Event>, q: nat, e: Event)
    requires q <= |rows|
    ensures PlaceOf(rows, q, e.org) <= |ForOrg(rows, e.org)|
    ensures ForOrg(Inserted(rows, q, e), e.org) == Inserted(ForOrg(rows, e.org), PlaceOf(rows, q, e.org), e)
  {
    ForOrgAround(rows[..q], e, rows[q..]);
    ForOrgSplit(rows, q, e.org);
    InsertedMiddle(ForOrg(rows[..q], e.org), ForOrg(rows[q..], e.org), e);
  }

  lemma ForOrgAround(a: seq<Event>, e: Event, b: seq<Event>)
    ensures ForOrg(a + [e] + b, e.org) == ForOrg(a, e.org) + [e] + ForOrg(b, e.org)
  {
    ForOrgConcat(a + [e], b, e.org);
    assert (a + [e])[..|a|] == a;
  }

  lemma ForOrgSplit(rows: seq<Event>, q: nat, org: int)
    requires q <= |rows|
    ensures ForOrg(rows, org) == ForOrg(rows[..q], org) + ForOrg(rows[q..], org)
  {
    assert rows == rows[..q] + rows[q..];
    ForOrgConcat(rows[..q], rows[q..], org);
  }

  lemma InsertedMiddle(a: seq<Event>, b: seq<Event>, e: Event)
    ensures Inserted(a + b, |a|, e) == a + [e] + b
  {
  }

  /** A report that reaches the first broken row names it. */
  lemma ReportReaches(mac: Mac, dumps: Dumps, events: seq<Event>, k: nat, n: nat, r: Report)
    requires FirstBroken(mac, dumps, events, k) && k < n <= |events| && Answers(mac, dumps, events[..n], r)
    ensures !r.valid && r.firstBrokenId == Some(events[k].id) && r.checked == k + 1
  {
    FirstBrokenWithin(mac, dumps, events, k, n);
    ReportNames(mac, dumps, events[..n], k, r);
  }

  lemma ReportAccepts(mac: Mac, dumps: Dumps, events: seq<Event>, n: nat, r: Report)
    requires Accepted(mac, dumps, events) && n <= |events| && Answers(mac, dumps, events[..n], r)
    ensures r.valid && r.firstBrokenId == None && r.checked == n
  {
    AcceptedPrefix(mac, dumps, events, n);
  }

  /** The row behind the k-th one of a chain is signed. */
  predicate SignedNext(chain: seq<Event>, k: nat) { k + 1 < |chain| && chain[k + 1].signature.Some? }

  /** Deleting a signed row of the table: every report that looks past its place names
      the next row of the organization when that is signed, and is valid otherwise. */
  lemma DeletionIsReported(mac: Mac, dumps: Dumps, rows: seq<Event>, p: nat, org: int, n: nat, r: Report)
    requires Honest(mac, dumps, rows) && p < |rows| && rows[p].org == org && rows[p].signature.Some?
    requires n <= |ForOrg(Without(rows, p), org)| && Answers(mac, dumps, ForOrg(Without(rows, p), org)[..n], r)
    ensures var k, chain := PlaceOf(rows, p, org), ForOrg(rows, org);
            (if SignedNext(chain, k)
             then k < n ==> !r.valid && r.firstBrokenId == Some(chain[k + 1].id) && r.checked == k + 1
             else r.valid && r.firstBrokenId == None)
            || CollisionIn(mac, dumps, chain, chain)
  {
    var k, chain := PlaceOf(rows, p, org), ForOrg(rows, org);
    ForOrgDropped(rows, p, org);
    ForOrgIncreasing(rows, org);
    assert Accepted(mac, dumps, chain);
    DeletionIsLocated(mac, dumps, chain, k);
    if !CollisionIn(mac, dumps, chain, chain) {
      if !SignedNext(chain, k) {
        ReportAccepts(mac, dumps, Without(chain, k), n, r);
      } else if k < n {
        ReportReaches(mac, dumps, Without(chain, k), k, n, r);
      }
    }
  }

  /** Blanking the signature of a row: every report that looks past the next row of the
      organization names that row when it is signed, and is valid otherwise. */
  lemma BlankingIsReported(mac: Mac, dumps: Dumps, rows: seq<Event>, p: nat, org: int, e: Event, n: nat, r: Report)
    requires Honest(mac, dumps, rows) && p < |rows| && rows[p].org == org && rows[p].signature.Some?
    requires e == rows[p].(signature := None)
    requires n <= |ForOrg(rows[p := e], org)| && Answers(mac, dumps, ForOrg(rows[p := e], org)[..n], r)
    ensures var k, chain := PlaceOf(rows, p, org), ForOrg(rows, org);
            if SignedNext(chain, k)
            then k + 1 < n ==> !r.valid && r.firstBrokenId == Some(chain[k + 1].id) && r.checked == k + 2
            else r.valid && r.firstBrokenId == None
  {
    var k, chain := PlaceOf(rows, p, org), ForOrg(rows, org);
    ForOrgChanged(rows, p, e, org);
    assert Accepted(mac, dumps, chain);
    BlankingIsLocated(mac, dumps, chain, k);
    if !SignedNext(chain, k) {
      ReportAccepts(mac, dumps, chain[k := e], n, r);
    } else if k + 1 < n {
      ReportReaches(mac, dumps, chain[k := e], k + 1, n, r);
    }
  }

  /** In id order, a row stands behind another one exactly when its id is larger. */
  lemma PlaceFollowsId(w: seq<Event>, j: nat, e: Event, i: nat)
    requires j <= |w| && i < |w| && IncreasingIds(Inserted(w, j, e))
    ensures i < j <==> w[i].id < e.id
  {
    var t := Inserted(w, j, e);
    assert t[j] == e && (i < j ==> t[i] == w[i]) && (i >= j ==> t[i + 1] == w[i]);
  }

  /** Giving a signed row another id moves it to the place of the new id, q in the table.
      Every report on the whole chain names the next row of the organization, when that
      is signed and the row has moved behind it; otherwise it names the row itself. */
  lemma RenumberingIsReported(mac: Mac, dumps: Dumps, rows: seq<Event>, p: nat, q: nat, e: Event, r: Report)
    requires Honest(mac, dumps, rows) && p < |rows| && rows[p].signature.Some?
    requires e.id != rows[p].id && e.org == rows[p].org && e.signature == rows[p].signature
    requires q <= |Without(rows, p)| && IncreasingIds(Inserted(Without(rows, p), q, e))
    requires Answers(mac, dumps, ForOrg(Inserted(Without(rows, p), q, e), e.org), r)
    ensures var k, chain := PlaceOf(rows, p, e.org), ForOrg(rows, e.org);
            (!r.valid && r.firstBrokenId == Some(if SignedNext(chain, k) && chain[k + 1].id < e.id then chain[k + 1].id else e.id))
            || CollisionIn(mac, dumps, chain, chain + [e])
  {
    var k, chain, w := PlaceOf(rows, p, e.org), ForOrg(rows, e.org), Without(rows, p);
    var j := PlaceOf(w, q, e.org);
    ForOrgDropped(rows, p, e.org);
    ForOrgInserted(w, q, e);
    ForOrgIncreasing(rows, e.org);
    ForOrgIncreasing(Inserted(w, q, e), e.org);
    RenumberedChain(mac, dumps, chain, k, j, e, r);
  }

  lemma RenumberedChain(mac: Mac, dumps: Dumps, chain: seq<Event>, k: nat, j: nat, e: Event, r: Report)
    requires Accepted(mac, dumps, chain) && IncreasingIds(chain) && k < |chain| && chain[k].signature.Some? && j < |chain|
    requires e.id != chain[k].id && e.signature == chain[k].signature
    requires IncreasingIds(Inserted(Without(chain, k), j, e))
    requires Answers(mac, dumps, Inserted(Without(chain, k), j, e), r)
    ensures (!r.valid && r.firstBrokenId == Some(if SignedNext(chain, k) && chain[k + 1].id < e.id then chain[k + 1].id else e.id))
            || CollisionIn(mac, dumps, chain, chain + [e])
  {
    var t := Inserted(Without(chain, k), j, e);
    RenumberingIsLocated(mac, dumps, chain, k, j, e);
    if k + 1 < |chain| {
      assert Without(chain, k)[k] == chain[k + 1];
      PlaceFollowsId(Without(chain, k), j, e, k);
    }
    if !CollisionIn(mac, dumps, chain, chain + [e]) {
      var stop := if k < j && chain[k + 1].signature.Some? then k else j;
      ReportNames(mac, dumps, t, stop, r);
    }
  }

  /** A signed event followed by an unsigned one: deleting the first, or blanking its
      signature, leaves two more logs that verification accepts. */
  lemma UnnoticedDeletion(mac: Mac, dumps: Dumps, x: Entry, y: Entry)
    requires x.org == y.org && x.id < y.id && x.enabled && !y.enabled
    ensures var rows := Log(mac, dumps, [x, y]);
            && |rows| == 2 && rows[0].signature.Some? && Accepted(mac, dumps, rows)
            && Accepted(mac, dumps, Without(rows, 0))
            && Accepted(mac, dumps, rows[0 := rows[0].(signature := None)])
  {
    assert [x, y][..1] == [x] && [x][..0] == [];
    var e := Signed(mac, dumps, [], Unsigned(x), true);
    assert Log(mac, dumps, [x]) == [e];
    assert Log(mac, dumps, [x, y]) == [e, Unsigned(y)];
  }

  // ---------- the ledger object ----------

  class AuditLedger {
    const mac: Mac
    const dumps: Dumps
    var enabled: bool
    var rows: seq<Event>

    ghost predicate Valid()
      reads this
    {
      Honest(mac, dumps, rows)
    }

    constructor (mac: Mac, dumps: Dumps)
      ensures Valid() && rows == [] && this.mac == mac && this.dumps == dumps
    {
      this.mac, this.dumps := mac, dumps;
      enabled, rows := true, [];
    }

    /** Links and signs the row at index k, when integrity is enabled. */
    method SignEvent(k: nat)
      requires k < |rows|
      modifies this`rows
      ensures rows == old(rows)[k := Signed(mac, dumps, old(rows), old(rows)[k], enabled)]
      ensures !enabled ==> rows == old(rows)
      ensures enabled ==> rows[k].signature == Some(mac(Message(dumps, rows[k])))
      ensures enabled ==> rows[k].prevHash == LastHash(old(rows), rows[k].org, rows[k].id)
      ensures rows[k].(prevHash := old(rows)[k].prevHash, signature := old(rows)[k].signature) == old(rows)[k]
    {
      if !enabled {
        return;
      }
      var e := rows[k];
      var prev := LastHash(rows, e.org, e.id);
      rows := rows[k := e.(prevHash := prev)];
      MessageSkipsSignature(dumps, rows[k], Some(ComputeSignature(mac, dumps, rows[k])));
      rows := rows[k := rows[k].(signature := Some(ComputeSignature(mac, dumps, rows[k])))];
    }

    /** Inserts a row under any id above the ones in use, and signs it. */
    method LogEvent(id: int, org: int, kind: string, created: string, payload: Option<Payload>)
      requires Valid() && forall i :: 0 <= i < |rows| ==> rows[i].id < id
      modifies this`rows
      ensures Valid()
      ensures rows == old(rows) + [Signed(mac, dumps, old(rows),
                Unsigned(Entry(id, org, kind, created, payload, enabled)), enabled)]
      ensures LoggedAs(mac, dumps, old(rows), Entry(id, org, kind, created, payload, enabled), rows[|old(rows)|])
    {
      var e := Event(id, org, kind, created, payload, None, None);
      rows := rows + [e];
      SignEvent(|rows| - 1);
      LastHashSkips(old(rows), e);
      ghost var signed := Signed(mac, dumps, old(rows), e, enabled);
      HonestAppend(mac, dumps, old(rows), signed);
      assert rows == old(rows) + [signed];
      SignedRow(mac, dumps, old(rows), Entry(id, org, kind, created, payload, enabled));
    }

    /** Walks the rows of one organization, oldest first. */
    method VerifyChain(org: int, limit: nat) returns (r: Report)
      ensures var events := ForOrg(rows, org);
              Answers(mac, dumps, if limit < |events| then events[..limit] else events, r)
    {
      var events := ForOrg(rows, org);
      if limit < |events| {
        events := events[..limit];
      }
      if events == [] {
        return Report(true, 0, None);
      }
      var prevSig: Option<string> := None;
      for idx := 0 to |events|
        invariant prevSig == PrevSig(events, idx)
        invariant forall i :: 0 <= i < idx ==> SoundAt(mac, dumps, events, i)
      {
        var e := events[idx];
        if e.signature == None {
          prevSig := None;
        } else {
          if e.prevHash != prevSig {
            assert FirstBroken(mac, dumps, events, idx);
            return Report(false, idx + 1, Some(e.id));
          }
          var expected := ComputeSignature(mac, dumps, e);
          if e.signature.value != expected {
            assert FirstBroken(mac, dumps, events, idx);
            return Report(false, idx + 1, Some(e.id));
          }
          prevSig := e.signature;
        }
      }
      r := Report(true, |events|, None);
    }

    /** On a ledger that only this class wrote, verification always succeeds. */
    method VerifyHonest(org: int, limit: nat) returns (r: Report)
      requires Valid()
      ensures r.valid && r.firstBrokenId == None
      ensures r.checked == if limit < |ForOrg(rows, org)| then limit else |ForOrg(rows, org)|
    {
      assert Accepted(mac, dumps, ForOrg(rows, org));
      if limit < |ForOrg(rows, org)| {
        AcceptedPrefix(mac, dumps, ForOrg(rows, org), limit);
      }
      r := VerifyChain(org, limit);
    }
  }

  lemma LastHashSkips(rows: seq<Event>, e: Event)
    ensures LastHash(rows + [e], e.org, e.id) == LastHash(rows, e.org, e.id)
  {
  }
}
