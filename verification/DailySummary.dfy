/** At most one CEO summary per organization and local day (app/jobs/intelligence.py). */
module DailySummary {

  const DAY: int := 86_400
  const HOUR: int := 3_600

  /** A committed "ok" job row. `day` is the local day of the run that wrote it. */
  datatype Row = Row(org: int, day: int, finishedAt: int)

  /** What survives between ticks: the process memory and the committed rows. */
  datatype State = State(memory: map<int, int>, rows: seq<Row>)

  const START := State(map[], [])

  /** Calendar day, and second within the day, of an instant in seconds since the
      epoch; `offset` is the UTC offset of the time zone. */
  function Day(t: int, offset: int): int { (t + offset) / DAY }

  function SecondOfDay(t: int, offset: int): int { (t + offset) % DAY }

  /** Midnight UTC before the instant. */
  function UtcMidnight(t: int): int { Day(t, 0) * DAY }

  /** How a tick that decides to generate ends. */
  datatype Ending = Commits | CommitFails | FailsEarly

  /** A tick happens while the zone is `offset` seconds ahead of UTC. */
  datatype Event =
    | Restart
    | Tick(org: int, now: int, offset: int, queried: int, finished: int, ending: Ending)

  /** The clock reads of a tick come in order. The one for the query comes `lag`
      seconds after the first at most; two reads in a row may fall into different
      seconds, so that lag is 1 at least in practice. */
  ghost predicate Timely(e: Event, lag: int) {
    e.Tick? ==> e.now <= e.queried <= e.finished && e.queried <= e.now + lag
  }

  /** A zone is given by the UTC offsets it may have; daylight saving makes two. */
  type Zone = set<int>

  ghost predicate RunIn(events: seq<Event>, zone: Zone, lag: int) {
    forall i :: 0 <= i < |events| ==> Timely(events[i], lag) && (events[i].Tick? ==> events[i].offset in zone)
  }

  predicate AlreadyDone(rows: seq<Row>, org: int, since: int) {
    exists i :: 0 <= i < |rows| && rows[i].org == org && rows[i].finishedAt >= since
  }

  predicate GateOpen(now: int, offset: int) { SecondOfDay(now, offset) / HOUR >= 9 }

  /** `maybe_generate_daily_ceo_summary` as one step. */
  function Step(s: State, e: Event): State {
    match e
    case Restart => s.(memory := map[])
    case Tick(org, now, offset, queried, finished, ending) =>
      var day := Day(now, offset);
      if !GateOpen(now, offset) then s
      else if org in s.memory && s.memory[org] == day then s
      else if AlreadyDone(s.rows, org, UtcMidnight(queried)) then s.(memory := s.memory[org := day])
      else
        match ending
        case FailsEarly => s
        case CommitFails => s.(memory := s.memory[org := day])
        case Commits => State(s.memory[org := day], s.rows + [Row(org, day, finished)])
  }

  function Run(events: seq<Event>): State {
    if events == [] then START else Step(Run(events[..|events| - 1]), events[|events| - 1])
  }

  ghost predicate AtMostOncePerDay(rows: seq<Row>) {
    forall i, j :: 0 <= i < j < |rows| ==> rows[i].org != rows[j].org || rows[i].day != rows[j].day
  }

  /** The offsets for which the hours from 09:00 to midnight lie in one UTC day, with
      the lag to spare at its end. */
  predicate GateFitsUtcDay(offset: int, lag: int) { lag <= offset <= 9 * HOUR }

  predicate GateFits(zone: Zone, lag: int) { forall o :: o in zone ==> GateFitsUtcDay(o, lag) }

  /** UTC offsets in use on earth. */
  predicate RealOffset(offset: int) { -12 * HOUR <= offset <= 14 * HOUR }

  /** Asia/Kolkata, the default zone. */
  const KOLKATA: Zone := {19_800}

  /** Central Europe, with daylight saving. */
  const BERLIN: Zone := {HOUR, 2 * HOUR}

  /** London, with daylight saving. */
  const LONDON: Zone := {0, HOUR}

  // ---------- days ----------

  lemma DayUnique(t: int, offset: int, d: int)
    requires d * DAY <= t + offset < (d + 1) * DAY
    ensures Day(t, offset) == d && SecondOfDay(t, offset) == t + offset - d * DAY
  {
    assert t + offset == d * DAY + (t + offset - d * DAY);
  }

  lemma GateBounds(now: int, offset: int)
    requires GateOpen(now, offset)
    ensures Day(now, offset) * DAY + 9 * HOUR <= now + offset < (Day(now, offset) + 1) * DAY
  {
  }

  /** Behind the gate the UTC day of the query is the local day of the run, and the
      UTC day of its start. */
  lemma QueryDay(e: Event, lag: int)
    requires 0 <= lag && e.Tick? && GateFitsUtcDay(e.offset, lag) && GateOpen(e.now, e.offset) && Timely(e, lag)
    ensures UtcMidnight(e.queried) == Day(e.now, e.offset) * DAY
    ensures Day(e.now, e.offset) * DAY <= e.now < (Day(e.now, e.offset) + 1) * DAY
  {
    GateBounds(e.now, e.offset);
    DayUnique(e.queried, 0, Day(e.now, e.offset));
  }

  // ---------- safety ----------

  /** A row was written by a run that passed the gate on its day. */
  ghost predicate RowsInTime(rows: seq<Row>) {
    forall i :: 0 <= i < |rows| ==> rows[i].finishedAt >= rows[i].day * DAY
  }

  lemma StepKeepsOnce(s: State, e: Event, lag: int)
    requires 0 <= lag && Timely(e, lag) && (e.Tick? ==> GateFitsUtcDay(e.offset, lag))
    requires RowsInTime(s.rows) && AtMostOncePerDay(s.rows)
    ensures RowsInTime(Step(s, e).rows) && AtMostOncePerDay(Step(s, e).rows)
  {
    if Step(s, e).rows != s.rows {
      QueryDay(e, lag);
      NoRowYet(s.rows, e, lag);
    }
  }

  /** A query that finds nothing: there is no row of this day. */
  lemma NoRowYet(rows: seq<Row>, e: Event, lag: int)
    requires 0 <= lag && e.Tick? && GateFitsUtcDay(e.offset, lag) && GateOpen(e.now, e.offset) && Timely(e, lag)
    requires RowsInTime(rows) && !AlreadyDone(rows, e.org, UtcMidnight(e.queried))
    ensures !HasRow(rows, e.org, Day(e.now, e.offset))
  {
    QueryDay(e, lag);
    forall i | 0 <= i < |rows| ensures rows[i].org != e.org || rows[i].day != Day(e.now, e.offset) {
      assert rows[i].finishedAt >= rows[i].day * DAY;
    }
  }

  lemma {:induction false} RunKeepsOnce(events: seq<Event>, zone: Zone, lag: int)
    requires 0 <= lag && GateFits(zone, lag) && RunIn(events, zone, lag)
    ensures RowsInTime(Run(events).rows) && AtMostOncePerDay(Run(events).rows)
  {
    if events != [] {
      var n := |events| - 1;
      RunKeepsOnce(events[..n], zone, lag);
      StepKeepsOnce(Run(events[..n]), events[n], lag);
    }
  }

  /** The result of a run of two ticks with a restart between them. */
  lemma RunOfThree(x: Event, y: Event, z: Event)
    ensures Run([x, y, z]) == Step(Step(Step(START, x), y), z)
  {
    var all := [x, y, z];
    assert all[..2] == [x, y] && [x, y][..1] == [x] && [x][..0] == [];
    assert Run([x]) == Step(START, x);
    assert Run([x, y]) == Step(Run([x]), y);
  }

  /** A run with a restart in it that writes two summaries for one local day. */
  function TwiceInOneDay(offset: int): seq<Event> {
    var first := 9 * HOUR - offset;
    var second := if offset > 0 then 0 else DAY;
    [Tick(1, first, offset, first, first, Commits), Restart, Tick(1, second, offset, second, second, Commits)]
  }

  lemma TwiceHappens(offset: int)
    requires RealOffset(offset) && !GateFitsUtcDay(offset, 0)
    ensures RunIn(TwiceInOneDay(offset), {offset}, 0)
    ensures !AtMostOncePerDay(Run(TwiceInOneDay(offset)).rows)
  {
    var events := TwiceInOneDay(offset);
    var first, second := events[0].now, events[2].now;
    DayUnique(first, offset, 0);
    DayUnique(second, offset, 0);
    DayUnique(second, 0, second / DAY);
    RunOfThree(events[0], Restart, events[2]);
    var s2 := Step(Step(START, events[0]), Restart);
    assert s2.rows == [Row(1, 0, first)];
    assert !AlreadyDone(s2.rows, 1, UtcMidnight(second));
    var rows := Run(events).rows;
    assert rows == [Row(1, 0, first), Row(1, 0, second)];
    assert rows[0].day == rows[1].day && rows[0].org == rows[1].org;
  }

  /** The same in a zone that is ahead of UTC by less than the lag: a tick starts in
      the last second of the local day, and its query falls past UTC midnight. */
  function TwiceAtMidnight(offset: int): seq<Event> {
    var first, last := 9 * HOUR - offset, DAY - 1 - offset;
    [Tick(1, first, offset, first, first, Commits), Restart, Tick(1, last, offset, DAY, DAY, Commits)]
  }

  lemma TwiceHappensAtMidnight(offset: int, lag: int)
    requires 0 <= offset < lag && offset <= 9 * HOUR
    ensures RunIn(TwiceAtMidnight(offset), {offset}, lag)
    ensures !AtMostOncePerDay(Run(TwiceAtMidnight(offset)).rows)
  {
    var events := TwiceAtMidnight(offset);
    var first, last := events[0].now, events[2].now;
    DayUnique(first, offset, 0);
    DayUnique(last, offset, 0);
    DayUnique(DAY, 0, 1);
    RunOfThree(events[0], Restart, events[2]);
    var s2 := Step(Step(START, events[0]), Restart);
    assert s2.rows == [Row(1, 0, first)];
    assert !AlreadyDone(s2.rows, 1, UtcMidnight(DAY));
    var rows := Run(events).rows;
    assert rows == [Row(1, 0, first), Row(1, 0, DAY)];
    assert rows[0].day == rows[1].day && rows[0].org == rows[1].org;
  }

  /** Whatever the ticks, restarts and failed commits, no organization gets two
      summaries for one local day: this holds exactly for the zones that are always
      ahead of UTC by the lag between the clock reads at least, and by nine hours at
      most. */
  lemma AtMostOnceExactly(zone: Zone, lag: int)
    requires 0 <= lag && forall o :: o in zone ==> RealOffset(o)
    ensures (forall events :: RunIn(events, zone, lag) ==> AtMostOncePerDay(Run(events).rows)) <==> GateFits(zone, lag)
  {
    if GateFits(zone, lag) {
      forall events | RunIn(events, zone, lag) ensures AtMostOncePerDay(Run(events).rows) {
        RunKeepsOnce(events, zone, lag);
      }
    } else {
      var o :| o in zone && !GateFitsUtcDay(o, lag);
      if GateFitsUtcDay(o, 0) {
        TwiceHappensAtMidnight(o, lag);
        assert RunIn(TwiceAtMidnight(o), zone, lag);
      } else {
        TwiceHappens(o);
        assert RunIn(TwiceInOneDay(o), zone, lag);
      }
    }
  }

  /** With two clock reads a second apart, the default zone is safe and so is central
      Europe; UTC and London are not. */
  lemma ZonesInUse()
    ensures GateFits(KOLKATA, 1) && GateFits(BERLIN, 1)
    ensures RunIn(TwiceAtMidnight(0), {0}, 1) && !AtMostOncePerDay(Run(TwiceAtMidnight(0)).rows)
    ensures RunIn(TwiceAtMidnight(0), LONDON, 1)
  {
    TwiceHappensAtMidnight(0, 1);
  }

  // ---------- every day is served ----------

  ghost predicate HasRow(rows: seq<Row>, org: int, day: int) {
    exists i :: 0 <= i < |rows| && rows[i].org == org && rows[i].day == day
  }

  /** A tick behind the gate for this organization and local day. */
  predicate RunsFor(e: Event, org: int, day: int) {
    e.Tick? && e.org == org && GateOpen(e.now, e.offset) && Day(e.now, e.offset) == day
  }

  /** The i-th event lost the commit of that day, which had no row then, and no
      restart has followed. */
  ghost predicate LostAt(events: seq<Event>, i: nat, org: int, day: int)
    requires i < |events|
  {
    && RunsFor(events[i], org, day) && events[i].ending.CommitFails?
    && !HasRow(Run(events[..i]).rows, org, day)
    && forall j :: i < j < |events| ==> events[j].Tick?
  }

  ghost predicate Lost(events: seq<Event>, org: int, day: int) {
    exists i :: 0 <= i < |events| && LostAt(events, i, org, day)
  }

  /** Runs that finish before the next UTC midnight. */
  ghost predicate Prompt(events: seq<Event>) {
    forall i :: 0 <= i < |events| && events[i].Tick? ==> events[i].finished < UtcMidnight(events[i].now) + DAY
  }

  /** The clock does not run backwards from tick to tick. */
  ghost predicate ClockOrdered(events: seq<Event>) {
    forall i, j :: 0 <= i < j < |events| && events[i].Tick? && events[j].Tick? ==> events[i].now <= events[j].now
  }

  ghost predicate NotBefore(events: seq<Event>, clock: int) {
    forall i :: 0 <= i < |events| && events[i].Tick? ==> events[i].now <= clock
  }

  /** Everything that is required of the ticks of a run. */
  ghost predicate Regular(events: seq<Event>, zone: Zone, lag: int) {
    RunIn(events, zone, lag) && Prompt(events) && ClockOrdered(events)
  }

  ghost predicate RowsInPast(rows: seq<Row>, clock: int) {
    forall i :: 0 <= i < |rows| ==> rows[i].day * DAY <= clock && rows[i].finishedAt < (rows[i].day + 1) * DAY
  }

  /** Memory names a day only when its row was written, or its commit was lost since
      the last restart. */
  ghost predicate MemoryHonest(s: State, events: seq<Event>) {
    forall org :: org in s.memory ==> Served(s, events, org, s.memory[org])
  }

  ghost predicate Served(s: State, events: seq<Event>, org: int, day: int) {
    HasRow(s.rows, org, day) || Lost(events, org, day)
  }

  lemma HasRowLater(s: State, e: Event, org: int, day: int)
    requires HasRow(s.rows, org, day)
    ensures HasRow(Step(s, e).rows, org, day)
  {
    var i :| 0 <= i < |s.rows| && s.rows[i].org == org && s.rows[i].day == day;
    assert Step(s, e).rows[i] == s.rows[i];
  }

  lemma LostLater(events: seq<Event>, e: Event, org: int, day: int)
    requires e.Tick? && Lost(events, org, day)
    ensures Lost(events + [e], org, day)
  {
    var i :| 0 <= i < |events| && LostAt(events, i, org, day);
    var all := events + [e];
    assert all[..i] == events[..i] && all[i] == events[i];
    assert LostAt(all, i, org, day);
  }

  lemma LostNow(events: seq<Event>, e: Event, org: int, day: int)
    requires RunsFor(e, org, day) && e.ending.CommitFails? && !HasRow(Run(events).rows, org, day)
    ensures Lost(events + [e], org, day)
  {
    var all := events + [e];
    assert all[..|events|] == events && all[|events|] == e;
    assert LostAt(all, |events|, org, day);
  }

  /** A row found by the query is the row of this very day. */
  lemma FoundRowIsToday(rows: seq<Row>, e: Event, lag: int)
    requires 0 <= lag && e.Tick? && GateFitsUtcDay(e.offset, lag) && GateOpen(e.now, e.offset) && Timely(e, lag)
    requires RowsInPast(rows, e.now) && AlreadyDone(rows, e.org, UtcMidnight(e.queried))
    ensures HasRow(rows, e.org, Day(e.now, e.offset))
  {
    QueryDay(e, lag);
    var i :| 0 <= i < |rows| && rows[i].org == e.org && rows[i].finishedAt >= UtcMidnight(e.queried);
    assert rows[i].day == Day(e.now, e.offset);
  }

  /** The state of a run that has been regular so far. */
  ghost predicate Good(s: State, events: seq<Event>, clock: int) {
    s == Run(events) && RowsInTime(s.rows) && RowsInPast(s.rows, clock) && MemoryHonest(s, events)
  }

  /** One tick serves its own day, unless it fails early. */
  lemma TickServes(s: State, events: seq<Event>, e: Event, lag: int)
    requires 0 <= lag && e.Tick? && GateFitsUtcDay(e.offset, lag) && GateOpen(e.now, e.offset) && Timely(e, lag)
    requires Good(s, events, e.now)
    requires !e.ending.FailsEarly? || (e.org in Step(s, e).memory && Step(s, e).memory[e.org] == Day(e.now, e.offset))
    ensures Served(Step(s, e), events + [e], e.org, Day(e.now, e.offset))
  {
    var day := Day(e.now, e.offset);
    if e.org in s.memory && s.memory[e.org] == day {
      if HasRow(s.rows, e.org, day) {
        HasRowLater(s, e, e.org, day);
      } else {
        LostLater(events, e, e.org, day);
      }
    } else if AlreadyDone(s.rows, e.org, UtcMidnight(e.queried)) {
      FoundRowIsToday(s.rows, e, lag);
    } else if e.ending.CommitFails? {
      NoRowYet(s.rows, e, lag);
      LostNow(events, e, e.org, day);
    } else {
      assert Step(s, e).rows[|s.rows|].day == day;
    }
  }

  lemma TickKeepsMemoryHonest(s: State, events: seq<Event>, e: Event, lag: int)
    requires 0 <= lag && Timely(e, lag) && (e.Tick? ==> GateFitsUtcDay(e.offset, lag) && Good(s, events, e.now))
    ensures MemoryHonest(Step(s, e), events + [e])
  {
    var next := Step(s, e);
    forall org | org in next.memory ensures Served(next, events + [e], org, next.memory[org]) {
      if org in s.memory && s.memory[org] == next.memory[org] {
        if HasRow(s.rows, org, s.memory[org]) {
          HasRowLater(s, e, org, s.memory[org]);
        } else {
          LostLater(events, e, org, s.memory[org]);
        }
      } else {
        TickServes(s, events, e, lag);
      }
    }
  }

  lemma TickKeepsPast(s: State, e: Event, clock: int, lag: int)
    requires 0 <= lag && e.Tick? && Timely(e, lag) && GateFitsUtcDay(e.offset, lag)
    requires e.finished < UtcMidnight(e.now) + DAY
    requires RowsInPast(s.rows, clock) && clock <= e.now
    ensures RowsInPast(Step(s, e).rows, e.now)
  {
    if Step(s, e).rows != s.rows {
      QueryDay(e, lag);
      DayUnique(e.now, 0, Day(e.now, e.offset));
    }
  }

  lemma {:induction false} RunStaysGood(events: seq<Event>, zone: Zone, lag: int, clock: int)
    requires 0 <= lag && GateFits(zone, lag) && Regular(events, zone, lag) && NotBefore(events, clock)
    ensures Good(Run(events), events, clock)
  {
    RunKeepsOnce(events, zone, lag);
    if events != [] {
      var n := |events| - 1;
      var before, e := events[..n], events[n];
      assert events == before + [e];
      RegularPrefix(events, n, zone, lag);
      if e.Tick? {
        RunStaysGood(before, zone, lag, e.now);
        TickKeepsPast(Run(before), e, e.now, lag);
      } else {
        RunStaysGood(before, zone, lag, clock);
      }
      TickKeepsMemoryHonest(Run(before), before, e, lag);
    }
  }

  lemma RegularPrefix(events: seq<Event>, n: nat, zone: Zone, lag: int)
    requires n <= |events| && Regular(events, zone, lag)
    ensures Regular(events[..n], zone, lag)
    ensures n < |events| && events[n].Tick? ==> NotBefore(events[..n], events[n].now)
  {
  }

  /** Rows are never lost. */
  lemma {:induction false} RowsStay(events: seq<Event>, k: nat, org: int, day: int)
    requires k <= |events| && HasRow(Run(events[..k]).rows, org, day)
    ensures HasRow(Run(events).rows, org, day)
    decreases |events|
  {
    if k == |events| {
      assert events[..k] == events;
    } else {
      var n := |events| - 1;
      assert events[..n][..k] == events[..k];
      RowsStay(events[..n], k, org, day);
      HasRowLater(Run(events[..n]), events[n], org, day);
    }
  }

  /** A lost commit: memory names the day, and it has no row. */
  ghost predicate Stuck(s: State, org: int, day: int) {
    org in s.memory && s.memory[org] == day && !HasRow(s.rows, org, day)
  }

  lemma TickStaysStuck(s: State, e: Event, org: int, day: int)
    requires Stuck(s, org, day) && e.Tick?
    requires e.org == org && GateOpen(e.now, e.offset) ==> Day(e.now, e.offset) == day
    ensures Stuck(Step(s, e), org, day)
  {
    var rows := Step(s, e).rows;
    forall i | 0 <= i < |rows| ensures rows[i].org != org || rows[i].day != day {
      if i < |s.rows| {
        assert rows[i] == s.rows[i];
      }
    }
  }

  /** Between two ticks of one local day, the organization sees no other day. */
  lemma SameDayBetween(x: Event, y: Event, z: Event, org: int, day: int, lag: int)
    requires 0 <= lag && RunsFor(x, org, day) && RunsFor(z, org, day)
    requires y.Tick? && GateOpen(y.now, y.offset) && x.now <= y.now <= z.now
    requires Timely(x, lag) && Timely(y, lag) && Timely(z, lag)
    requires GateFitsUtcDay(x.offset, lag) && GateFitsUtcDay(y.offset, lag) && GateFitsUtcDay(z.offset, lag)
    ensures Day(y.now, y.offset) == day
  {
    QueryDay(x, lag);
    QueryDay(y, lag);
    QueryDay(z, lag);
  }

  /** From the lost commit to the next tick of that day, nothing moves. */
  lemma {:induction false} StuckSince(events: seq<Event>, i: nat, z: Event, org: int, day: int, zone: Zone, lag: int)
    requires 0 <= lag && GateFits(zone, lag) && Regular(events, zone, lag) && i < |events| && LostAt(events, i, org, day)
    requires RunsFor(z, org, day) && Timely(z, lag) && z.offset in zone && NotBefore(events, z.now)
    ensures Stuck(Run(events), org, day)
    decreases |events|
  {
    var n := |events| - 1;
    var before, e := events[..n], events[n];
    RegularPrefix(events, n, zone, lag);
    if i == n {
      LosesNow(before, e, zone, lag, org, day);
    } else {
      assert before[..i] == events[..i] && before[i] == events[i];
      assert LostAt(before, i, org, day);
      StuckSince(before, i, z, org, day, zone, lag);
      if e.org == org && GateOpen(e.now, e.offset) {
        SameDayBetween(events[i], e, z, org, day, lag);
      }
      TickStaysStuck(Run(before), e, org, day);
    }
  }

  lemma LosesNow(before: seq<Event>, e: Event, zone: Zone, lag: int, org: int, day: int)
    requires 0 <= lag && GateFits(zone, lag) && Regular(before, zone, lag)
    requires RunsFor(e, org, day) && NotBefore(before, e.now) && Timely(e, lag) && e.offset in zone
    requires e.ending.CommitFails?
    requires !HasRow(Run(before).rows, org, day)
    ensures Stuck(Step(Run(before), e), org, day)
  {
    RunStaysGood(before, zone, lag, e.now);
    if AlreadyDone(Run(before).rows, e.org, UtcMidnight(e.queried)) {
      FoundRowIsToday(Run(before).rows, e, lag);
    }
  }

  /** In every run of prompt ticks, a tick behind the gate that commits leaves a row for
      its organization and local day, if and only if no commit of that very day has
      been lost since the last restart. Rows stay, and there is one per day. So no
      day ever suppresses a later one. */
  lemma EveryDayIsServed(events: seq<Event>, zone: Zone, lag: int, k: nat, day: int)
    requires 0 <= lag && GateFits(zone, lag) && Regular(events, zone, lag)
    requires k < |events| && events[k].Tick? && RunsFor(events[k], events[k].org, day) && events[k].ending.Commits?
    ensures HasRow(Run(events[..k + 1]).rows, events[k].org, day) <==> !Lost(events[..k], events[k].org, day)
    ensures HasRow(Run(events[..k + 1]).rows, events[k].org, day) ==> HasRow(Run(events).rows, events[k].org, day)
    ensures AtMostOncePerDay(Run(events).rows)
  {
    RunKeepsOnce(events, zone, lag);
    ServedAt(events, zone, lag, k, day);
    if HasRow(Run(events[..k + 1]).rows, events[k].org, day) {
      RowsStay(events, k + 1, events[k].org, day);
    }
  }

  lemma ServedAt(events: seq<Event>, zone: Zone, lag: int, k: nat, day: int)
    requires 0 <= lag && GateFits(zone, lag) && Regular(events, zone, lag)
    requires k < |events| && events[k].Tick? && RunsFor(events[k], events[k].org, day) && events[k].ending.Commits?
    ensures HasRow(Run(events[..k + 1]).rows, events[k].org, day) <==> !Lost(events[..k], events[k].org, day)
  {
    var before, e, upto := events[..k], events[k], events[..k + 1];
    RegularPrefix(events, k, zone, lag);
    LastTickServes(before, e, zone, lag, day);
    assert upto == before + [e];
  }

  lemma LastTickServes(before: seq<Event>, e: Event, zone: Zone, lag: int, day: int)
    requires 0 <= lag && GateFits(zone, lag) && Regular(before, zone, lag)
    requires e.Tick? && NotBefore(before, e.now) && Timely(e, lag) && e.offset in zone
    requires RunsFor(e, e.org, day) && e.ending.Commits?
    ensures HasRow(Run(before + [e]).rows, e.org, day) <==> !Lost(before, e.org, day)
  {
    assert (before + [e])[..|before|] == before;
    RunStaysGood(before, zone, lag, e.now);
    if Lost(before, e.org, day) {
      var i :| 0 <= i < |before| && LostAt(before, i, e.org, day);
      StuckSince(before, i, e, e.org, day, zone, lag);
      TickStaysStuck(Run(before), e, e.org, day);
    } else {
      TickServes(Run(before), before, e, lag);
      if Lost(before + [e], e.org, day) {
        LostBefore(before, e, e.org, day);
      }
    }
  }

  lemma LostBefore(events: seq<Event>, e: Event, org: int, day: int)
    requires Lost(events + [e], org, day) && e.Tick? && e.ending.Commits?
    ensures Lost(events, org, day)
  {
    var all := events + [e];
    var i :| 0 <= i < |all| && LostAt(all, i, org, day);
    assert all[..i] == events[..i] && all[i] == events[i];
    assert forall j :: 0 <= j < |events| ==> events[j] == all[j];
    assert LostAt(events, i, org, day);
  }

  /** A lost commit does suppress the rest of its day; a restart ends that. */
  lemma LostCommitSuppresses(day: int)
    ensures var t := day * DAY + 9 * HOUR;
            var x, y := Tick(1, t, HOUR, t, t, CommitFails), Tick(1, t + 1, HOUR, t + 1, t + 1, Commits);
            Run([x, y]).rows == [] && Run([x, Restart, y]).rows == [Row(1, day, t + 1)]
  {
    var t := day * DAY + 9 * HOUR;
    var x, y := Tick(1, t, HOUR, t, t, CommitFails), Tick(1, t + 1, HOUR, t + 1, t + 1, Commits);
    DayUnique(t, HOUR, day);
    DayUnique(t + 1, HOUR, day);
    assert [x, y][..1] == [x] && [x][..0] == [];
    assert Run([x]) == Step(START, x);
    assert Run([x, y]) == Step(Run([x]), y);
    RunOfThree(x, Restart, y);
  }

  /** A run that ends after the next UTC midnight does suppress the next day. */
  lemma LateFinishSuppressesNextDay()
    ensures var noon := DAY + 12 * HOUR;
            var x, y := Tick(1, DAY - 2 * HOUR, HOUR, DAY - 2 * HOUR, DAY, Commits), Tick(1, noon, HOUR, noon, noon, Commits);
            && RunIn([x, y], {HOUR}, 0) && ClockOrdered([x, y]) && Run([x, y]).rows == [Row(1, 0, DAY)]
  {
    var noon := DAY + 12 * HOUR;
    var x, y := Tick(1, DAY - 2 * HOUR, HOUR, DAY - 2 * HOUR, DAY, Commits), Tick(1, noon, HOUR, noon, noon, Commits);
    DayUnique(DAY - 2 * HOUR, HOUR, 0);
    DayUnique(noon, HOUR, 1);
    DayUnique(noon, 0, 1);
    assert [x, y][..1] == [x] && [x][..0] == [];
    assert Run([x]) == Step(START, x);
    assert Run([x]).rows[0].finishedAt >= UtcMidnight(y.queried);
    assert Run([x, y]) == Step(Run([x]), y);
  }

  // ---------- the job object ----------

  class SummaryJob {
    var memory: map<int, int>
    var rows: seq<Row>

    function View(): State
      reads this
    {
      State(memory, rows)
    }

    constructor ()
      ensures View() == START
    {
      memory, rows := map[], [];
    }

    /** A new process starts with an empty memory. */
    method ProcessRestart()
      modifies this
      ensures View() == Step(old(View()), Restart)
    {
      memory := map[];
    }

    /** The query for an "ok" row finished since the given instant. */
    method FindRow(org: int, since: int) returns (found: bool)
      ensures found == AlreadyDone(rows, org, since)
    {
      for i := 0 to |rows|
        invariant !AlreadyDone(rows[..i], org, since)
      {
        if rows[i].org == org && rows[i].finishedAt >= since {
          return true;
        }
      }
      assert rows[..|rows|] == rows;
      return false;
    }

    method MaybeGenerate(org: int, now: int, offset: int, queried: int, finished: int, ending: Ending)
      modifies this
      ensures View() == Step(old(View()), Tick(org, now, offset, queried, finished, ending))
    {
      if SecondOfDay(now, offset) / HOUR < 9 {
        return;
      }
      var dayKey := Day(now, offset);
      if org in memory && memory[org] == dayKey {
        return;
      }
      var todayStart := UtcMidnight(queried);
      var existing := FindRow(org, todayStart);
      if existing {
        memory := memory[org := dayKey];
        return;
      }
      if ending.FailsEarly? {
        return;
      }
      memory := memory[org := dayKey];
      if ending.Commits? {
        rows := rows + [Row(org, dayKey, finished)];
      }
    }
  }
}
