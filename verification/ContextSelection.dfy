/** Ranking context layers and fitting them into a budget (app/memory/retrieval.py). */
module ContextSelection {
  import opened Text
  import opened SensitiveKeys

  // ---------- scores ----------

  /** `created` is the parsed creation time in hours, when there is one. */
  datatype Layer = Layer(kind: string, source: string, priority: int, content: string, charCount: nat,
                         created: Option<real>, score: real)

  const CRITICAL_SOURCES: set<string> := {"priority", "blocker", "risk", "incident"}

  function Min(a: real, b: real): real { if a <= b then a else b }

  function RawScore(x: Layer, now: real): real {
    var kind, age := Lower(x.kind), if x.created.Some? then now - x.created.value else 0.0;
    100.0 - x.priority as real * 10.0
    + (if kind == "daily" then 12.0 else 0.0)
    + (if Lower(x.source) in CRITICAL_SOURCES then 15.0 else 0.0)
    - (if age > 0.0 then Min(30.0, age * 0.75) else 0.0)
    + (if kind == "integration" && (Has(Lower(x.content), "disconnected") || Has(Lower(x.content), "failed")) then 6.0 else 0.0)
  }

  function Map<T, U>(f: T -> U, s: seq<T>): seq<U> {
    if s == [] then [] else [f(s[0])] + Map(f, s[1..])
  }

  /** Puts its score on a layer; `round2` is rounding to two decimals. */
  function Scorer(now: real, round2: real -> real): Layer -> Layer {
    (x: Layer) => x.(score := round2(RawScore(x, now)))
  }

  function Scored(layers: seq<Layer>, now: real, round2: real -> real): seq<Layer> {
    Map(Scorer(now, round2), layers)
  }

  // ---------- the sort key ----------

  datatype Key = Key(negScore: real, priority: int, kind: string, source: string, content: string)

  function KeyOf(x: Layer): Key { Key(-x.score, x.priority, x.kind, x.source, x.content) }

  /** String order by code points. */
  predicate StrLeq(a: string, b: string) {
    a == "" || (b != "" && (a[0] < b[0] || (a[0] == b[0] && StrLeq(a[1..], b[1..]))))
  }

  /** Tuple order. */
  predicate KeyLeq(a: Key, b: Key) {
    || a.negScore < b.negScore
    || (a.negScore == b.negScore
        && (|| a.priority < b.priority
            || (a.priority == b.priority && StrsLeq(a.kind, b.kind, a.source, b.source, a.content, b.content))))
  }

  predicate StrsLeq(a1: string, b1: string, a2: string, b2: string, a3: string, b3: string) {
    if a1 != b1 then StrLeq(a1, b1) else if a2 != b2 then StrLeq(a2, b2) else StrLeq(a3, b3)
  }

  lemma {:induction false} StrTotal(a: string, b: string)
    ensures StrLeq(a, b) || StrLeq(b, a)
    ensures StrLeq(a, b) && StrLeq(b, a) ==> a == b
  {
    if a != "" && b != "" && a[0] == b[0] {
      StrTotal(a[1..], b[1..]);
      assert a == [a[0]] + a[1..] && b == [b[0]] + b[1..];
    }
  }

  lemma {:induction false} StrTransitive(a: string, b: string, c: string)
    requires StrLeq(a, b) && StrLeq(b, c)
    ensures StrLeq(a, c)
  {
    if a != "" && a[0] == b[0] == c[0] {
      StrTransitive(a[1..], b[1..], c[1..]);
    }
  }

  lemma KeyTotal(a: Key, b: Key)
    ensures KeyLeq(a, b) || KeyLeq(b, a)
    ensures KeyLeq(a, b) && KeyLeq(b, a) ==> a == b
  {
    StrTotal(a.kind, b.kind);
    StrTotal(a.source, b.source);
    StrTotal(a.content, b.content);
  }

  lemma KeyTransitive(a: Key, b: Key, c: Key)
    requires KeyLeq(a, b) && KeyLeq(b, c)
    ensures KeyLeq(a, c)
  {
    if a.negScore == b.negScore == c.negScore && a.priority == b.priority == c.priority {
      StrsTransitive(a, b, c);
    }
  }

  lemma StrsTransitive(a: Key, b: Key, c: Key)
    requires StrsLeq(a.kind, b.kind, a.source, b.source, a.content, b.content)
    requires StrsLeq(b.kind, c.kind, b.source, c.source, b.content, c.content)
    ensures StrsLeq(a.kind, c.kind, a.source, c.source, a.content, c.content)
  {
    StrTotal(a.kind, b.kind);
    StrTotal(b.kind, c.kind);
    StrTotal(a.source, b.source);
    StrTotal(b.source, c.source);
    if a.kind != b.kind && b.kind != c.kind {
      StrTransitive(a.kind, b.kind, c.kind);
    } else if a.kind == b.kind == c.kind {
      if a.source != b.source && b.source != c.source {
        StrTransitive(a.source, b.source, c.source);
      } else if a.source == b.source == c.source {
        StrTransitive(a.content, b.content, c.content);
      }
    }
  }

  // ---------- sorting ----------

  ghost predicate SortedByKey(s: seq<Layer>) {
    forall i, j :: 0 <= i < j < |s| ==> KeyLeq(KeyOf(s[i]), KeyOf(s[j]))
  }

  function Keys(s: seq<Layer>): seq<Key> { Map(KeyOf, s) }

  lemma {:induction false} MapAt<T, U>(f: T -> U, s: seq<T>)
    ensures |Map(f, s)| == |s| && forall i :: 0 <= i < |s| ==> Map(f, s)[i] == f(s[i])
  {
    if s != [] {
      MapAt(f, s[1..]);
    }
  }

  lemma {:induction false} MapOfConcat<T, U>(f: T -> U, a: seq<T>, b: seq<T>)
    ensures Map(f, a + b) == Map(f, a) + Map(f, b)
  {
    if a == [] {
      assert a + b == b;
    } else {
      assert (a + b)[1..] == a[1..] + b;
      MapOfConcat(f, a[1..], b);
    }
  }

  function Removed<T>(s: seq<T>, i: nat): seq<T>
    requires i < |s|
  {
    s[..i] + s[i + 1..]
  }

  lemma MultisetRemoved<T>(s: seq<T>, i: nat)
    requires i < |s|
    ensures multiset(s) == multiset(Removed(s, i)) + multiset{s[i]}
  {
    assert s == s[..i] + ([s[i]] + s[i + 1..]);
  }

  lemma MultisetOfMiddle<T>(a: seq<T>, x: T, b: seq<T>)
    ensures multiset(a + ([x] + b)) == multiset(a + b) + multiset{x}
  {
  }

  lemma MapOfMiddle<T, U>(f: T -> U, a: seq<T>, x: T, b: seq<T>)
    ensures Map(f, a + ([x] + b)) == Map(f, a) + ([f(x)] + Map(f, b))
  {
    MapOfConcat(f, a, [x] + b);
    assert ([x] + b)[1..] == b;
  }

  lemma {:induction false} MapRemoved<T, U>(f: T -> U, s: seq<T>, i: nat)
    requires i < |s|
    ensures multiset(Map(f, s)) == multiset(Map(f, Removed(s, i))) + multiset{f(s[i])}
  {
    var a, b := s[..i], s[i + 1..];
    assert s == a + ([s[i]] + b);
    MapOfMiddle(f, a, s[i], b);
    MapOfConcat(f, a, b);
    MultisetOfMiddle(Map(f, a), f(s[i]), Map(f, b));
  }

  lemma RemoveSame<T>(a: seq<T>, b: seq<T>, i: nat, j: nat)
    requires multiset(a) == multiset(b) && i < |a| && j < |b| && a[i] == b[j]
    ensures multiset(Removed(a, i)) == multiset(Removed(b, j))
  {
    MultisetRemoved(a, i);
    MultisetRemoved(b, j);
    var x, y := multiset(Removed(a, i)), multiset(Removed(b, j));
    assert x == x + multiset{a[i]} - multiset{a[i]};
    assert y == y + multiset{a[i]} - multiset{a[i]};
  }

  lemma IndexOf<T>(s: seq<T>, x: T) returns (i: nat)
    requires x in multiset(s)
    ensures i < |s| && s[i] == x
  {
    i :| 0 <= i < |s| && s[i] == x;
  }

  /** Mapping a permutation permutes the result. */
  lemma {:induction false} MapOfPermutation<T, U>(f: T -> U, a: seq<T>, b: seq<T>)
    requires multiset(a) == multiset(b)
    ensures multiset(Map(f, a)) == multiset(Map(f, b))
    decreases |a|
  {
    if a == [] {
      assert |multiset(b)| == 0;
    } else {
      var n := |a| - 1;
      assert a[n] in multiset(a);
      var i := IndexOf(b, a[n]);
      RemoveSame(a, b, n, i);
      MapRemoved(f, a, n);
      MapRemoved(f, b, i);
      MapOfPermutation(f, Removed(a, n), Removed(b, i));
    }
  }

  ghost predicate SortedKeys(k: seq<Key>) {
    forall i, j :: 0 <= i < j < |k| ==> KeyLeq(k[i], k[j])
  }

  lemma FirstIsLeast(k: seq<Key>, x: Key)
    requires SortedKeys(k) && x in k
    ensures KeyLeq(k[0], x)
  {
    KeyTotal(x, x);
  }

  lemma HeadsEqual(a: seq<Key>, b: seq<Key>)
    requires SortedKeys(a) && SortedKeys(b) && multiset(a) == multiset(b) && a != []
    ensures b != [] && a[0] == b[0]
  {
    assert a[0] in multiset(a) && b[0] in multiset(b);
    FirstIsLeast(a, b[0]);
    FirstIsLeast(b, a[0]);
    KeyTotal(a[0], b[0]);
  }

  lemma TailsPermute<T>(a: seq<T>, b: seq<T>)
    requires a != [] && b != [] && a[0] == b[0] && multiset(a) == multiset(b)
    ensures multiset(a[1..]) == multiset(b[1..])
  {
    RemoveSame(a, b, 0, 0);
    assert Removed(a, 0) == a[1..] && Removed(b, 0) == b[1..];
  }

  /** There is only one sorted arrangement of given keys. */
  lemma {:induction false} SortedKeysUnique(a: seq<Key>, b: seq<Key>)
    requires SortedKeys(a) && SortedKeys(b) && multiset(a) == multiset(b)
    ensures a == b
  {
    if a == [] {
      assert |multiset(b)| == 0;
    } else {
      HeadsEqual(a, b);
      TailsPermute(a, b);
      SortedKeysUnique(a[1..], b[1..]);
      assert a == [a[0]] + a[1..] && b == [b[0]] + b[1..];
    }
  }

  /** Two sorted arrangements of the same layers show the same keys in order. */
  lemma KeySequenceIsDetermined(a: seq<Layer>, b: seq<Layer>)
    requires SortedByKey(a) && SortedByKey(b) && multiset(a) == multiset(b)
    ensures Keys(a) == Keys(b)
  {
    MapAt(KeyOf, a);
    MapAt(KeyOf, b);
    MapOfPermutation(KeyOf, a, b);
    SortedKeysUnique(Keys(a), Keys(b));
  }

  /** Puts one layer behind every layer whose key is not greater. */
  function Insert(s: seq<Layer>, x: Layer): seq<Layer> {
    if s == [] then [x]
    else
      var n := |s| - 1;
      if KeyLeq(KeyOf(s[n]), KeyOf(x)) then s + [x] else Insert(s[..n], x) + [s[n]]
  }

  function Sort(s: seq<Layer>): seq<Layer> {
    if s == [] then [] else Insert(Sort(s[..|s| - 1]), s[|s| - 1])
  }

  /** The ranking: scores first, then a stable sort. */
  function Rank(layers: seq<Layer>, now: real, round2: real -> real): seq<Layer> {
    Sort(Scored(layers, now, round2))
  }

  lemma {:induction false} InsertPermutes(s: seq<Layer>, x: Layer)
    ensures multiset(Insert(s, x)) == multiset(s) + multiset{x}
  {
    if s != [] {
      var n := |s| - 1;
      assert s == s[..n] + [s[n]];
      if !KeyLeq(KeyOf(s[n]), KeyOf(x)) {
        InsertPermutes(s[..n], x);
      }
    }
  }

  lemma {:induction false} InsertSorts(s: seq<Layer>, x: Layer)
    requires SortedByKey(s)
    ensures SortedByKey(Insert(s, x))
  {
    if s != [] {
      var n := |s| - 1;
      var last := s[n];
      if KeyLeq(KeyOf(last), KeyOf(x)) {
        forall i | 0 <= i < n ensures KeyLeq(KeyOf(s[i]), KeyOf(x)) {
          KeyTransitive(KeyOf(s[i]), KeyOf(last), KeyOf(x));
        }
      } else {
        InsertSorts(s[..n], x);
        InsertPermutes(s[..n], x);
        KeyTotal(KeyOf(last), KeyOf(x));
        var front := Insert(s[..n], x);
        forall i | 0 <= i < |front| ensures KeyLeq(KeyOf(front[i]), KeyOf(last)) {
          assert front[i] in multiset(front);
        }
      }
    }
  }

  /** The layers of one key, in order. */
  function OfKey(s: seq<Layer>, k: Key): seq<Layer> {
    if s == [] then []
    else OfKey(s[..|s| - 1], k) + if KeyOf(s[|s| - 1]) == k then [s[|s| - 1]] else []
  }

  lemma OfKeyAppend(s: seq<Layer>, x: Layer, k: Key)
    ensures OfKey(s + [x], k) == OfKey(s, k) + if KeyOf(x) == k then [x] else []
  {
  }

  lemma {:induction false} InsertIsStable(s: seq<Layer>, x: Layer, k: Key)
    ensures OfKey(Insert(s, x), k) == OfKey(s, k) + if KeyOf(x) == k then [x] else []
  {
    if s == [] {
      assert [x][..0] == [];
    } else {
      var n := |s| - 1;
      if KeyLeq(KeyOf(s[n]), KeyOf(x)) {
        OfKeyAppend(s, x, k);
      } else {
        KeyTotal(KeyOf(s[n]), KeyOf(x));
        InsertIsStable(s[..n], x, k);
        OfKeyAppend(Insert(s[..n], x), s[n], k);
      }
    }
  }

  lemma {:induction false} SortPermutes(s: seq<Layer>)
    ensures multiset(Sort(s)) == multiset(s)
  {
    if s != [] {
      var n := |s| - 1;
      SortPermutes(s[..n]);
      InsertPermutes(Sort(s[..n]), s[n]);
      MultisetRemoved(s, n);
      assert Removed(s, n) == s[..n];
    }
  }

  lemma {:induction false} SortSorts(s: seq<Layer>)
    ensures SortedByKey(Sort(s))
  {
    if s != [] {
      SortSorts(s[..|s| - 1]);
      InsertSorts(Sort(s[..|s| - 1]), s[|s| - 1]);
    }
  }

  lemma {:induction false} SortIsStable(s: seq<Layer>, k: Key)
    ensures OfKey(Sort(s), k) == OfKey(s, k)
  {
    if s != [] {
      var n := |s| - 1;
      SortIsStable(s[..n], k);
      InsertIsStable(Sort(s[..n]), s[n], k);
      OfKeyAppend(Sort(s[..n]), s[n], k);
    }
  }

  /** Ranking sorts the scored layers by key, loses and adds none, and keeps layers
      of equal key in their order. */
  lemma RankIsStableSort(layers: seq<Layer>, now: real, round2: real -> real, k: Key)
    ensures SortedByKey(Rank(layers, now, round2))
    ensures multiset(Rank(layers, now, round2)) == multiset(Scored(layers, now, round2))
    ensures OfKey(Rank(layers, now, round2), k) == OfKey(Scored(layers, now, round2), k)
  {
    SortSorts(Scored(layers, now, round2));
    SortPermutes(Scored(layers, now, round2));
    SortIsStable(Scored(layers, now, round2), k);
  }

  /** The key sequence does not depend on the order of the input. */
  lemma RankIgnoresInputOrder(a: seq<Layer>, b: seq<Layer>, now: real, round2: real -> real)
    requires multiset(a) == multiset(b)
    ensures Keys(Rank(a, now, round2)) == Keys(Rank(b, now, round2))
  {
    var k := Key(0.0, 0, "", "", "");
    MapOfPermutation(Scorer(now, round2), a, b);
    RankIsStableSort(a, now, round2, k);
    RankIsStableSort(b, now, round2, k);
    KeySequenceIsDetermined(Rank(a, now, round2), Rank(b, now, round2));
  }

  /** The score of one layer, built up step by step. */
  method ScoreLayer(x: Layer, now: real, round2: real -> real) returns (scored: Layer)
    ensures scored == Scorer(now, round2)(x)
  {
    var score := 100.0 - x.priority as real * 10.0;
    var kind := Lower(x.kind);
    if kind == "daily" {
      score := score + 12.0;
    }
    if Lower(x.source) in CRITICAL_SOURCES {
      score := score + 15.0;
    }
    if x.created.Some? && now - x.created.value > 0.0 {
      score := score - Min(30.0, (now - x.created.value) * 0.75);
    }
    if kind == "integration" && (Has(Lower(x.content), "disconnected") || Has(Lower(x.content), "failed")) {
      score := score + 6.0;
    }
    assert score == RawScore(x, now);
    scored := x.(score := round2(score));
  }

  /** `rank_context_layers` */
  method RankContextLayers(layers: seq<Layer>, now: real, round2: real -> real) returns (ranked: seq<Layer>)
    ensures ranked == Rank(layers, now, round2)
    ensures SortedByKey(ranked) && multiset(ranked) == multiset(Scored(layers, now, round2))
  {
    ranked := [];
    for i := 0 to |layers|
      invariant ranked == Scored(layers[..i], now, round2)
    {
      var scored := ScoreLayer(layers[i], now, round2);
      MapOfConcat(Scorer(now, round2), layers[..i], [layers[i]]);
      assert layers[..i + 1] == layers[..i] + [layers[i]];
      ranked := ranked + [scored];
    }
    assert layers[..|layers|] == layers;
    SortSorts(ranked);
    SortPermutes(ranked);
    ranked := Sort(ranked);
  }

  // ---------- what the scores are for ----------

  /** Rounding keeps the order and moves a score by half a hundredth at most. */
  ghost predicate Rounds(round2: real -> real) {
    && (forall x, y :: x <= y ==> round2(x) <= round2(y))
    && forall x :: x - 0.005 <= round2(x) <= x + 0.005
  }

  /** Hours since creation; a layer without a creation time counts as new. */
  function Age(x: Layer, now: real): real {
    if x.created.Some? && now - x.created.value > 0.0 then now - x.created.value else 0.0
  }

  /** The layers differ in score and creation time only. */
  predicate SameButTime(a: Layer, b: Layer) { a == b.(created := a.created, score := a.score) }

  /** The layers differ in score and source only. */
  predicate SameButSource(a: Layer, b: Layer) { a == b.(source := a.source, score := a.score) }

  predicate IsCritical(x: Layer) { Lower(x.source) in CRITICAL_SOURCES }

  /** The layers differ in score and priority only. */
  predicate SameButPriority(a: Layer, b: Layer) { a == b.(priority := a.priority, score := a.score) }

  /** The layers differ in score and kind only. */
  predicate SameButKind(a: Layer, b: Layer) { a == b.(kind := a.kind, score := a.score) }

  /** The layers differ in score and content only. */
  predicate SameButContent(a: Layer, b: Layer) { a == b.(content := a.content, charCount := a.charCount, score := a.score) }

  predicate IsDaily(x: Layer) { Lower(x.kind) == "daily" }

  predicate IsIntegration(x: Layer) { Lower(x.kind) == "integration" }

  predicate ReportsFailure(x: Layer) { Has(Lower(x.content), "disconnected") || Has(Lower(x.content), "failed") }

  /** A fresher layer scores no less. Every hour costs three quarters of a point, for
      the first forty hours. */
  lemma FresherScoresMore(a: Layer, b: Layer, now: real)
    requires SameButTime(a, b) && Age(a, now) <= Age(b, now)
    ensures RawScore(a, now) >= RawScore(b, now)
    ensures Age(b, now) <= 40.0 ==> RawScore(a, now) == RawScore(b, now) + (Age(b, now) - Age(a, now)) * 0.75
    ensures Age(a, now) >= 40.0 ==> RawScore(a, now) == RawScore(b, now)
  {
  }

  /** A new layer without anything special scores by its priority alone. */
  lemma PlainScore(x: Layer, now: real)
    requires Age(x, now) == 0.0 && !IsCritical(x) && !IsDaily(x) && !(IsIntegration(x) && ReportsFailure(x))
    ensures RawScore(x, now) == 100.0 - x.priority as real * 10.0
  {
  }

  lemma CriticalScoresMore(a: Layer, b: Layer, now: real)
    requires SameButSource(a, b) && IsCritical(a) && !IsCritical(b)
    ensures RawScore(a, now) == RawScore(b, now) + 15.0
  {
  }

  lemma UrgentScoresMore(a: Layer, b: Layer, now: real)
    requires SameButPriority(a, b)
    ensures RawScore(a, now) == RawScore(b, now) + (b.priority - a.priority) as real * 10.0
  {
  }

  lemma DailyScoresMore(a: Layer, b: Layer, now: real)
    requires SameButKind(a, b) && IsDaily(a) && !IsDaily(b)
    ensures RawScore(a, now) == RawScore(b, now) + if IsIntegration(b) && ReportsFailure(b) then 6.0 else 12.0
  {
    assert "daily" != "integration";
  }

  lemma FailureScoresMore(a: Layer, b: Layer, now: real)
    requires SameButContent(a, b) && IsIntegration(a) && ReportsFailure(a) && !ReportsFailure(b)
    ensures RawScore(a, now) == RawScore(b, now) + 6.0
  {
  }

  lemma ScoreCountsNot(x: Layer, score: real, now: real)
    ensures RawScore(x.(score := score), now) == RawScore(x, now)
  {
  }

  /** Every ranked layer is an input layer with its score put on. */
  lemma RankedFrom(layers: seq<Layer>, now: real, round2: real -> real, i: nat) returns (j: nat)
    requires i < |Rank(layers, now, round2)|
    ensures j < |layers| && Rank(layers, now, round2)[i] == layers[j].(score := round2(RawScore(layers[j], now)))
  {
    var ranked, scored := Rank(layers, now, round2), Scored(layers, now, round2);
    SortPermutes(scored);
    MapAt(Scorer(now, round2), layers);
    assert ranked[i] in multiset(ranked);
    j := IndexOf(scored, ranked[i]);
    assert scored[j] == Scorer(now, round2)(layers[j]);
  }

  /** Every ranked layer carries the score of its own fields. */
  lemma RankedScore(layers: seq<Layer>, now: real, round2: real -> real, i: nat)
    requires i < |Rank(layers, now, round2)|
    ensures Rank(layers, now, round2)[i].score == round2(RawScore(Rank(layers, now, round2)[i], now))
  {
    var j := RankedFrom(layers, now, round2, i);
    ScoreCountsNot(layers[j], round2(RawScore(layers[j], now)), now);
  }

  /** Of two layers that differ only in their age, the fresher one is never ranked
      behind the other, unless their keys are the same. */
  lemma FresherRanksFirst(layers: seq<Layer>, now: real, round2: real -> real, i: nat, j: nat)
    requires Rounds(round2) && i < j < |Rank(layers, now, round2)|
    requires var ranked := Rank(layers, now, round2);
             SameButTime(ranked[i], ranked[j]) && Age(ranked[j], now) <= Age(ranked[i], now)
    ensures KeyOf(Rank(layers, now, round2)[i]) == KeyOf(Rank(layers, now, round2)[j])
  {
    var ranked := Rank(layers, now, round2);
    SortSorts(Scored(layers, now, round2));
    RankedScore(layers, now, round2, i);
    RankedScore(layers, now, round2, j);
    FresherScoresMore(ranked[j], ranked[i], now);
    KeyTotal(KeyOf(ranked[i]), KeyOf(ranked[j]));
  }

  /** A layer that scores more, by more than rounding can take, is ranked in front. */
  lemma HigherRanksFirst(layers: seq<Layer>, now: real, round2: real -> real, i: nat, j: nat)
    requires Rounds(round2) && i < |Rank(layers, now, round2)| && j < |Rank(layers, now, round2)|
    requires var ranked := Rank(layers, now, round2); RawScore(ranked[i], now) > RawScore(ranked[j], now) + 0.01
    ensures i < j
  {
    var ranked := Rank(layers, now, round2);
    SortSorts(Scored(layers, now, round2));
    RankedScore(layers, now, round2, i);
    RankedScore(layers, now, round2, j);
    assert ranked[i].score > ranked[j].score;
    assert !KeyLeq(KeyOf(ranked[j]), KeyOf(ranked[i]));
  }

  /** Of two layers that differ in one respect only, the one from a critical source,
      the more urgent one, the daily one, or the one of an integration that reports
      a failure is always ranked in front. */
  lemma BoostedRanksFirst(layers: seq<Layer>, now: real, round2: real -> real, i: nat, j: nat)
    requires Rounds(round2) && i < |Rank(layers, now, round2)| && j < |Rank(layers, now, round2)|
    requires var a, b := Rank(layers, now, round2)[i], Rank(layers, now, round2)[j];
             || (SameButSource(a, b) && IsCritical(a) && !IsCritical(b))
             || (SameButPriority(a, b) && a.priority < b.priority)
             || (SameButKind(a, b) && IsDaily(a) && !IsDaily(b))
             || (SameButContent(a, b) && IsIntegration(a) && ReportsFailure(a) && !ReportsFailure(b))
    ensures i < j
  {
    var a, b := Rank(layers, now, round2)[i], Rank(layers, now, round2)[j];
    if SameButSource(a, b) && IsCritical(a) && !IsCritical(b) {
      CriticalScoresMore(a, b, now);
    } else if SameButPriority(a, b) && a.priority < b.priority {
      UrgentScoresMore(a, b, now);
    } else if SameButKind(a, b) && IsDaily(a) && !IsDaily(b) {
      DailyScoresMore(a, b, now);
    } else {
      FailureScoresMore(a, b, now);
    }
    HigherRanksFirst(layers, now, round2, i, j);
  }

  // ---------- whole layers within a budget ----------

  function TotalChars(layers: seq<Layer>): nat {
    if layers == [] then 0 else TotalChars(layers[..|layers| - 1]) + layers[|layers| - 1].charCount
  }

  lemma {:induction false} TotalMonotone(layers: seq<Layer>, i: nat, j: nat)
    requires i <= j <= |layers|
    ensures TotalChars(layers[..i]) <= TotalChars(layers[..j])
    decreases j
  {
    if i < j {
      TotalMonotone(layers, i, j - 1);
      assert layers[..j][..j - 1] == layers[..j - 1];
    }
  }

  /** The first k layers are all that fit. */
  ghost predicate LongestKept(ranked: seq<Layer>, k: nat, limit: int) {
    k <= |ranked| && forall j :: 0 < j <= |ranked| ==> (TotalChars(ranked[..j]) <= limit <==> j <= k)
  }

  /** How many ranked layers fit. */
  function FittingLayers(ranked: seq<Layer>, limit: int): (k: nat)
    ensures k <= |ranked|
  {
    if ranked == [] then 0
    else
      var n := |ranked| - 1;
      var k := FittingLayers(ranked[..n], limit);
      if k == n && TotalChars(ranked) <= limit then n + 1 else k
  }

  /** The ranked layers that `build_typed_context` keeps. */
  function Selected(ranked: seq<Layer>, limit: int): seq<Layer> { ranked[..FittingLayers(ranked, limit)] }

  lemma {:induction false} FittingIsLongestKept(ranked: seq<Layer>, limit: int)
    ensures LongestKept(ranked, FittingLayers(ranked, limit), limit)
  {
    if ranked != [] {
      var n := |ranked| - 1;
      FittingIsLongestKept(ranked[..n], limit);
      var k := FittingLayers(ranked[..n], limit);
      assert ranked[..|ranked|] == ranked;
      assert forall j :: 0 <= j <= n ==> ranked[..n][..j] == ranked[..j];
      if k < n {
        TotalMonotone(ranked, k + 1, |ranked|);
      }
    }
  }

  lemma LongestKeptUnique(ranked: seq<Layer>, k: nat, limit: int)
    requires LongestKept(ranked, k, limit)
    ensures k == FittingLayers(ranked, limit)
  {
    FittingIsLongestKept(ranked, limit);
    var m := FittingLayers(ranked, limit);
    assert TotalChars(ranked[..m]) >= 0 && TotalChars(ranked[..k]) >= 0;
  }

  /** The selection loop of `build_typed_context`: the longest ranked prefix whose
      total size fits. */
  method SelectWithin(ranked: seq<Layer>, limit: int) returns (kept: seq<Layer>)
    ensures kept == Selected(ranked, limit) && LongestKept(ranked, |kept|, limit)
  {
    kept := [];
    var total := 0;
    for i := 0 to |ranked|
      invariant kept == ranked[..i] && total == TotalChars(kept)
      invariant forall j :: 0 < j <= i ==> TotalChars(ranked[..j]) <= limit
    {
      assert ranked[..i + 1][..i] == ranked[..i];
      if total + ranked[i].charCount > limit {
        forall j | i < j <= |ranked| ensures TotalChars(ranked[..j]) > limit {
          TotalMonotone(ranked, i + 1, j);
        }
        LongestKeptUnique(ranked, i, limit);
        return;
      }
      kept := kept + [ranked[i]];
      total := total + ranked[i].charCount;
    }
    LongestKeptUnique(ranked, |ranked|, limit);
  }

  /** Length of the heading in front of the counted text of a layer. */
  function HeadingLength(x: Layer): nat {
    if x.kind == "profile" then |"PROFILE:\n"|
    else if x.kind == "team" then |"TEAM:\n"|
    else if x.kind == "integration" then |"INTEGRATIONS:\n"|
    else |x.source| + |"[]:\n"|
  }

  /** The count of a layer leaves its heading out. */
  predicate CountsBody(x: Layer) { |x.content| == x.charCount + HeadingLength(x) }

  function ContentChars(layers: seq<Layer>): nat {
    if layers == [] then 0 else ContentChars(layers[..|layers| - 1]) + |layers[|layers| - 1].content|
  }

  function HeadingChars(layers: seq<Layer>): nat {
    if layers == [] then 0 else HeadingChars(layers[..|layers| - 1]) + HeadingLength(layers[|layers| - 1])
  }

  lemma {:induction false} ContentIsBodyAndHeading(layers: seq<Layer>)
    requires forall i :: 0 <= i < |layers| ==> CountsBody(layers[i])
    ensures ContentChars(layers) == TotalChars(layers) + HeadingChars(layers)
  {
    if layers != [] {
      ContentIsBodyAndHeading(layers[..|layers| - 1]);
    }
  }

  lemma {:induction false} ContentMonotone(layers: seq<Layer>, i: nat, j: nat)
    requires i <= j <= |layers|
    ensures ContentChars(layers[..i]) <= ContentChars(layers[..j])
    decreases j
  {
    if i < j {
      ContentMonotone(layers, i, j - 1);
      assert layers[..j][..j - 1] == layers[..j - 1];
    }
  }

  /** No run of ranked layers fits by its counts but not by its text. */
  ghost predicate HeadingsFit(ranked: seq<Layer>, limit: int) {
    0 <= limit && forall j :: 0 < j <= |ranked| && TotalChars(ranked[..j]) <= limit ==> ContentChars(ranked[..j]) <= limit
  }

  /** The text of the selected layers meets the limit exactly when the headings of
      every run that fits by its counts have room as well. */
  lemma SelectedContent(ranked: seq<Layer>, limit: int)
    ensures ContentChars(Selected(ranked, limit)) <= limit <==> HeadingsFit(ranked, limit)
  {
    var k := FittingLayers(ranked, limit);
    FittingIsLongestKept(ranked, limit);
    if ContentChars(ranked[..k]) <= limit {
      forall j | 0 < j <= |ranked| && TotalChars(ranked[..j]) <= limit ensures ContentChars(ranked[..j]) <= limit {
        ContentMonotone(ranked, j, k);
      }
    }
    if k > 0 {
      assert TotalChars(ranked[..k]) <= limit;
    }
  }

  /** Ranking and selection. The text of a kept layer is its counted part and its
      heading; the limit bounds the counted parts only. */
  method BuildSelection(layers: seq<Layer>, now: real, round2: real -> real, limit: int) returns (kept: seq<Layer>)
    requires forall i :: 0 <= i < |layers| ==> CountsBody(layers[i])
    ensures kept == Selected(Rank(layers, now, round2), limit)
    ensures ContentChars(kept) == TotalChars(kept) + HeadingChars(kept) && (kept != [] ==> TotalChars(kept) <= limit)
    ensures ContentChars(kept) <= limit <==> HeadingsFit(Rank(layers, now, round2), limit)
  {
    var ranked := RankContextLayers(layers, now, round2);
    RankedCountBody(layers, now, round2);
    kept := SelectWithin(ranked, limit);
    SelectedContent(ranked, limit);
    ContentIsBodyAndHeading(kept);
  }

  lemma RankedCountBody(layers: seq<Layer>, now: real, round2: real -> real)
    requires forall i :: 0 <= i < |layers| ==> CountsBody(layers[i])
    ensures forall i :: 0 <= i < |Rank(layers, now, round2)| ==> CountsBody(Rank(layers, now, round2)[i])
  {
    forall i | 0 <= i < |Rank(layers, now, round2)| ensures CountsBody(Rank(layers, now, round2)[i]) {
      var j := RankedFrom(layers, now, round2, i);
      assert CountsBody(layers[j]);
    }
  }

  lemma RankOfOne(x: Layer, now: real, round2: real -> real)
    ensures Rank([x], now, round2) == [x.(score := round2(RawScore(x, now)))]
  {
    var y := x.(score := round2(RawScore(x, now)));
    MapAt(Scorer(now, round2), [x]);
    assert Scorer(now, round2)(x) == y;
    assert Scored([x], now, round2) == [y];
    assert [y][..0] == [] && Sort([]) == [];
    assert Insert([], y) == [y];
  }

  lemma SumsOfOne(y: Layer)
    ensures TotalChars([y]) == y.charCount && ContentChars([y]) == |y.content|
  {
    assert [y][..0] == [];
  }

  /** A profile whose text just fits is selected, although it exceeds the limit with
      its heading. */
  lemma KeptContentMayExceedLimit(body: string, now: real, round2: real -> real)
    ensures var x := Layer("profile", "manual", 1, "PROFILE:\n" + body, |body|, None, 0.0);
            var kept := Selected(Rank([x], now, round2), |body|);
            CountsBody(x) && |kept| == 1 && kept[0].content == x.content && ContentChars(kept) > |body|
  {
    var x := Layer("profile", "manual", 1, "PROFILE:\n" + body, |body|, None, 0.0);
    var y := x.(score := round2(RawScore(x, now)));
    RankOfOne(x, now, round2);
    SumsOfOne(y);
    FittingIsLongestKept([y], |body|);
    assert [y][..1] == [y];
  }

  // ---------- whole lines within a budget ----------

  predicate IsBreak(c: char) {
    '\n' <= c <= '\r' || '\U{1c}' <= c <= '\U{1e}' || c == '\U{85}' || c == '\U{2028}' || c == '\U{2029}'
  }

  /** Length of the first line with its line break. */
  function LineLength(s: string): (n: nat)
    requires s != ""
    ensures 1 <= n <= |s|
  {
    if s[0] == '\r' && |s| > 1 && s[1] == '\n' then 2
    else if IsBreak(s[0]) || |s| == 1 then 1
    else 1 + LineLength(s[1..])
  }

  /** `s.splitlines(keepends=True)` */
  function SplitLines(s: string): seq<string>
    decreases |s|
  {
    if s == "" then [] else [s[..LineLength(s)]] + SplitLines(s[LineLength(s)..])
  }

  function Concat(lines: seq<string>): string {
    if lines == [] then "" else Concat(lines[..|lines| - 1]) + lines[|lines| - 1]
  }

  lemma {:induction false} ConcatFront(x: string, lines: seq<string>)
    ensures Concat([x] + lines) == x + Concat(lines)
  {
    if lines == [] {
      assert [x] + [] == [x] && [x][..0] == [];
    } else {
      var n := |lines| - 1;
      assert ([x] + lines)[..n + 1] == [x] + lines[..n];
      ConcatFront(x, lines[..n]);
    }
  }

  /** The lines add up to the text. */
  lemma {:induction false} LinesAddUp(s: string)
    ensures Concat(SplitLines(s)) == s
    decreases |s|
  {
    if s != "" {
      LinesAddUp(s[LineLength(s)..]);
      ConcatFront(s[..LineLength(s)], SplitLines(s[LineLength(s)..]));
    }
  }

  /** A line may end here: at either end of the text, or behind a line break, but not
      inside "\r\n". */
  predicate IsBoundary(s: string, i: int) {
    i == 0 || i == |s| || (0 < i < |s| && IsBreak(s[i - 1]) && !(s[i - 1] == '\r' && s[i] == '\n'))
  }

  lemma {:induction false} FirstLineEnds(s: string)
    requires s != ""
    ensures IsBoundary(s, LineLength(s)) && forall i :: 0 < i < LineLength(s) ==> !IsBoundary(s, i)
  {
    if !(s[0] == '\r' && |s| > 1 && s[1] == '\n') && !IsBreak(s[0]) && |s| > 1 {
      FirstLineEnds(s[1..]);
      forall i | 0 < i < LineLength(s) ensures !IsBoundary(s, i) {
        assert i > 1 ==> !IsBoundary(s[1..], i - 1);
      }
    }
  }

  /** The first k lines end at i. */
  ghost predicate EndsAt(s: string, k: nat, i: int) { k <= |SplitLines(s)| && |Concat(SplitLines(s)[..k])| == i }

  lemma FirstLine(s: string, k: nat)
    requires s != "" && k <= |SplitLines(s[LineLength(s)..])|
    ensures k + 1 <= |SplitLines(s)|
    ensures Concat(SplitLines(s)[..k + 1]) == s[..LineLength(s)] + Concat(SplitLines(s[LineLength(s)..])[..k])
  {
    var rest := SplitLines(s[LineLength(s)..]);
    assert SplitLines(s)[..k + 1] == [s[..LineLength(s)]] + rest[..k];
    ConcatFront(s[..LineLength(s)], rest[..k]);
  }

  /** Lines end exactly at the boundaries. */
  lemma {:induction false} BoundaryHasLine(s: string, i: int) returns (k: nat)
    requires IsBoundary(s, i)
    ensures EndsAt(s, k, i)
    decreases |s|
  {
    if i == 0 {
      k := 0;
      assert SplitLines(s)[..0] == [];
    } else {
      var n := LineLength(s);
      FirstLineEnds(s);
      assert IsBoundary(s[n..], i - n);
      k := BoundaryHasLine(s[n..], i - n);
      FirstLine(s, k);
      k := k + 1;
    }
  }

  lemma {:induction false} LineHasBoundary(s: string, k: nat)
    requires k <= |SplitLines(s)|
    ensures IsBoundary(s, |Concat(SplitLines(s)[..k])|)
    decreases |s|
  {
    if k == 0 {
      assert SplitLines(s)[..0] == [];
    } else {
      var n := LineLength(s);
      FirstLineEnds(s);
      LineHasBoundary(s[n..], k - 1);
      FirstLine(s, k - 1);
    }
  }

  lemma {:induction false} ConcatMonotone(lines: seq<string>, i: nat, j: nat)
    requires i <= j <= |lines|
    ensures Concat(lines[..i]) <= Concat(lines[..j])
    decreases j
  {
    if i < j {
      ConcatMonotone(lines, i, j - 1);
      assert lines[..j][..j - 1] == lines[..j - 1];
    }
  }

  const NOTICE := "\n[... memory truncated for length ...]\n"

  /** The longest run of whole lines that fits. */
  ghost predicate LongestFit(lines: seq<string>, k: nat, limit: int) {
    k <= |lines| && forall j :: 0 < j <= |lines| ==> (|Concat(lines[..j])| <= limit <==> j <= k)
  }

  /** How many whole lines fit. */
  function FittingLines(lines: seq<string>, limit: int): (k: nat)
    ensures k <= |lines|
  {
    if lines == [] then 0
    else
      var n := |lines| - 1;
      var k := FittingLines(lines[..n], limit);
      if k == n && |Concat(lines)| <= limit then n + 1 else k
  }

  lemma {:induction false} FittingIsLongest(lines: seq<string>, limit: int)
    ensures LongestFit(lines, FittingLines(lines, limit), limit)
  {
    if lines != [] {
      var n := |lines| - 1;
      FittingIsLongest(lines[..n], limit);
      var k := FittingLines(lines[..n], limit);
      assert lines[..|lines|] == lines;
      assert forall j :: 0 <= j <= n ==> lines[..n][..j] == lines[..j];
      if k < n {
        ConcatMonotone(lines, k + 1, |lines|);
      }
    }
  }

  lemma LongestFitUnique(lines: seq<string>, k: nat, limit: int)
    requires LongestFit(lines, k, limit)
    ensures k == FittingLines(lines, limit)
  {
    FittingIsLongest(lines, limit);
    var m := FittingLines(lines, limit);
    assert |Concat(lines[..m])| >= 0 && |Concat(lines[..k])| >= 0;
  }

  /** The trimmed text: the text itself, or its longest prefix of whole lines within
      the limit, followed by the notice. */
  function Trimmed(context: string, limit: int): string {
    if |context| <= limit then context
    else Concat(SplitLines(context)[..FittingLines(SplitLines(context), limit)]) + NOTICE
  }

  /** The limit leaves room for the notice behind every run of lines that fits. */
  ghost predicate NoticeFits(lines: seq<string>, limit: int) {
    |NOTICE| <= limit && forall j :: 0 <= j <= |lines| ==> !(limit - |NOTICE| < |Concat(lines[..j])| <= limit)
  }

  lemma NoticeFitsExactly(lines: seq<string>, k: nat, limit: int)
    requires LongestFit(lines, k, limit)
    ensures |Concat(lines[..k])| + |NOTICE| <= limit <==> NoticeFits(lines, limit)
  {
    forall j | 0 <= j <= k ensures |Concat(lines[..j])| <= |Concat(lines[..k])| {
      ConcatMonotone(lines, j, k);
    }
    assert Concat(lines[..0]) == "";
  }

  /** The trimmed text starts like the text, loses a line only for space, and meets
      the limit exactly when that leaves room for the notice. */
  lemma TrimmedMeaning(context: string, limit: int)
    ensures var lines := SplitLines(context);
            var k := FittingLines(lines, limit);
            && LongestFit(lines, k, limit) && Concat(lines[..k]) <= context
            && (|Trimmed(context, limit)| <= limit <==> |context| <= limit || NoticeFits(lines, limit))
            && (0 <= limit ==> |Trimmed(context, limit)| <= limit + |NOTICE|)
  {
    var lines := SplitLines(context);
    var k := FittingLines(lines, limit);
    FittingIsLongest(lines, limit);
    LinesAddUp(context);
    ConcatMonotone(lines, k, |lines|);
    assert lines[..|lines|] == lines;
    NoticeFitsExactly(lines, k, limit);
  }

  /** A text over the limit is cut at the last boundary within the limit. */
  lemma TrimmedAtBoundary(context: string, limit: int) returns (end: nat)
    requires |context| > limit
    ensures end <= |context| && Trimmed(context, limit) == context[..end] + NOTICE
    ensures IsBoundary(context, end) && (end == 0 || end <= limit)
    ensures forall i :: end < i <= limit ==> !IsBoundary(context, i)
  {
    var lines := SplitLines(context);
    var k := FittingLines(lines, limit);
    TrimmedMeaning(context, limit);
    LineHasBoundary(context, k);
    assert lines[..0] == [];
    end := |Concat(lines[..k])|;
    forall i | end < i <= limit ensures !IsBoundary(context, i) {
      if IsBoundary(context, i) {
        var j := BoundaryHasLine(context, i);
        if j <= k {
          ConcatMonotone(lines, j, k);
        }
      }
    }
  }

  /** `trim_context_to_limit` */
  method TrimToLimit(context: string, limit: int) returns (result: string)
    ensures result == Trimmed(context, limit)
  {
    if |context| <= limit {
      return context;
    }
    var kept, k := LinesWithin(SplitLines(context), limit);
    LongestFitUnique(SplitLines(context), k, limit);
    result := kept + NOTICE;
  }

  /** The loop over the lines. */
  method LinesWithin(lines: seq<string>, limit: int) returns (kept: string, ghost k: nat)
    ensures LongestFit(lines, k, limit) && kept == Concat(lines[..k]) && (0 <= limit ==> |kept| <= limit)
  {
    kept := "";
    for i := 0 to |lines|
      invariant kept == Concat(lines[..i]) && (0 <= limit ==> |kept| <= limit)
      invariant forall j :: 0 < j <= i ==> |Concat(lines[..j])| <= limit
    {
      assert lines[..i + 1][..i] == lines[..i];
      if |kept| + |lines[i]| > limit {
        forall j | i < j <= |lines| ensures |Concat(lines[..j])| > limit {
          ConcatMonotone(lines, i + 1, j);
        }
        return kept, i;
      }
      kept := kept + lines[i];
    }
    k := |lines|;
  }

  lemma TwoCharacterLines()
    ensures SplitLines("ab") == ["ab"] && FittingLines(["ab"], 1) == 0
  {
    assert "ab"[1..] == "b" && LineLength("b") == 1;
    assert LineLength("ab") == 2 && "ab"[2..] == "" && "ab"[..2] == "ab";
    assert SplitLines("") == [];
    assert ["ab"][..0] == [];
  }

  /** The notice itself is not counted: a text of two characters, trimmed to one,
      comes back as the notice. */
  lemma TrimmedTextMayExceedLimit()
    ensures Trimmed("ab", 1) == NOTICE && |Trimmed("ab", 1)| > 1
  {
    TwoCharacterLines();
    assert ["ab"][..0] == [];
  }
}
