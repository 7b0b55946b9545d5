/** Texts with placeholders in brackets: replacing matches by placeholders, and
    putting the originals back (app/core/ai_privacy.py). */
module PlaceholderText {
  import opened Text

  predicate IsBracket(c: char) { c == '[' || c == ']' }

  predicate NoBrackets(s: string) { forall i :: 0 <= i < |s| ==> !IsBracket(s[i]) }

  // ---------- a text in which a pattern found matches ----------

  /** One run of a pattern over a text: the text before the first match, then
      each match with the text that follows it. */
  datatype Scan = Scan(head: string, hits: seq<Hit>)
  datatype Hit = Hit(found: string, gap: string)

  function Joined(hits: seq<Hit>): string {
    if hits == [] then "" else hits[0].found + hits[0].gap + Joined(hits[1..])
  }

  /** The text with the i-th match replaced by subs[i]. */
  function Replaced(hits: seq<Hit>, subs: seq<string>): string
    requires |hits| == |subs|
  {
    if hits == [] then "" else subs[0] + hits[0].gap + Replaced(hits[1..], subs[1..])
  }

  // ---------- simultaneous restoration: the meaning of unmask ----------

  function CloseAt(s: string): (k: nat)
    ensures k <= |s|
    ensures forall i :: 0 <= i < k ==> s[i] != ']'
    ensures k < |s| ==> s[k] == ']'
  {
    if s == "" || s[0] == ']' then 0 else 1 + CloseAt(s[1..])
  }

  /** The shortest prefix of s that ends with a closing bracket. */
  function Token(s: string): string {
    var k := CloseAt(s);
    if k < |s| then s[..k + 1] else s
  }

  predicate IsToken(p: string) {
    |p| >= 2 && p[0] == '[' && p[|p| - 1] == ']' && NoBrackets(p[1..|p| - 1])
  }

  type Table = map<string, string>

  /** Reads s once from the left and replaces every placeholder of the table by
      its original, all at the same time. */
  function Restore(s: string, t: Table): string {
    if s == "" then ""
    else if Token(s) in t then t[Token(s)] + Restore(s[|Token(s)|..], t)
    else [s[0]] + Restore(s[1..], t)
  }

  /** Keys are placeholders and originals hold no bracket. */
  ghost predicate TokenTable(t: Table) {
    forall p :: p in t ==> IsToken(p) && NoBrackets(t[p])
  }

  /** No original hides in a placeholder. */
  ghost predicate Apart(t: Table) {
    forall p, q :: p in t && q in t ==> !Contains(q, t[p])
  }

  ghost predicate ValidTable(t: Table) { TokenTable(t) && Apart(t) }

  ghost predicate Extends(t: Table, u: Table) {
    forall p :: p in t ==> p in u && u[p] == t[p]
  }

  /** a and b restore to the same text, now and under every later table. */
  ghost predicate SameUnder(a: string, b: string, t: Table) {
    forall u :: Extends(t, u) && ValidTable(u) ==> Restore(a, u) == Restore(b, u)
  }

  lemma SameTransitive(a: string, b: string, c: string, t: Table, u: Table)
    requires SameUnder(a, b, u) && SameUnder(b, c, t) && Extends(t, u)
    ensures SameUnder(a, c, u)
  {
  }

  lemma TokenOfPrefix(p: string, s: string)
    requires IsToken(p) && p <= s
    ensures Token(s) == p
  {
    assert forall i :: 0 <= i < |p| ==> s[i] == p[i];
    assert forall i :: 1 <= i < |p| - 1 ==> p[i] == p[1..|p| - 1][i - 1];
    assert s[|p| - 1] == ']';
    assert CloseAt(s) == |p| - 1;
  }

  /** A placeholder starts with an opening bracket. */
  lemma NoTokenHere(s: string, t: Table)
    requires TokenTable(t) && s != "" && s[0] != '['
    ensures Token(s) !in t
  {
    assert Token(s) != "" && Token(s)[0] == s[0];
  }

  lemma RestoreChar(c: char, s: string, t: Table)
    requires TokenTable(t) && c != '['
    ensures Restore([c] + s, t) == [c] + Restore(s, t)
  {
    NoTokenHere([c] + s, t);
    assert ([c] + s)[1..] == s;
  }

  lemma Associative(a: string, b: string, c: string)
    ensures a + (b + c) == a + b + c
  {
  }

  lemma {:induction false} RestoreRaw(raw: string, s: string, t: Table)
    requires TokenTable(t) && NoBrackets(raw)
    ensures Restore(raw + s, t) == raw + Restore(s, t)
  {
    if raw == "" {
      assert raw + s == s;
    } else {
      var first, rest := [raw[0]], raw[1..];
      assert raw == first + rest;
      RestoreRaw(rest, s, t);
      RestoreChar(raw[0], rest + s, t);
      Associative(first, rest, s);
      Associative(first, rest, Restore(s, t));
    }
  }

  // ---------- masking one category keeps the restored text ----------

  lemma {:induction false} SubstitutionKeepsMeaning(g: string, hits: seq<Hit>, subs: seq<string>, t: Table)
    requires ValidTable(t) && |hits| == |subs|
    requires forall i :: 0 <= i < |hits| ==> subs[i] in t && t[subs[i]] == hits[i].found
    ensures Restore(g + Replaced(hits, subs), t) == Restore(g + Joined(hits), t)
    decreases |hits|
  {
    if hits != [] {
      var Hit(h, gap) := hits[0];
      var x, y := gap + Joined(hits[1..]), gap + Replaced(hits[1..], subs[1..]);
      Associative(h, gap, Joined(hits[1..]));
      Associative(subs[0], gap, Replaced(hits[1..], subs[1..]));
      SubstitutionKeepsMeaning(gap, hits[1..], subs[1..], t);
      assert subs[0] in t && t[subs[0]] == h;
      RestoreMatch(h, x, subs[0], y, t);
      RestoreGap(g, h, x, subs[0], y, t);
    }
  }

  /** A match and its placeholder are restored alike. */
  lemma RestoreMatch(h: string, x: string, p: string, y: string, t: Table)
    requires ValidTable(t) && p in t && t[p] == h && Restore(y, t) == Restore(x, t)
    ensures Restore(p + y, t) == Restore(h + x, t)
  {
    TokenOfPrefix(p, p + y);
    assert (p + y)[|p|..] == y;
    RestoreRaw(h, x, t);
  }

  /** Text in front of a match is restored alike, whichever of the two follows. */
  lemma {:induction false} RestoreGap(g: string, h: string, x: string, p: string, y: string, t: Table)
    requires ValidTable(t) && p in t && t[p] == h && Restore(p + y, t) == Restore(h + x, t)
    ensures Restore(g + (p + y), t) == Restore(g + (h + x), t)
    decreases |g|
  {
    if g == "" {
      assert g + (p + y) == p + y && g + (h + x) == h + x;
    } else {
      var k := SameStep(g, h, x, p, y, t);
      RestoreGap(g[k..], h, x, p, y, t);
      RestoreFrom(g, k, p + y, t);
      RestoreFrom(g, k, h + x, t);
    }
  }

  /** One step of `Restore`: how many characters it reads, and what it writes. */
  function StepOf(s: string, t: Table): (nat, string)
    requires s != ""
  {
    if Token(s) in t then (|Token(s)|, t[Token(s)]) else (1, [s[0]])
  }

  /** Both texts are restored by the same step inside the gap. */
  lemma SameStep(g: string, h: string, x: string, p: string, y: string, t: Table) returns (k: nat)
    requires ValidTable(t) && p in t && t[p] == h && g != ""
    ensures 1 <= k <= |g|
    ensures StepOf(g + (p + y), t) == StepOf(g + (h + x), t) && StepOf(g + (h + x), t).0 == k
  {
    var a, b := g + (p + y), g + (h + x);
    assert Token(b) in t ==> !Contains(Token(b), t[p]);
    SameHead(g, h, x, p, y, t);
    k := StepOf(b, t).0;
    assert a[0] == g[0] == b[0];
  }

  lemma RestoreFrom(g: string, k: nat, rest: string, t: Table)
    requires 1 <= k <= |g| && StepOf(g + rest, t).0 == k
    ensures Restore(g + rest, t) == StepOf(g + rest, t).1 + Restore(g[k..] + rest, t)
  {
    assert (g + rest)[k..] == g[k..] + rest;
  }

  /** A placeholder that starts in front of a match ends in front of it, or
      holds all of it. */
  lemma TokenBeforeMatch(q: string, g: string, h: string, rest: string)
    requires IsToken(q) && q <= g + (h + rest) && NoBrackets(h)
    ensures |q| <= |g| || Contains(q, h)
  {
    var x := g + (h + rest);
    assert forall i :: |g| <= i < |g| + |h| ==> x[i] == h[i - |g|];
    assert forall i :: 0 <= i < |q| ==> q[i] == x[i];
    if |g| < |q| {
      assert q[|q| - 1] == ']';
      assert |g| + |h| <= |q|;
      assert h <= q[|g|..];
      assert OccursAt(q, h, |g|);
    }
  }

  /** A placeholder that starts in front of another one ends in front of it. */
  lemma TokenBeforeToken(q: string, g: string, p: string, rest: string)
    requires IsToken(q) && IsToken(p) && q <= g + (p + rest) && g != ""
    ensures |q| <= |g|
  {
    var x := g + (p + rest);
    assert x[|g|] == p[0] == '[';
    assert forall i :: 0 <= i < |q| ==> q[i] == x[i];
    assert forall i :: 1 <= i < |q| - 1 ==> q[i] == q[1..|q| - 1][i - 1];
  }

  /** In front of a match, both texts show the same placeholder or none. */
  lemma SameHead(g: string, h: string, x: string, p: string, y: string, t: Table)
    requires TokenTable(t) && g != "" && p in t && NoBrackets(h)
    requires Token(g + (h + x)) in t ==> !Contains(Token(g + (h + x)), h)
    ensures Token(g + (p + y)) in t <==> Token(g + (h + x)) in t
    ensures Token(g + (h + x)) in t ==>
              Token(g + (p + y)) == Token(g + (h + x)) && 1 <= |Token(g + (h + x))| <= |g|
  {
    var a, b := g + (p + y), g + (h + x);
    if Token(b) in t {
      var q := Token(b);
      TokenBeforeMatch(q, g, h, x);
      assert q == b[..|q|] == g[..|q|] == a[..|q|];
      TokenOfPrefix(q, a);
    }
    if Token(a) in t {
      var q := Token(a);
      TokenBeforeToken(q, g, p, y);
      assert q == a[..|q|] == g[..|q|] == b[..|q|];
      TokenOfPrefix(q, b);
    }
  }

  // ---------- unmask: repeated str.replace is simultaneous restoration ----------

  /** `s.replace(p, o)` */
  function Replace(s: string, p: string, o: string): string
    requires p != ""
  {
    if s == "" then ""
    else if p <= s then o + Replace(s[|p|..], p, o)
    else [s[0]] + Replace(s[1..], p, o)
  }

  predicate NamedKeys(pairs: seq<(string, string)>) {
    forall i :: 0 <= i < |pairs| ==> pairs[i].0 != ""
  }

  function ReplaceEach(s: string, pairs: seq<(string, string)>): string
    requires NamedKeys(pairs)
    decreases |pairs|
  {
    if pairs == [] then s
    else ReplaceEach(Replace(s, pairs[0].0, pairs[0].1), pairs[1..])
  }

  function ToTable(pairs: seq<(string, string)>): Table {
    if pairs == [] then map[]
    else ToTable(pairs[1..])[pairs[0].0 := pairs[0].1]
  }

  ghost predicate DistinctKeys(pairs: seq<(string, string)>) {
    forall i, j :: 0 <= i < j < |pairs| ==> pairs[i].0 != pairs[j].0
  }

  lemma {:induction false} ToTableDomain(pairs: seq<(string, string)>)
    ensures forall p :: p in ToTable(pairs) <==> exists i :: 0 <= i < |pairs| && pairs[i].0 == p
    ensures DistinctKeys(pairs) ==> forall i :: 0 <= i < |pairs| ==> ToTable(pairs)[pairs[i].0] == pairs[i].1
  {
    if pairs != [] {
      var rest := pairs[1..];
      ToTableDomain(rest);
      assert forall i :: 0 <= i < |rest| ==> rest[i] == pairs[i + 1];
      forall p ensures p in ToTable(pairs) <==> exists i :: 0 <= i < |pairs| && pairs[i].0 == p {
        if p in ToTable(rest) {
          var i :| 0 <= i < |rest| && rest[i].0 == p;
          assert pairs[i + 1].0 == p;
        }
      }
    }
  }

  lemma ContainsTail(q: string, part: string)
    requires q != "" && Contains(q[1..], part)
    ensures Contains(q, part)
  {
    var i :| OccursAt(q[1..], part, i);
    assert q[1..][i..] == q[i + 1..];
    assert OccursAt(q, part, i + 1);
  }

  lemma PrefixTails(q: string, r: string)
    requires q != "" && q <= r
    ensures q[1..] <= r[1..] && q[0] == r[0]
  {
  }

  /** A bracket-free run that ends in a closing bracket. */
  predicate IsClosing(q: string) {
    q != "" && q[|q| - 1] == ']' && forall i :: 0 <= i < |q| - 1 ==> !IsBracket(q[i])
  }

  lemma ClosingTail(q: string)
    requires IsClosing(q) && |q| > 1
    ensures IsClosing(q[1..])
  {
    assert forall i :: 0 <= i < |q[1..]| ==> q[1..][i] == q[i + 1];
  }

  lemma TokenCloses(q: string)
    requires IsToken(q)
    ensures IsClosing(q[1..])
  {
    assert forall i :: 0 <= i < |q| - 2 ==> q[1..][i] == q[1..|q| - 1][i];
  }

  /** An original put in front lies inside such a run that starts with it. */
  lemma ClosingHolds(q: string, o: string, rest: string)
    requires IsClosing(q) && NoBrackets(o) && q <= o + rest
    ensures Contains(q, o)
  {
    var r := o + rest;
    assert forall i :: 0 <= i < |o| ==> r[i] == o[i];
    assert q[|q| - 1] == r[|q| - 1];
    assert |o| <= |q|;
    assert o <= q[0..];
    assert OccursAt(q, o, 0);
  }

  /** Such a run, found at the front of the replaced text, was already there unless
      the inserted original lies inside it. */
  lemma {:induction false} NoNewTokens(q: string, s: string, p: string, o: string)
    requires p != "" && p[0] == '[' && IsClosing(q) && NoBrackets(o)
    requires q <= Replace(s, p, o)
    ensures q <= s || Contains(q, o)
  {
    if s == "" {
    } else if p <= s {
      ClosingHolds(q, o, Replace(s[|p|..], p, o));
    } else {
      var r := [s[0]] + Replace(s[1..], p, o);
      assert r[1..] == Replace(s[1..], p, o);
      PrefixTails(q, r);
      if |q| > 1 {
        ClosingTail(q);
        NoNewTokens(q[1..], s[1..], p, o);
        if Contains(q[1..], o) {
          ContainsTail(q, o);
        }
      }
      assert q == [q[0]] + q[1..] && s == [s[0]] + s[1..];
    }
  }

  /** `replace` copies a run of characters in which p cannot start. */
  lemma {:induction false} ReplaceCopies(run: string, s: string, p: string, o: string)
    requires p != "" && forall i :: 0 <= i < |run| ==> run[i] != p[0]
    ensures Replace(run + s, p, o) == run + Replace(s, p, o)
  {
    var x := run + s;
    if run == "" {
      assert x == s;
    } else {
      assert x[1..] == run[1..] + s && x[0] == run[0];
      assert p[0] != x[0];
      ReplaceCopies(run[1..], s, p, o);
      Associative([run[0]], run[1..], Replace(s, p, o));
      assert run == [run[0]] + run[1..];
    }
  }

  ghost predicate Fits(t: Table, p: string, o: string) {
    && p !in t && IsToken(p) && NoBrackets(o) && TokenTable(t)
    && forall q :: q in t ==> !Contains(q, o)
  }

  lemma FitsWhenValid(t: Table, p: string, o: string)
    requires p !in t && ValidTable(t[p := o])
    ensures Fits(t, p, o)
  {
    var u := t[p := o];
    assert p in u && u[p] == o;
    assert forall q :: q in t ==> q in u && u[q] == t[q];
  }

  /** A placeholder other than p at the front stays at the front. */
  lemma ReplaceKeepsToken(q: string, s: string, p: string, o: string)
    requires IsToken(p) && IsToken(q) && q <= s && !(p <= s)
    ensures Replace(s, p, o) == q + Replace(s[|q|..], p, o)
  {
    var run, rest := q[1..], s[|q|..];
    assert s == q + rest;
    assert s[1..] == run + rest;
    assert forall i :: 0 <= i < |run| - 1 ==> run[i] == q[1..|q| - 1][i];
    ReplaceCopies(run, rest, p, o);
    assert q == [s[0]] + run;
    Associative([s[0]], run, Replace(rest, p, o));
  }

  /** A placeholder at the front of the replaced text was there before. */
  lemma ReplaceMakesNoToken(q: string, s: string, p: string, o: string)
    requires IsToken(p) && IsToken(q) && NoBrackets(o) && !Contains(q, o)
    requires s != "" && !(p <= s) && q <= Replace(s, p, o)
    ensures Token(s) == q
  {
    var r, run := Replace(s, p, o), q[1..];
    assert r == [s[0]] + Replace(s[1..], p, o);
    assert q[0] == r[0] == s[0];
    assert run <= r[1..] == Replace(s[1..], p, o);
    TokenCloses(q);
    NoNewTokens(run, s[1..], p, o);
    if Contains(run, o) {
      ContainsTail(q, o);
      assert false;
    }
    assert q == [s[0]] + run && s == [s[0]] + s[1..];
    TokenOfPrefix(q, s);
  }

  /** One `replace` followed by restoring the others restores everything. */
  lemma {:induction false} ReplaceThenRestore(s: string, p: string, o: string, t: Table)
    requires p != "" && Fits(t, p, o)
    ensures Restore(Replace(s, p, o), t) == Restore(s, t[p := o])
    decreases |s|
  {
    var u := t[p := o];
    var r := Replace(s, p, o);
    if s == "" {
    } else if p <= s {
      TokenOfPrefix(p, s);
      ReplaceThenRestore(s[|p|..], p, o, t);
      RestoreRaw(o, Replace(s[|p|..], p, o), t);
    } else if Token(s) in t {
      var q := Token(s);
      assert q <= s;
      ReplaceKeepsToken(q, s, p, o);
      TokenOfPrefix(q, r);
      assert r[|q|..] == Replace(s[|q|..], p, o);
      ReplaceThenRestore(s[|q|..], p, o, t);
    } else {
      if Token(r) in t {
        assert Token(r) <= r;
        ReplaceMakesNoToken(Token(r), s, p, o);
        assert false;
      }
      assert Token(s) <= s;
      assert Token(s) !in u;
      assert r[1..] == Replace(s[1..], p, o);
      ReplaceThenRestore(s[1..], p, o, t);
    }
  }

  lemma {:induction false} ReplaceEachIsRestore(s: string, pairs: seq<(string, string)>)
    requires DistinctKeys(pairs) && ValidTable(ToTable(pairs))
    requires NamedKeys(pairs)
    ensures ReplaceEach(s, pairs) == Restore(s, ToTable(pairs))
    decreases |pairs|
  {
    if pairs == [] {
      RestoreNothing(s);
    } else {
      var rest := pairs[1..];
      ToTableDomain(pairs);
      ToTableDomain(rest);
      var t := ToTable(rest);
      assert forall i :: 0 <= i < |rest| ==> rest[i] == pairs[i + 1];
      assert pairs[0].0 !in t;
      var u := ToTable(pairs);
      assert forall q :: q in t ==> q in u && u[q] == t[q];
      assert ValidTable(t);
      FitsWhenValid(t, pairs[0].0, pairs[0].1);
      ReplaceEachIsRestore(Replace(s, pairs[0].0, pairs[0].1), rest);
      ReplaceThenRestore(s, pairs[0].0, pairs[0].1, t);
    }
  }

  // ---------- replacements that find nothing ----------

  lemma {:induction false} ReplaceAbsent(s: string, p: string, o: string)
    requires p != "" && !Contains(s, p)
    ensures Replace(s, p, o) == s
  {
    if s != "" {
      assert s[0..] == s;
      assert !OccursAt(s, p, 0);
      if Contains(s[1..], p) {
        ContainsTail(s, p);
        assert false;
      }
      ReplaceAbsent(s[1..], p, o);
    }
  }

  lemma {:induction false} ReplaceEachAbsent(s: string, pairs: seq<(string, string)>)
    requires NamedKeys(pairs) && forall i :: 0 <= i < |pairs| ==> !Contains(s, pairs[i].0)
    ensures ReplaceEach(s, pairs) == s
    decreases |pairs|
  {
    if pairs != [] {
      ReplaceAbsent(s, pairs[0].0, pairs[0].1);
      assert forall i :: 0 <= i < |pairs[1..]| ==> pairs[1..][i] == pairs[i + 1];
      ReplaceEachAbsent(s, pairs[1..]);
    }
  }

  /** The last replacement comes last. */
  lemma {:induction false} ReplaceEachLast(s: string, pairs: seq<(string, string)>, last: (string, string))
    requires NamedKeys(pairs) && last.0 != "" && NamedKeys(pairs + [last])
    ensures ReplaceEach(s, pairs + [last]) == Replace(ReplaceEach(s, pairs), last.0, last.1)
    decreases |pairs|
  {
    var all := pairs + [last];
    if pairs == [] {
      assert all == [last] && all[1..] == [];
    } else {
      assert all[0] == pairs[0] && all[1..] == pairs[1..] + [last];
      ReplaceEachLast(Replace(s, pairs[0].0, pairs[0].1), pairs[1..], last);
    }
  }

  lemma ReplaceSkip(c: char, s: string, p: string, o: string)
    requires p != "" && !(p <= [c] + s)
    ensures Replace([c] + s, p, o) == [c] + Replace(s, p, o)
  {
    assert ([c] + s)[1..] == s;
  }

  lemma ReplaceHere(p: string, s: string, o: string)
    requires p != ""
    ensures Replace(p + s, p, o) == o + Replace(s, p, o)
  {
    assert (p + s)[|p|..] == s;
  }

  // ---------- a placeholder masked inside another one ----------

  function Wrapped(head: string, p: string): string { "[" + (head + (p + "]")) }

  lemma WrappedChars(head: string, p: string)
    ensures var m := Wrapped(head, p);
            && |m| == |head| + |p| + 2 && m[0] == '[' && m[|m| - 1] == ']'
            && (forall j :: 1 <= j < 1 + |head| ==> m[j] == head[j - 1])
            && (forall j :: 1 + |head| <= j < |m| - 1 ==> m[j] == p[j - 1 - |head|])
            && m[1 + |head|..] == p + "]"
  {
  }

  lemma TokenInside(p: string, j: int)
    requires IsToken(p) && 1 <= j < |p| - 1
    ensures !IsBracket(p[j])
  {
    assert p[1..|p| - 1][j - 1] == p[j];
  }

  lemma WrappedOpens(head: string, p: string, i: nat)
    requires NoBrackets(head) && IsToken(p) && i < |Wrapped(head, p)| && Wrapped(head, p)[i] == '['
    ensures i == 0 || i == 1 + |head|
  {
    WrappedChars(head, p);
    if 1 + |head| < i < |head| + |p| {
      TokenInside(p, i - 1 - |head|);
    }
  }

  /** The only placeholder that shows in the wrapped text is the inner one. */
  lemma OnlyInner(head: string, p: string, q: string)
    requires NoBrackets(head) && IsToken(p) && IsToken(q) && Contains(Wrapped(head, p), q)
    ensures q == p
  {
    var m := Wrapped(head, p);
    var i :| OccursAt(m, q, i);
    StartsLike(m, q, i);
    WrappedOpens(head, p, i);
    WrappedChars(head, p);
    if i == 0 {
      NotInFront(head, p, q);
    } else {
      TokenOfPrefix(p, m[i..]);
      TokenOfPrefix(q, m[i..]);
    }
  }

  lemma OtherAbsent(head: string, p: string, q: string)
    requires NoBrackets(head) && IsToken(p) && IsToken(q) && p != q
    ensures !Contains(Wrapped(head, p), q)
  {
    if Contains(Wrapped(head, p), q) {
      OnlyInner(head, p, q);
      assert false;
    }
  }

  lemma NotInFront(head: string, p: string, q: string)
    requires NoBrackets(head) && IsToken(p) && IsToken(q)
    ensures !OccursAt(Wrapped(head, p), q, 0)
  {
    var m, g := Wrapped(head, p), "[" + head;
    Associative("[", head, p + "]");
    if OccursAt(m, q, 0) {
      assert m[0..] == m;
      TokenBeforeToken(q, g, p, "]");
      assert false;
    }
  }

  /** Replacing the inner placeholder. */
  lemma ReplaceInner(head: string, p: string, o: string)
    requires head != "" && NoBrackets(head) && IsToken(p) && p[1] != head[0]
    ensures Replace(Wrapped(head, p), p, o) == "[" + (head + (o + "]"))
  {
    WrappedChars(head, p);
    ReplaceSkip('[', head + (p + "]"), p, o);
    ReplaceCopies(head, p + "]", p, o);
    ReplaceHere(p, "]", o);
    ReplaceSkip(']', "", p, o);
  }

  lemma {:induction false} RestoreNothing(s: string)
    ensures Restore(s, map[]) == s
  {
    if s != "" {
      RestoreNothing(s[1..]);
    }
  }

  /** The order in which the originals are put back does not matter. */
  lemma OrderIsIrrelevant(s: string, pairs: seq<(string, string)>, others: seq<(string, string)>)
    requires DistinctKeys(pairs) && DistinctKeys(others) && multiset(pairs) == multiset(others)
    requires NamedKeys(pairs)
    requires NamedKeys(others)
    requires ValidTable(ToTable(pairs))
    ensures ReplaceEach(s, pairs) == ReplaceEach(s, others)
  {
    ToTableDomain(pairs);
    ToTableDomain(others);
    var t, u := ToTable(pairs), ToTable(others);
    forall i | 0 <= i < |pairs| ensures pairs[i].0 in u && u[pairs[i].0] == pairs[i].1 {
      assert pairs[i] in multiset(others);
      var j :| 0 <= j < |others| && others[j] == pairs[i];
    }
    forall j | 0 <= j < |others| ensures others[j].0 in t && t[others[j].0] == others[j].1 {
      assert others[j] in multiset(pairs);
      var i :| 0 <= i < |pairs| && pairs[i] == others[j];
    }
    assert t == u;
    ReplaceEachIsRestore(s, pairs);
    ReplaceEachIsRestore(s, others);
  }

  // ---------- when restoring changes nothing ----------

  ghost predicate HoldsIssued(s: string, t: Table) {
    exists p :: p in t && Contains(s, p)
  }

  function Opens(s: string): nat {
    if s == "" then 0 else (if s[0] == '[' then 1 else 0) + Opens(s[1..])
  }

  lemma {:induction false} OpensAppend(a: string, b: string)
    ensures Opens(a + b) == Opens(a) + Opens(b)
  {
    if a == "" {
      assert a + b == b;
    } else {
      assert (a + b)[1..] == a[1..] + b && (a + b)[0] == a[0];
      OpensAppend(a[1..], b);
    }
  }

  lemma {:induction false} NoOpens(s: string)
    requires NoBrackets(s)
    ensures Opens(s) == 0
  {
    if s != "" {
      NoOpens(s[1..]);
    }
  }

  /** Every placeholder put back removes one opening bracket. */
  lemma {:induction false} RestoreOpens(s: string, t: Table)
    requires ValidTable(t)
    ensures Opens(Restore(s, t)) <= Opens(s)
    ensures HoldsIssued(s, t) ==> Opens(Restore(s, t)) < Opens(s)
    decreases |s|
  {
    if s == "" {
      forall p | p in t ensures !Contains(s, p) {
        assert IsToken(p);
      }
    } else if Token(s) in t {
      var q := Token(s);
      assert s == q + s[|q|..];
      RestoreOpens(s[|q|..], t);
      OpensAppend(q, s[|q|..]);
      NoOpens(t[q]);
      OpensAppend(t[q], Restore(s[|q|..], t));
    } else {
      RestoreOpens(s[1..], t);
      assert s == [s[0]] + s[1..];
      OpensAppend([s[0]], s[1..]);
      OpensAppend([s[0]], Restore(s[1..], t));
      if HoldsIssued(s, t) {
        var p :| p in t && Contains(s, p);
        var i :| OccursAt(s, p, i);
        if i == 0 {
          assert s[0..] == s;
          TokenOfPrefix(p, s);
          assert false;
        }
        assert s[1..][i - 1..] == s[i..];
        assert OccursAt(s[1..], p, i - 1);
      }
    }
  }

  lemma {:induction false} RestoreUntouched(s: string, t: Table)
    requires ValidTable(t) && !HoldsIssued(s, t)
    ensures Restore(s, t) == s
  {
    if s != "" {
      if Token(s) in t {
        assert OccursAt(s, Token(s), 0);
      }
      forall p | p in t ensures !Contains(s[1..], p) {
        if Contains(s[1..], p) {
          var i :| OccursAt(s[1..], p, i);
          assert s[1..][i..] == s[i + 1..];
          assert OccursAt(s, p, i + 1);
        }
      }
      RestoreUntouched(s[1..], t);
    }
  }

  /** Restoring leaves a text alone exactly when it shows no issued placeholder. */
  lemma RestoreFixpoint(s: string, t: Table)
    requires ValidTable(t)
    ensures Restore(s, t) == s <==> !HoldsIssued(s, t)
  {
    RestoreOpens(s, t);
    if !HoldsIssued(s, t) {
      RestoreUntouched(s, t);
    }
  }
}
