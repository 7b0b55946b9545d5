/** Reversible masking of personal data (app/core/ai_privacy.py). */
module PiiMask {
  import opened Text
  import opened PlaceholderText

  datatype Category = Ssn | CreditCard | Email | Phone

  /** The order in which the patterns are applied. */
  const CATEGORIES: seq<Category> := [Ssn, CreditCard, Email, Phone]

  function Tag(c: Category): string {
    match c
    case Ssn => "SSN"
    case CreditCard => "CREDIT_CARD"
    case Email => "EMAIL"
    case Phone => "PHONE"
  }

  function Placeholder(c: Category, n: nat): string {
    "[" + Tag(c) + "_" + Digits(n) + "]"
  }

  /** Capital letters and the underscore, the characters of a tag. */
  predicate IsTagChar(c: char) { 'A' <= c <= 'Z' || c == '_' }

  predicate NoTagChars(s: string) { forall i :: 0 <= i < |s| ==> !IsTagChar(s[i]) }

  // ---------- what the four regular expressions guarantee about a match ----------

  predicate MatchShape(c: Category, s: string) {
    && NoBrackets(s)
    && match c
       case Ssn => '-' in s
       case CreditCard => |s| >= 16 && NoTagChars(s)
       case Email => '@' in s
       case Phone => |s| >= 9 && NoTagChars(s)
  }

  type Scanner = (Category, string) -> Scan

  ghost predicate SoundScan(c: Category, s: string, scan: Scan) {
    && s == scan.head + Joined(scan.hits)
    && forall i :: 0 <= i < |scan.hits| ==> MatchShape(c, scan.hits[i].found)
  }

  ghost predicate SoundScanner(re: Scanner) {
    forall c, s :: SoundScan(c, s, re(c, s))
  }

  // ---------- placeholders and matches never overlap ----------

  /** Counters of eight digits at most: a phone match needs nine characters. */
  const COUNTER_LIMIT: nat := 100_000_000

  /** Where the parts of a placeholder stand. */
  lemma Layout(tag: string, digits: string, p: string)
    requires p == "[" + tag + "_" + digits + "]"
    ensures |p| == 3 + |tag| + |digits| && p[0] == '[' && p[|p| - 1] == ']' && p[1 + |tag|] == '_'
    ensures forall i :: 1 <= i <= |tag| ==> p[i] == tag[i - 1]
    ensures forall i :: 2 + |tag| <= i < |p| - 1 ==> p[i] == digits[i - 2 - |tag|]
  {
  }

  lemma TagChars(c: Category)
    ensures forall i :: 0 <= i < |Tag(c)| ==> IsTagChar(Tag(c)[i])
  {
  }

  lemma PlaceholderChars(c: Category, n: nat)
    ensures var p := Placeholder(c, n);
            && |p| == 3 + |Tag(c)| + |Digits(n)| && p[0] == '[' && p[|p| - 1] == ']'
            && (forall i :: 1 <= i <= 1 + |Tag(c)| ==> IsTagChar(p[i]))
            && (forall i :: 2 + |Tag(c)| <= i < |p| - 1 ==> IsDigit(p[i]))
  {
    var tag, d, p := Tag(c), Digits(n), Placeholder(c, n);
    Layout(tag, d, p);
    TagChars(c);
    forall i | 2 + |tag| <= i < |p| - 1 ensures IsDigit(p[i]) {
      assert d[i - 2 - |tag|] in d;
    }
  }

  lemma PlaceholderIsToken(c: Category, n: nat)
    ensures IsToken(Placeholder(c, n))
  {
    var p := Placeholder(c, n);
    var inner := p[1..|p| - 1];
    PlaceholderChars(c, n);
    forall i | 0 <= i < |inner| ensures !IsBracket(inner[i]) {
      assert inner[i] == p[i + 1];
    }
  }

  lemma PlaceholdersDiffer(c: Category, m: nat, d: Category, n: nat)
    requires Placeholder(c, m) == Placeholder(d, n)
    ensures c == d && m == n
  {
    assert Placeholder(c, m)[1] == Tag(c)[0] && Placeholder(d, n)[1] == Tag(d)[0];
    var k := 2 + |Tag(c)|;
    var p := Placeholder(c, m);
    assert Digits(m) == p[k..|p| - 1] == Digits(n);
    DigitsInjective(m, n);
  }

  /** A bracket-free run found in a placeholder lies between its brackets. */
  lemma RunInPlaceholder(d: Category, n: nat, o: string, i: int)
    requires OccursAt(Placeholder(d, n), o, i) && NoBrackets(o) && o != ""
    ensures 1 <= i && i + |o| <= 2 + |Tag(d)| + |Digits(n)|
    ensures forall j :: 0 <= j < |o| ==> IsTagChar(o[j]) || IsDigit(o[j])
    ensures i < 2 + |Tag(d)| ==> IsTagChar(o[0])
  {
    var p := Placeholder(d, n);
    PlaceholderChars(d, n);
    assert forall j :: 0 <= j < |o| ==> o[j] == p[i..][j];
    assert forall j :: 0 <= j < |o| ==> o[j] == p[i + j];
    assert o[|o| - 1] == p[i + |o| - 1];
  }

  lemma {:induction false} DigitsLongEnough(n: nat, k: nat)
    requires n >= Pow10(k)
    ensures |Digits(n)| > k
  {
    if k > 0 {
      assert Pow10(k) == 10 * Pow10(k - 1);
      DigitsLongEnough(n / 10, k - 1);
    }
  }

  /** The limit is exact: from 10^8 on, a placeholder holds digits that look like
      a phone number. */
  lemma LargeCountersLookLikePhones(d: Category, n: nat)
    requires n >= COUNTER_LIMIT
    ensures MatchShape(Phone, Digits(n)) && Contains(Placeholder(d, n), Digits(n))
  {
    assert Pow10(8) == COUNTER_LIMIT;
    DigitsLongEnough(n, 8);
    DigitsArePlain(n);
    var p := Placeholder(d, n);
    assert p == ("[" + Tag(d) + "_") + (Digits(n) + "]");
    assert p[2 + |Tag(d)|..] == Digits(n) + "]";
    assert OccursAt(p, Digits(n), 2 + |Tag(d)|);
  }

  /** No match of any pattern hides inside a placeholder. */
  lemma MatchOutsidePlaceholders(c: Category, o: string, d: Category, n: nat)
    requires MatchShape(c, o) && n < COUNTER_LIMIT
    ensures !Contains(Placeholder(d, n), o)
  {
    assert Pow10(8) == COUNTER_LIMIT;
    DigitsLength(n, 8);
    forall i ensures !OccursAt(Placeholder(d, n), o, i) {
      if OccursAt(Placeholder(d, n), o, i) {
        RunInPlaceholder(d, n, o, i);
        assert false;
      }
    }
  }

  // ---------- the record kept by the masker ----------

  /** One placeholder handed out. */
  datatype Issue = Issue(cat: Category, n: nat, original: string)

  type Maps = map<Category, map<string, string>>
  type Counters = map<Category, nat>

  function Entries(maps: Maps, c: Category): map<string, string> {
    if c in maps then maps[c] else map[]
  }

  function Count(counters: Counters, c: Category): nat {
    if c in counters then counters[c] else 0
  }

  /** The dictionary of one category after the given placeholders were issued. */
  function EntriesOf(issued: seq<Issue>, c: Category): map<string, string> {
    if issued == [] then map[]
    else
      var e, m := issued[|issued| - 1], EntriesOf(issued[..|issued| - 1], c);
      if e.cat == c then m[e.original := Placeholder(c, e.n)] else m
  }

  function CountOf(issued: seq<Issue>, c: Category): nat {
    if issued == [] then 0
    else CountOf(issued[..|issued| - 1], c) + if issued[|issued| - 1].cat == c then 1 else 0
  }

  function ReverseOf(issued: seq<Issue>): (r: seq<(string, string)>)
    ensures |r| == |issued|
    ensures forall i :: 0 <= i < |r| ==> r[i] == (Placeholder(issued[i].cat, issued[i].n), issued[i].original)
  {
    seq(|issued|, i requires 0 <= i < |issued| => (Placeholder(issued[i].cat, issued[i].n), issued[i].original))
  }

  /** Only matches are masked, a value is issued once, and numbers run from 1. */
  ghost predicate WellIssued(issued: seq<Issue>) {
    issued == [] ||
    var e, before := issued[|issued| - 1], issued[..|issued| - 1];
    && WellIssued(before)
    && MatchShape(e.cat, e.original)
    && e.original !in EntriesOf(before, e.cat)
    && e.n == CountOf(before, e.cat) + 1
  }

  /** Each counter is the size of its dictionary, and all sizes add up. */
  lemma {:induction false} CountersAreSizes(issued: seq<Issue>, c: Category)
    requires WellIssued(issued)
    ensures |EntriesOf(issued, c)| == CountOf(issued, c)
    ensures |issued| == CountOf(issued, Ssn) + CountOf(issued, CreditCard) + CountOf(issued, Email) + CountOf(issued, Phone)
  {
    if issued != [] {
      CountersAreSizes(issued[..|issued| - 1], c);
    }
  }

  lemma {:induction false} IssuedBound(issued: seq<Issue>, i: nat)
    requires WellIssued(issued) && i < |issued|
    ensures MatchShape(issued[i].cat, issued[i].original)
    ensures 1 <= issued[i].n <= CountOf(issued, issued[i].cat)
  {
    var before := issued[..|issued| - 1];
    if i < |before| {
      assert issued[i] == before[i];
      IssuedBound(before, i);
    }
  }

  lemma {:induction false} IssuedOnce(issued: seq<Issue>, i: nat, j: nat)
    requires WellIssued(issued) && i < j < |issued|
    ensures issued[i].cat != issued[j].cat || issued[i].n < issued[j].n
  {
    var before := issued[..|issued| - 1];
    assert forall k :: 0 <= k < |before| ==> before[k] == issued[k];
    if j < |before| {
      IssuedOnce(before, i, j);
    } else {
      IssuedBound(before, i);
    }
  }

  /** `reverse` is the inverse of every category map. */
  lemma {:induction false} EntriesAreReversed(issued: seq<Issue>, c: Category, o: string) returns (i: nat)
    requires WellIssued(issued) && o in EntriesOf(issued, c)
    ensures i < |issued| && issued[i].cat == c && issued[i].original == o
    ensures EntriesOf(issued, c)[o] == Placeholder(c, issued[i].n)
  {
    var before, e := issued[..|issued| - 1], issued[|issued| - 1];
    if e.cat == c && e.original == o {
      i := |issued| - 1;
    } else {
      i := EntriesAreReversed(before, c, o);
    }
  }

  /** Different values of a category get different placeholders. */
  lemma EntriesInjective(issued: seq<Issue>, c: Category, o1: string, o2: string)
    requires WellIssued(issued) && o1 in EntriesOf(issued, c) && o2 in EntriesOf(issued, c)
    requires EntriesOf(issued, c)[o1] == EntriesOf(issued, c)[o2]
    ensures o1 == o2
  {
    var i := EntriesAreReversed(issued, c, o1);
    var j := EntriesAreReversed(issued, c, o2);
    PlaceholdersDiffer(c, issued[i].n, c, issued[j].n);
    if i < j {
      IssuedOnce(issued, i, j);
    } else if j < i {
      IssuedOnce(issued, j, i);
    }
  }

  /** A value keeps its placeholder for good. */
  lemma {:induction false} PlaceholdersAreStable(issued: seq<Issue>, more: seq<Issue>, c: Category, o: string)
    requires WellIssued(more) && issued <= more && o in EntriesOf(issued, c)
    ensures o in EntriesOf(more, c) && EntriesOf(more, c)[o] == EntriesOf(issued, c)[o]
  {
    if |issued| == |more| {
      assert issued == more;
    } else {
      PlaceholdersAreStable(issued, more[..|more| - 1], c, o);
    }
  }

  lemma {:induction false} ReverseKeysDistinct(issued: seq<Issue>)
    requires WellIssued(issued)
    ensures DistinctKeys(ReverseOf(issued))
  {
    var reverse := ReverseOf(issued);
    forall i, j | 0 <= i < j < |reverse| ensures reverse[i].0 != reverse[j].0 {
      IssuedOnce(issued, i, j);
      if reverse[i].0 == reverse[j].0 {
        PlaceholdersDiffer(issued[i].cat, issued[i].n, issued[j].cat, issued[j].n);
        assert false;
      }
    }
  }

  /** Every key of the table was issued, for the value it stands for. */
  lemma KeyIsIssued(issued: seq<Issue>, p: string) returns (i: nat)
    requires WellIssued(issued) && p in ToTable(ReverseOf(issued))
    ensures i < |issued| && p == Placeholder(issued[i].cat, issued[i].n)
    ensures ToTable(ReverseOf(issued))[p] == issued[i].original && MatchShape(issued[i].cat, issued[i].original)
    ensures issued[i].n <= CountOf(issued, issued[i].cat)
  {
    var reverse := ReverseOf(issued);
    ReverseKeysDistinct(issued);
    ToTableDomain(reverse);
    var j :| 0 <= j < |reverse| && reverse[j].0 == p;
    IssuedBound(issued, j);
    i := j;
  }

  ghost predicate Small(issued: seq<Issue>) {
    forall c :: CountOf(issued, c) < COUNTER_LIMIT
  }

  /** While the counters stay below 10^8 the record is a proper table. */
  lemma {:induction false} RecordIsValidTable(issued: seq<Issue>)
    requires WellIssued(issued) && Small(issued)
    ensures ValidTable(ToTable(ReverseOf(issued)))
  {
    var t := ToTable(ReverseOf(issued));
    forall p | p in t ensures IsToken(p) && NoBrackets(t[p]) {
      var i := KeyIsIssued(issued, p);
      PlaceholderIsToken(issued[i].cat, issued[i].n);
    }
    forall p, q | p in t && q in t ensures !Contains(q, t[p]) {
      var i := KeyIsIssued(issued, p);
      var j := KeyIsIssued(issued, q);
      MatchOutsidePlaceholders(issued[i].cat, issued[i].original, issued[j].cat, issued[j].n);
    }
  }

  lemma EntriesInTable(issued: seq<Issue>, c: Category, o: string)
    requires WellIssued(issued) && o in EntriesOf(issued, c)
    ensures var t, p := ToTable(ReverseOf(issued)), EntriesOf(issued, c)[o]; p in t && t[p] == o
  {
    var i := EntriesAreReversed(issued, c, o);
    ReverseKeysDistinct(issued);
    ToTableDomain(ReverseOf(issued));
    assert ReverseOf(issued)[i] == (EntriesOf(issued, c)[o], o);
  }

  /** What masking one match adds to the record. */
  function Added(issued: seq<Issue>, c: Category, o: string): seq<Issue> {
    if o in EntriesOf(issued, c) then [] else [Issue(c, CountOf(issued, c) + 1, o)]
  }

  lemma AddedIsWellIssued(issued: seq<Issue>, c: Category, o: string)
    requires WellIssued(issued) && MatchShape(c, o)
    ensures WellIssued(issued + Added(issued, c, o))
  {
    var next := issued + Added(issued, c, o);
    if o in EntriesOf(issued, c) {
      assert next == issued;
    } else {
      assert next[..|issued|] == issued;
    }
  }

  /** What one new placeholder changes for a category. */
  lemma AddedEntries(issued: seq<Issue>, c: Category, o: string, d: Category)
    requires o !in EntriesOf(issued, c)
    ensures var next := issued + Added(issued, c, o);
            && EntriesOf(next, d) == (if d == c then EntriesOf(issued, c)[o := PlaceholderFor(issued, c, o)] else EntriesOf(issued, d))
            && CountOf(next, d) == CountOf(issued, d) + (if d == c then 1 else 0)
  {
  }

  /** The placeholder of one match: the old one, or the next number. */
  function PlaceholderFor(issued: seq<Issue>, c: Category, o: string): string {
    var entries := EntriesOf(issued, c);
    if o in entries then entries[o] else Placeholder(c, CountOf(issued, c) + 1)
  }

  lemma {:induction false} WellIssuedPrefix(issued: seq<Issue>, more: seq<Issue>)
    requires WellIssued(more) && issued <= more
    ensures WellIssued(issued)
  {
    if |issued| == |more| {
      assert issued == more;
    } else {
      WellIssuedPrefix(issued, more[..|more| - 1]);
    }
  }

  /** The table only grows. */
  lemma LaterTableExtends(issued: seq<Issue>, more: seq<Issue>)
    requires WellIssued(more) && issued <= more
    ensures Extends(ToTable(ReverseOf(issued)), ToTable(ReverseOf(more)))
  {
    WellIssuedPrefix(issued, more);
    ReverseKeysDistinct(issued);
    ReverseKeysDistinct(more);
    ToTableDomain(ReverseOf(issued));
    ToTableDomain(ReverseOf(more));
    forall p | p in ToTable(ReverseOf(issued))
      ensures p in ToTable(ReverseOf(more)) && ToTable(ReverseOf(more))[p] == ToTable(ReverseOf(issued))[p]
    {
      var i :| 0 <= i < |issued| && ReverseOf(issued)[i].0 == p;
      assert ReverseOf(more)[i] == ReverseOf(issued)[i];
    }
  }

  // ---------- one pattern run, as a function of the record ----------

  function IssueAll(issued: seq<Issue>, c: Category, hits: seq<Hit>): seq<Issue>
    decreases |hits|
  {
    if hits == [] then issued
    else IssueAll(issued + Added(issued, c, hits[0].found), c, hits[1..])
  }

  function MaskHits(issued: seq<Issue>, c: Category, hits: seq<Hit>): string
    decreases |hits|
  {
    if hits == [] then ""
    else
      var found, gap := hits[0].found, hits[0].gap;
      PlaceholderFor(issued, c, found) + gap + MaskHits(issued + Added(issued, c, found), c, hits[1..])
  }

  ghost predicate AllMatch(c: Category, hits: seq<Hit>) {
    forall i :: 0 <= i < |hits| ==> MatchShape(c, hits[i].found)
  }

  /** Masking one match leaves its placeholder in the table. */
  lemma MatchInTable(issued: seq<Issue>, c: Category, o: string)
    requires WellIssued(issued) && MatchShape(c, o)
    ensures InTable(issued + Added(issued, c, o), PlaceholderFor(issued, c, o), o)
  {
    var next := issued + Added(issued, c, o);
    AddedIsWellIssued(issued, c, o);
    if o in EntriesOf(issued, c) {
      assert next == issued;
    } else {
      AddedEntries(issued, c, o, c);
    }
    EntriesInTable(next, c, o);
  }

  lemma {:induction false} IssueAllGrows(issued: seq<Issue>, c: Category, hits: seq<Hit>)
    requires WellIssued(issued) && AllMatch(c, hits)
    ensures WellIssued(IssueAll(issued, c, hits)) && issued <= IssueAll(issued, c, hits)
    decreases |hits|
  {
    if hits != [] {
      AddedIsWellIssued(issued, c, hits[0].found);
      IssueAllGrows(issued + Added(issued, c, hits[0].found), c, hits[1..]);
    }
  }

  /** A pattern run replaces each match by the placeholder that the final table
      holds for it. */
  lemma {:induction false} MaskHitsReplaces(issued: seq<Issue>, c: Category, hits: seq<Hit>, last: seq<Issue>)
    returns (subs: seq<string>)
    requires WellIssued(issued) && AllMatch(c, hits) && last == IssueAll(issued, c, hits)
    ensures |subs| == |hits| && MaskHits(issued, c, hits) == Replaced(hits, subs)
    ensures forall i :: 0 <= i < |subs| ==> InTable(last, subs[i], hits[i].found)
    decreases |hits|
  {
    if hits == [] {
      subs := [];
    } else {
      var o := hits[0].found;
      var next := issued + Added(issued, c, o);
      AddedIsWellIssued(issued, c, o);
      MatchInTable(issued, c, o);
      IssueAllGrows(next, c, hits[1..]);
      var rest := MaskHitsReplaces(next, c, hits[1..], last);
      LaterTableExtends(next, last);
      subs := [PlaceholderFor(issued, c, o)] + rest;
      assert subs[1..] == rest;
    }
  }

  ghost predicate InTable(issued: seq<Issue>, p: string, o: string) {
    var t := ToTable(ReverseOf(issued));
    p in t && t[p] == o
  }

  lemma MaskHitsSame(issued: seq<Issue>, c: Category, s: string, scan: Scan)
    requires WellIssued(issued) && SoundScan(c, s, scan)
    ensures WellIssued(IssueAll(issued, c, scan.hits)) && issued <= IssueAll(issued, c, scan.hits)
    ensures SameUnder(scan.head + MaskHits(issued, c, scan.hits), s, ToTable(ReverseOf(IssueAll(issued, c, scan.hits))))
  {
    IssueAllGrows(issued, c, scan.hits);
    var subs := MaskHitsReplaces(issued, c, scan.hits, IssueAll(issued, c, scan.hits));
    var t := ToTable(ReverseOf(IssueAll(issued, c, scan.hits)));
    assert forall i :: 0 <= i < |subs| ==> InTable(IssueAll(issued, c, scan.hits), subs[i], scan.hits[i].found);
    forall u | Extends(t, u) && ValidTable(u)
      ensures Restore(scan.head + MaskHits(issued, c, scan.hits), u) == Restore(s, u)
    {
      SubstitutionKeepsMeaning(scan.head, scan.hits, subs, u);
    }
  }

  lemma SizesAddUp(issued: seq<Issue>)
    requires WellIssued(issued)
    ensures |issued| == |EntriesOf(issued, Ssn)| + |EntriesOf(issued, CreditCard)|
                        + |EntriesOf(issued, Email)| + |EntriesOf(issued, Phone)|
  {
    CountersAreSizes(issued, Ssn);
    CountersAreSizes(issued, CreditCard);
    CountersAreSizes(issued, Email);
    CountersAreSizes(issued, Phone);
  }

  /** The replacement loop restores all placeholders at once. */
  lemma UnmaskMeaning(issued: seq<Issue>, text: string)
    requires WellIssued(issued)
    ensures NamedKeys(ReverseOf(issued))
    ensures issued == [] || text == "" ==> Restore(text, ToTable(ReverseOf(issued))) == text
    ensures Small(issued) ==> ReplaceEach(text, ReverseOf(issued)) == Restore(text, ToTable(ReverseOf(issued)))
  {
    forall i | 0 <= i < |issued| ensures ReverseOf(issued)[i].0 != "" {
      PlaceholderChars(issued[i].cat, issued[i].n);
    }
    if issued == [] {
      RestoreNothing(text);
    }
    if Small(issued) {
      RecordIsValidTable(issued);
      ReverseKeysDistinct(issued);
      ReplaceEachIsRestore(text, ReverseOf(issued));
    }
  }

  /** The patterns from the i-th on, applied one after the other: the masked text
      and the record afterwards. */
  function MaskRun(re: Scanner, allowed: set<Category>, issued: seq<Issue>, text: string, i: nat): (string, seq<Issue>)
    requires i <= |CATEGORIES|
    decreases |CATEGORIES| - i
  {
    if i == |CATEGORIES| then (text, issued)
    else
      var c := CATEGORIES[i];
      if c in allowed then MaskRun(re, allowed, issued, text, i + 1)
      else
        var scan := re(c, text);
        MaskRun(re, allowed, IssueAll(issued, c, scan.hits), scan.head + MaskHits(issued, c, scan.hits), i + 1)
  }

  /** One pattern of a run. */
  lemma MaskStepSame(re: Scanner, issued: seq<Issue>, text: string, c: Category, next: seq<Issue>, out: string)
    requires WellIssued(issued) && SoundScanner(re)
    requires next == IssueAll(issued, c, re(c, text).hits)
    requires out == re(c, text).head + MaskHits(issued, c, re(c, text).hits)
    ensures WellIssued(next) && issued <= next && SameUnder(out, text, ToTable(ReverseOf(next)))
  {
    assert SoundScan(c, text, re(c, text));
    MaskHitsSame(issued, c, text, re(c, text));
  }

  /** Two parts of a run, one after the other. */
  lemma SameInTurn(masked: string, out: string, text: string, next: seq<Issue>, after: seq<Issue>)
    requires WellIssued(after) && next <= after
    requires SameUnder(masked, out, ToTable(ReverseOf(after))) && SameUnder(out, text, ToTable(ReverseOf(next)))
    ensures SameUnder(masked, text, ToTable(ReverseOf(after)))
  {
    LaterTableExtends(next, after);
    SameTransitive(masked, out, text, ToTable(ReverseOf(next)), ToTable(ReverseOf(after)));
  }

  /** Masking keeps what a text restores to, and only adds to the record. */
  lemma {:induction false} MaskRunSame(re: Scanner, allowed: set<Category>, issued: seq<Issue>, text: string, i: nat,
                                       masked: string, after: seq<Issue>)
    requires WellIssued(issued) && SoundScanner(re) && i <= |CATEGORIES|
    requires MaskRun(re, allowed, issued, text, i) == (masked, after)
    ensures WellIssued(after) && issued <= after && SameUnder(masked, text, ToTable(ReverseOf(after)))
    decreases |CATEGORIES| - i
  {
    if i < |CATEGORIES| {
      var c := CATEGORIES[i];
      if c in allowed {
        MaskRunSame(re, allowed, issued, text, i + 1, masked, after);
      } else {
        var scan := re(c, text);
        var next, out := IssueAll(issued, c, scan.hits), scan.head + MaskHits(issued, c, scan.hits);
        MaskStepSame(re, issued, text, c, next, out);
        MaskRunSame(re, allowed, next, out, i + 1, masked, after);
        SameInTurn(masked, out, text, next, after);
      }
    }
  }

  // ---------- the masker object ----------

  /** The fields of a masker are determined by the placeholders issued so far. */
  ghost predicate Represents(maps: Maps, reverse: seq<(string, string)>, counters: Counters, issued: seq<Issue>) {
    && WellIssued(issued)
    && reverse == ReverseOf(issued)
    && AllAgree(maps, counters, issued)
  }

  ghost predicate AllAgree(maps: Maps, counters: Counters, issued: seq<Issue>) {
    forall c :: Agrees(maps, counters, issued, c)
  }

  ghost predicate Agrees(maps: Maps, counters: Counters, issued: seq<Issue>, c: Category) {
    Entries(maps, c) == EntriesOf(issued, c) && Count(counters, c) == CountOf(issued, c)
  }

  /** The fields after a new value was masked. */
  function WithEntry(maps: Maps, c: Category, o: string, p: string): Maps { maps[c := Entries(maps, c)[o := p]] }

  function WithCount(counters: Counters, c: Category): Counters { counters[c := Count(counters, c) + 1] }

  lemma RepresentsNext(maps: Maps, reverse: seq<(string, string)>, counters: Counters, issued: seq<Issue>,
                       c: Category, o: string, p: string)
    requires Represents(maps, reverse, counters, issued)
    requires MatchShape(c, o) && o !in Entries(maps, c) && p == Placeholder(c, Count(counters, c) + 1)
    ensures p == PlaceholderFor(issued, c, o)
    ensures Represents(WithEntry(maps, c, o, p), reverse + [(p, o)], WithCount(counters, c), issued + Added(issued, c, o))
  {
    AgreesAt(maps, counters, issued, c);
    IssuedNext(issued, c, o, p, issued + Added(issued, c, o));
    AllAgreeNext(maps, counters, issued, c, o, p);
  }

  lemma IssuedNext(issued: seq<Issue>, c: Category, o: string, p: string, next: seq<Issue>)
    requires WellIssued(issued) && MatchShape(c, o) && o !in EntriesOf(issued, c)
    requires p == Placeholder(c, CountOf(issued, c) + 1) && next == issued + Added(issued, c, o)
    ensures p == PlaceholderFor(issued, c, o)
    ensures WellIssued(next) && ReverseOf(next) == ReverseOf(issued) + [(p, o)]
  {
    NewPlaceholder(issued, c, o);
    AddedIsWellIssued(issued, c, o);
    AddedReverse(issued, c, o);
  }

  lemma NewPlaceholder(issued: seq<Issue>, c: Category, o: string)
    requires o !in EntriesOf(issued, c)
    ensures PlaceholderFor(issued, c, o) == Placeholder(c, CountOf(issued, c) + 1)
  {
  }

  lemma AgreesAt(maps: Maps, counters: Counters, issued: seq<Issue>, c: Category)
    requires AllAgree(maps, counters, issued)
    ensures Entries(maps, c) == EntriesOf(issued, c) && Count(counters, c) == CountOf(issued, c)
  {
    assert Agrees(maps, counters, issued, c);
  }

  lemma AllAgreeNext(maps: Maps, counters: Counters, issued: seq<Issue>, c: Category, o: string, p: string)
    requires AllAgree(maps, counters, issued) && o !in Entries(maps, c) && p == PlaceholderFor(issued, c, o)
    ensures AllAgree(WithEntry(maps, c, o, p), WithCount(counters, c), issued + Added(issued, c, o))
  {
    AgreesAt(maps, counters, issued, c);
    forall d ensures Agrees(WithEntry(maps, c, o, p), WithCount(counters, c), issued + Added(issued, c, o), d) {
      AgreesAt(maps, counters, issued, d);
      Updated(maps, counters, c, Entries(maps, c)[o := p], Count(counters, c) + 1, d);
      AddedEntries(issued, c, o, d);
    }
  }

  lemma Updated(maps: Maps, counters: Counters, c: Category, entries: map<string, string>, n: nat, d: Category)
    ensures Entries(maps[c := entries], d) == if d == c then entries else Entries(maps, d)
    ensures Count(counters[c := n], d) == if d == c then n else Count(counters, d)
  {
  }

  lemma AddedReverse(issued: seq<Issue>, c: Category, o: string)
    requires o !in EntriesOf(issued, c)
    ensures ReverseOf(issued + Added(issued, c, o)) == ReverseOf(issued) + [(PlaceholderFor(issued, c, o), o)]
  {
  }

  lemma RepresentsSeen(maps: Maps, reverse: seq<(string, string)>, counters: Counters, issued: seq<Issue>,
                       c: Category, o: string)
    requires Represents(maps, reverse, counters, issued) && o in Entries(maps, c)
    ensures Entries(maps, c)[o] == PlaceholderFor(issued, c, o)
    ensures issued == issued + Added(issued, c, o)
  {
    assert Agrees(maps, counters, issued, c);
  }

  /** The placeholder of a value, and the fields afterwards. */
  method Issued(maps: Maps, reverse: seq<(string, string)>, counters: Counters, c: Category, original: string,
                ghost issued: seq<Issue>)
    returns (p: string, maps': Maps, reverse': seq<(string, string)>, counters': Counters)
    requires Represents(maps, reverse, counters, issued) && MatchShape(c, original)
    ensures p == PlaceholderFor(issued, c, original)
    ensures Represents(maps', reverse', counters', issued + Added(issued, c, original))
  {
    var entries := Entries(maps, c);
    if original in entries {
      RepresentsSeen(maps, reverse, counters, issued, c, original);
      return entries[original], maps, reverse, counters;
    }
    p := Placeholder(c, Count(counters, c) + 1);
    RepresentsNext(maps, reverse, counters, issued, c, original, p);
    maps', counters', reverse' := WithEntry(maps, c, original, p), WithCount(counters, c), reverse + [(p, original)];
  }

  class PIIMasker {
    const allowed: set<Category>
    var maps: Maps
    var reverse: seq<(string, string)>     // a dictionary in insertion order
    var counters: Counters
    ghost var issued: seq<Issue>           // what `reverse` records, in order

    ghost predicate Valid()
      reads this
    {
      Represents(maps, reverse, counters, issued)
    }

    ghost function Back(): Table
      reads this
    {
      ToTable(ReverseOf(issued))
    }

    constructor (allowed: set<Category>)
      ensures Valid() && this.allowed == allowed && issued == []
      ensures reverse == [] && maps == map[] && counters == map[]
    {
      this.allowed := allowed;
      maps, reverse, counters, issued := map[], [], map[], [];
    }

    /** A value seen before keeps its placeholder; a new one gets the next number. */
    method NextPlaceholder(c: Category, original: string) returns (p: string)
      requires Valid() && MatchShape(c, original)
      modifies this
      ensures Valid() && issued == old(issued) + Added(old(issued), c, original)
      ensures p == PlaceholderFor(old(issued), c, original)
    {
      p, maps, reverse, counters := Issued(maps, reverse, counters, c, original, issued);
      issued := issued + Added(issued, c, original);
    }

    /** `pattern.sub`: the replacement is asked for each match, from the left. */
    method Substitute(c: Category, hits: seq<Hit>) returns (out: string)
      requires Valid() && AllMatch(c, hits)
      modifies this
      ensures Valid() && issued == IssueAll(old(issued), c, hits)
      ensures out == MaskHits(old(issued), c, hits)
      decreases |hits|
    {
      if hits == [] {
        return "";
      }
      assert MatchShape(c, hits[0].found);
      var p := NextPlaceholder(c, hits[0].found);
      var rest := Substitute(c, hits[1..]);
      out := p + hits[0].gap + rest;
    }

    /** Runs the patterns in order over the text. The masked text means the same
        as the text, now and after any later masking. */
    method Mask(re: Scanner, text: string) returns (result: string)
      requires Valid() && SoundScanner(re)
      modifies this
      ensures Valid() && old(issued) <= issued
      ensures if text == "" then result == "" && issued == old(issued)
              else (result, issued) == MaskRun(re, allowed, old(issued), text, 0)
      ensures SameUnder(result, text, Back())
    {
      result := text;
      if text == "" {
        return;
      }
      for i := 0 to |CATEGORIES|
        invariant Valid() && old(issued) <= issued
        invariant MaskRun(re, allowed, issued, result, i) == MaskRun(re, allowed, old(issued), text, 0)
        invariant SameUnder(result, text, Back())
      {
        var c := CATEGORIES[i];
        if c !in allowed {
          var scan := re(c, result);
          assert SoundScan(c, result, scan);
          ghost var before := issued;
          var masked := Substitute(c, scan.hits);
          var out := scan.head + masked;
          MaskHitsSame(before, c, result, scan);
          LaterTableExtends(before, issued);
          SameTransitive(out, result, text, ToTable(ReverseOf(before)), Back());
          result := out;
        }
      }
    }

    /** Puts the originals back, one `replace` after the other. */
    method Unmask(text: string) returns (result: string)
      requires Valid()
      ensures NamedKeys(reverse) && (text != "" ==> result == ReplaceEach(text, reverse))
      ensures Small(issued) ==> result == Restore(text, Back())
    {
      result := text;
      UnmaskMeaning(issued, text);
      if text == "" || reverse == [] {
        return;
      }
      ghost var all := ReplaceEach(text, reverse);
      var todo := reverse;
      while todo != []
        invariant NamedKeys(todo) && ReplaceEach(result, todo) == all
        decreases |todo|
      {
        result := Replace(result, todo[0].0, todo[0].1);
        todo := todo[1..];
      }
    }

    /** `total_masked` is the number of placeholders issued. */
    method TotalMasked() returns (total: nat)
      requires Valid()
      ensures total == |reverse|
    {
      assert Agrees(maps, counters, issued, Ssn) && Agrees(maps, counters, issued, CreditCard);
      assert Agrees(maps, counters, issued, Email) && Agrees(maps, counters, issued, Phone);
      SizesAddUp(issued);
      total := |Entries(maps, Ssn)| + |Entries(maps, CreditCard)| + |Entries(maps, Email)| + |Entries(maps, Phone)|;
    }
  }

  // ---------- the round trip ----------

  /** The record after masking a text. */
  function After(re: Scanner, allowed: set<Category>, issued: seq<Issue>, text: string): seq<Issue> {
    if text == "" then issued else MaskRun(re, allowed, issued, text, 0).1
  }

  /** The text shows a placeholder of the record. */
  ghost predicate ShowsIssued(text: string, issued: seq<Issue>) { HoldsIssued(text, ToTable(ReverseOf(issued))) }

  /** Masking a text and unmasking the result, on a masker with any past, gives
      the text back exactly when it shows no placeholder that was issued before or
      that masking this very text issues. */
  method RoundTrip(masker: PIIMasker, re: Scanner, text: string) returns (masked: string, restored: string)
    requires masker.Valid() && SoundScanner(re)
    modifies masker
    ensures masker.Valid() && masker.issued == After(re, masker.allowed, old(masker.issued), text)
    ensures Small(masker.issued) ==> restored == Restore(text, masker.Back())
    ensures var after := After(re, masker.allowed, old(masker.issued), text);
            Small(after) ==> (restored == text <==> !ShowsIssued(text, after))
  {
    masked := masker.Mask(re, text);
    restored := masker.Unmask(masked);
    if Small(masker.issued) {
      RecordIsValidTable(masker.issued);
      assert Extends(masker.Back(), masker.Back());
      RestoreFixpoint(text, masker.Back());
    }
  }

  /** A text without anything that looks like a placeholder. */
  ghost predicate ShowsNoPlaceholder(text: string) {
    forall c, n :: !Contains(text, Placeholder(c, n))
  }

  lemma NoPlaceholderNoneIssued(text: string, issued: seq<Issue>)
    requires WellIssued(issued) && ShowsNoPlaceholder(text)
    ensures !ShowsIssued(text, issued)
  {
    forall p | p in ToTable(ReverseOf(issued)) ensures !Contains(text, p) {
      var i := KeyIsIssued(issued, p);
    }
  }

  /** Such a text always comes back. */
  method PlainRoundTrip(masker: PIIMasker, re: Scanner, text: string) returns (masked: string, restored: string)
    requires masker.Valid() && SoundScanner(re) && ShowsNoPlaceholder(text)
    modifies masker
    ensures masker.Valid() && (Small(masker.issued) ==> restored == text)
  {
    masked, restored := RoundTrip(masker, re, text);
    NoPlaceholderNoneIssued(text, masker.issued);
  }
}
