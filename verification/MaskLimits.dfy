/** Texts that masking and unmasking does not give back (app/core/ai_privacy.py). */
module MaskLimits {
  import opened Text
  import opened PlaceholderText
  import opened PiiMask

  /** One pattern that finds nothing changes nothing. */
  lemma NothingFound(re: Scanner, allowed: set<Category>, issued: seq<Issue>, text: string, c: Category, i: nat)
    requires i < |CATEGORIES| && CATEGORIES[i] == c && c !in allowed && re(c, text) == Scan(text, [])
    ensures MaskRun(re, allowed, issued, text, i) == MaskRun(re, allowed, issued, text, i + 1)
  {
    assert text + "" == text;
  }

  /** One pattern that finds a single value not seen before. */
  lemma OneFound(re: Scanner, allowed: set<Category>, issued: seq<Issue>, text: string, c: Category, i: nat, head: string, o: string, gap: string,
                 out: string)
    requires i < |CATEGORIES| && CATEGORIES[i] == c && c !in allowed && re(c, text) == Scan(head, [Hit(o, gap)])
    requires o !in EntriesOf(issued, c) && out == head + (Placeholder(c, CountOf(issued, c) + 1) + gap)
    ensures MaskRun(re, allowed, issued, text, i) == MaskRun(re, allowed, issued + [Issue(c, CountOf(issued, c) + 1, o)], out, i + 1)
  {
    var next := issued + [Issue(c, CountOf(issued, c) + 1, o)];
    assert next == issued + Added(issued, c, o);
    OneHit(issued, c, o, gap, next);
    RunStep(re, allowed, issued, text, c, i, next, out);
  }

  lemma RunStep(re: Scanner, allowed: set<Category>, issued: seq<Issue>, text: string, c: Category, i: nat, next: seq<Issue>, out: string)
    requires i < |CATEGORIES| && CATEGORIES[i] == c && c !in allowed && next == IssueAll(issued, c, re(c, text).hits)
    requires out == re(c, text).head + MaskHits(issued, c, re(c, text).hits)
    ensures MaskRun(re, allowed, issued, text, i) == MaskRun(re, allowed, next, out, i + 1)
  {
  }

  lemma OneHit(issued: seq<Issue>, c: Category, o: string, gap: string, next: seq<Issue>)
    requires next == issued + Added(issued, c, o)
    ensures IssueAll(issued, c, [Hit(o, gap)]) == next
    ensures MaskHits(issued, c, [Hit(o, gap)]) == PlaceholderFor(issued, c, o) + gap
  {
    assert [Hit(o, gap)][1..] == [];
    assert MaskHits(next, c, []) == "" && IssueAll(next, c, []) == next;
  }

  /** From the second pattern on, only the last one finds something. */
  lemma PhoneRun(re: Scanner, issued: seq<Issue>, text: string, head: string, o: string, gap: string, p: string)
    requires o !in EntriesOf(issued, Phone) && p == Placeholder(Phone, CountOf(issued, Phone) + 1)
    requires re(CreditCard, text) == Scan(text, []) && re(Email, text) == Scan(text, [])
    requires re(Phone, text) == Scan(head, [Hit(o, gap)])
    ensures MaskRun(re, {}, issued, text, 1) ==
              (head + (p + gap), issued + [Issue(Phone, CountOf(issued, Phone) + 1, o)])
  {
    NothingFound(re, {}, issued, text, CreditCard, 1);
    NothingFound(re, {}, issued, text, Email, 2);
    OneFound(re, {}, issued, text, Phone, 3, head, o, gap, head + (p + gap));
  }

  // ---------- a text that shows the placeholder of its own phone number ----------

  const SELF := "[PHONE_1] 123456789"

  /** What the patterns find in it. */
  ghost predicate FindsPhone(re: Scanner) {
    && re(Ssn, SELF) == Scan(SELF, []) && re(CreditCard, SELF) == Scan(SELF, []) && re(Email, SELF) == Scan(SELF, [])
    && re(Phone, SELF) == Scan("[PHONE_1] ", [Hit("123456789", "")])
  }

  lemma SelfRun(re: Scanner)
    requires FindsPhone(re)
    ensures MaskRun(re, {}, [], SELF, 0) == ("[PHONE_1] " + (Placeholder(Phone, 1) + ""), [Issue(Phone, 1, "123456789")])
  {
    NothingFound(re, {}, [], SELF, Ssn, 0);
    PhoneRun(re, [], SELF, "[PHONE_1] ", "123456789", "", Placeholder(Phone, 1));
    assert [] + [Issue(Phone, 1, "123456789")] == [Issue(Phone, 1, "123456789")];
  }

  lemma SelfShows()
    ensures Placeholder(Phone, 1) == "[PHONE_1]" && Contains(SELF, "[PHONE_1]")
  {
    assert Digits(1) == "1";
    assert SELF[0..] == SELF && "[PHONE_1]" <= SELF;
    assert OccursAt(SELF, "[PHONE_1]", 0);
  }

  lemma SelfTable()
    ensures var after := [Issue(Phone, 1, "123456789")];
            && WellIssued(after) && Small(after) && ShowsIssued(SELF, after) && !ShowsIssued(SELF, [])
  {
    var after := [Issue(Phone, 1, "123456789")];
    var reverse := ReverseOf(after);
    assert after[..0] == [];
    assert WellIssued([]) && EntriesOf([], Phone) == map[] && CountOf([], Phone) == 0;
    assert WellIssued(after);
    SmallRecord(after);
    ToTableDomain(reverse);
    SelfShows();
    assert reverse[0].0 == "[PHONE_1]";
  }

  lemma SmallRecord(issued: seq<Issue>)
    requires WellIssued(issued) && |issued| < COUNTER_LIMIT
    ensures Small(issued)
  {
    forall c ensures CountOf(issued, c) < COUNTER_LIMIT {
      CountersAreSizes(issued, c);
    }
  }

  /** On a new masker the text shows nothing issued, and yet it does not come back:
      masking it issues the placeholder that it shows. */
  lemma SelfIssuedPlaceholder(re: Scanner)
    requires SoundScanner(re) && FindsPhone(re)
    ensures var (masked, after) := MaskRun(re, {}, [], SELF, 0);
            && after == After(re, {}, [], SELF) && !ShowsIssued(SELF, []) && ShowsIssued(SELF, after)
            && NamedKeys(ReverseOf(after)) && ReplaceEach(masked, ReverseOf(after)) != SELF
  {
    var masked, after := "[PHONE_1] " + (Placeholder(Phone, 1) + ""), [Issue(Phone, 1, "123456789")];
    SelfRun(re);
    SelfTable();
    UnmaskMeaning(after, masked);
    MaskRunSame(re, {}, [], SELF, 0, masked, after);
    RestoresTo(masked, SELF, after);
  }

  /** A masked text is restored to its original only if that shows nothing issued. */
  lemma RestoresTo(masked: string, text: string, issued: seq<Issue>)
    requires WellIssued(issued) && Small(issued) && SameUnder(masked, text, ToTable(ReverseOf(issued)))
    ensures Restore(masked, ToTable(ReverseOf(issued))) == text <==> !ShowsIssued(text, issued)
  {
    RecordIsValidTable(issued);
    assert Extends(ToTable(ReverseOf(issued)), ToTable(ReverseOf(issued)));
    RestoreFixpoint(text, ToTable(ReverseOf(issued)));
  }

  // ---------- the limit of the counters ----------

  /** What the patterns find in the n-th value masked as an SSN, and then in its
      placeholder: the digits in it look like a phone number. */
  ghost predicate FindsDigits(re: Scanner, o: string, n: nat) {
    var q := Placeholder(Ssn, n);
    && re(Ssn, o) == Scan("", [Hit(o, "")])
    && re(CreditCard, q) == Scan(q, []) && re(Email, q) == Scan(q, [])
    && re(Phone, q) == Scan("[SSN_", [Hit(Digits(n), "]")])
  }

  /** Masking such a value: its placeholder ends up with another one inside. */
  lemma MaskedTwice(re: Scanner, issued: seq<Issue>, o: string, n: nat, m: nat)
    requires n == CountOf(issued, Ssn) + 1 && m == CountOf(issued, Phone) + 1
    requires o !in EntriesOf(issued, Ssn) && FindsDigits(re, o, n) && Digits(n) !in EntriesOf(issued, Phone)
    ensures MaskRun(re, {}, issued, o, 0) ==
              (Wrapped("SSN_", Placeholder(Phone, m)), issued + [Issue(Ssn, n, o)] + [Issue(Phone, m, Digits(n))])
  {
    var q, one := Placeholder(Ssn, n), issued + [Issue(Ssn, n, o)];
    SsnRun(re, issued, o, q, n);
    NextEntries(issued, n, o);
    PhoneRun(re, one, q, "[SSN_", Digits(n), "]", Placeholder(Phone, m));
    WrappedSsn(Placeholder(Phone, m));
  }

  lemma WrappedSsn(p: string)
    ensures Wrapped("SSN_", p) == "[SSN_" + (p + "]")
  {
  }

  /** The first pattern finds the whole text. */
  lemma SsnRun(re: Scanner, issued: seq<Issue>, o: string, q: string, n: nat)
    requires n == CountOf(issued, Ssn) + 1 && q == Placeholder(Ssn, n)
    requires o !in EntriesOf(issued, Ssn) && re(Ssn, o) == Scan("", [Hit(o, "")])
    ensures MaskRun(re, {}, issued, o, 0) == MaskRun(re, {}, issued + [Issue(Ssn, n, o)], q, 1)
  {
    NoFrame(q);
    OneFound(re, {}, issued, o, Ssn, 0, "", o, "", q);
  }

  lemma NoFrame(p: string)
    ensures "" + (p + "") == p
  {
  }

  lemma NextEntries(issued: seq<Issue>, n: nat, o: string)
    ensures var one := issued + [Issue(Ssn, n, o)];
            EntriesOf(one, Phone) == EntriesOf(issued, Phone) && CountOf(one, Phone) == CountOf(issued, Phone)
  {
    assert (issued + [Issue(Ssn, n, o)])[..|issued|] == issued;
  }

  lemma BothWellIssued(issued: seq<Issue>, o: string, n: nat, m: nat)
    requires WellIssued(issued) && n == CountOf(issued, Ssn) + 1 && m == CountOf(issued, Phone) + 1
    requires MatchShape(Ssn, o) && o !in EntriesOf(issued, Ssn)
    requires n >= COUNTER_LIMIT && Digits(n) !in EntriesOf(issued, Phone)
    ensures WellIssued(issued + [Issue(Ssn, n, o)] + [Issue(Phone, m, Digits(n))])
  {
    AddedIsWellIssued(issued, Ssn, o);
    NextEntries(issued, n, o);
    LargeCountersLookLikePhones(Ssn, n);
    AddedIsWellIssued(issued + [Issue(Ssn, n, o)], Phone, Digits(n));
  }

  /** Unmasking it stops half way: the inner placeholder is issued last and replaced
      last, when the turn of the outer one is over. */
  lemma UnmaskedHalfWay(before: seq<Issue>, m: nat, d: string)
    requires WellIssued(before + [Issue(Phone, m, d)])
    ensures var all := ReverseOf(before + [Issue(Phone, m, d)]);
            NamedKeys(all) && ReplaceEach(Wrapped("SSN_", Placeholder(Phone, m)), all) == "[" + ("SSN_" + (d + "]"))
  {
    var pairs, p := ReverseOf(before), Placeholder(Phone, m);
    var s := Wrapped("SSN_", p);
    assert ReverseOf(before + [Issue(Phone, m, d)]) == pairs + [(p, d)];
    NamedRecord(before + [Issue(Phone, m, d)]);
    forall i | 0 <= i < |pairs| ensures pairs[i].0 != "" && !Contains(s, pairs[i].0) {
      OthersAbsent(before, m, d, i);
    }
    ReplaceEachAbsent(s, pairs);
    ReplaceEachLast(s, pairs, (p, d));
    ReplaceInnerPhone(m, d);
  }

  lemma ReplaceInnerPhone(m: nat, d: string)
    ensures var p := Placeholder(Phone, m); p != "" && Replace(Wrapped("SSN_", p), p, d) == "[" + ("SSN_" + (d + "]"))
  {
    PlaceholderIsToken(Phone, m);
    PhoneStarts(m);
    ReplaceInner("SSN_", Placeholder(Phone, m), d);
  }

  lemma NamedRecord(issued: seq<Issue>)
    ensures NamedKeys(ReverseOf(issued))
  {
    forall i | 0 <= i < |issued| ensures ReverseOf(issued)[i].0 != "" {
      PlaceholderChars(issued[i].cat, issued[i].n);
    }
  }

  lemma PhoneStarts(m: nat)
    ensures Placeholder(Phone, m)[1] == 'P'
  {
  }

  /** No placeholder but the inner one shows in the masked text. */
  lemma OthersAbsent(before: seq<Issue>, m: nat, d: string, i: nat)
    requires WellIssued(before + [Issue(Phone, m, d)]) && i < |before|
    ensures ReverseOf(before)[i].0 != "" && !Contains(Wrapped("SSN_", Placeholder(Phone, m)), ReverseOf(before)[i].0)
  {
    var all := before + [Issue(Phone, m, d)];
    assert all[i] == before[i] && all[|before|] == Issue(Phone, m, d);
    IssuedOnce(all, i, |before|);
    DifferentAbsent(before[i].cat, before[i].n, m);
  }

  lemma DifferentAbsent(c: Category, n: nat, m: nat)
    requires c != Phone || n != m
    ensures Placeholder(c, n) != "" && !Contains(Wrapped("SSN_", Placeholder(Phone, m)), Placeholder(c, n))
  {
    var p, q := Placeholder(Phone, m), Placeholder(c, n);
    PlaceholderIsToken(c, n);
    PlaceholderIsToken(Phone, m);
    if p == q {
      PlaceholdersDiffer(c, n, Phone, m);
      assert false;
    }
    OtherAbsent("SSN_", p, q);
  }

  /** From 10^8 on the round trip fails, on a text that shows no placeholder at all:
      its own placeholder holds digits that are taken for a phone number, and the
      text comes back as that placeholder. */
  lemma LargeCountersBreakRoundTrip(re: Scanner, issued: seq<Issue>, o: string, n: nat, masked: string, after: seq<Issue>)
    requires WellIssued(issued) && MatchShape(Ssn, o) && o !in EntriesOf(issued, Ssn)
    requires n == CountOf(issued, Ssn) + 1 && n >= COUNTER_LIMIT
    requires FindsDigits(re, o, n) && Digits(n) !in EntriesOf(issued, Phone)
    requires MaskRun(re, {}, issued, o, 0) == (masked, after)
    ensures ShowsNoPlaceholder(o) && NamedKeys(ReverseOf(after))
    ensures ReplaceEach(masked, ReverseOf(after)) == Placeholder(Ssn, n) != o
  {
    var m := CountOf(issued, Phone) + 1;
    var before := issued + [Issue(Ssn, n, o)];
    MaskedTwice(re, issued, o, n, m);
    BothWellIssued(issued, o, n, m);
    HalfWay(before, m, n, masked, after);
    NoBracketNoPlaceholder(o);
    assert o != Placeholder(Ssn, n);
  }

  lemma HalfWay(before: seq<Issue>, m: nat, n: nat, masked: string, after: seq<Issue>)
    requires after == before + [Issue(Phone, m, Digits(n))] && WellIssued(after)
    requires masked == Wrapped("SSN_", Placeholder(Phone, m))
    ensures NamedKeys(ReverseOf(after)) && ReplaceEach(masked, ReverseOf(after)) == Placeholder(Ssn, n)
  {
    UnmaskedHalfWay(before, m, Digits(n));
    SsnPlaceholder(n);
  }

  lemma SsnPlaceholder(n: nat)
    ensures Placeholder(Ssn, n) == "[" + ("SSN_" + (Digits(n) + "]"))
  {
  }

  lemma NoBracketNoPlaceholder(o: string)
    requires NoBrackets(o)
    ensures ShowsNoPlaceholder(o) && forall c, n :: o != Placeholder(c, n)
  {
    forall c, n ensures !Contains(o, Placeholder(c, n)) && o != Placeholder(c, n) {
      NoBracketNotThis(o, Placeholder(c, n));
    }
  }

  lemma NoBracketNotThis(o: string, p: string)
    requires NoBrackets(o) && p != "" && p[0] == '['
    ensures !Contains(o, p) && o != p
  {
    forall i ensures !OccursAt(o, p, i) {
      if OccursAt(o, p, i) {
        StartsLike(o, p, i);
        assert false;
      }
    }
  }
}
