/** What masking hides, and from which patterns (app/core/ai_privacy.py). */
module Concealment {
  import opened Text
  import opened PlaceholderText
  import opened PiiMask
  import opened MaskLimits

  // ---------- allowed categories ----------

  /** The patterns of the allowed categories, made to find nothing. */
  function Quieted(re: Scanner, allowed: set<Category>): Scanner {
    (c: Category, s: string) => if c in allowed then Scan(s, []) else re(c, s)
  }

  /** Allowing a category is the same as its pattern finding nothing; all other
      patterns do their work. */
  lemma {:induction false} AllowedIsQuiet(re: Scanner, allowed: set<Category>, issued: seq<Issue>, text: string, i: nat)
    requires i <= |CATEGORIES|
    ensures MaskRun(re, allowed, issued, text, i) == MaskRun(Quieted(re, allowed), {}, issued, text, i)
    decreases |CATEGORIES| - i
  {
    if i < |CATEGORIES| {
      var c := CATEGORIES[i];
      if c in allowed {
        NothingFound(Quieted(re, allowed), {}, issued, text, c, i);
        AllowedIsQuiet(re, allowed, issued, text, i + 1);
      } else {
        var scan := re(c, text);
        AllowedIsQuiet(re, allowed, IssueAll(issued, c, scan.hits), scan.head + MaskHits(issued, c, scan.hits), i + 1);
      }
    }
  }

  /** Patterns that are allowed or find nothing are passed over. */
  lemma {:induction false} PassedOver(re: Scanner, allowed: set<Category>, issued: seq<Issue>, text: string, k: nat, i: nat)
    requires k <= i <= |CATEGORIES|
    requires forall j :: k <= j < i ==> CATEGORIES[j] in allowed || re(CATEGORIES[j], text) == Scan(text, [])
    ensures MaskRun(re, allowed, issued, text, k) == MaskRun(re, allowed, issued, text, i)
    decreases i - k
  {
    if k < i {
      if CATEGORIES[k] !in allowed {
        NothingFound(re, allowed, issued, text, CATEGORIES[k], k);
      }
      PassedOver(re, allowed, issued, text, k + 1, i);
    }
  }

  // ---------- concealment ----------

  /** Two runs of hits that differ in the values only: the same gaps, the same pattern
      of equal values, and the same answers from the two records. */
  ghost predicate SamePattern(a: seq<Issue>, b: seq<Issue>, c: Category, x: seq<Hit>, y: seq<Hit>) {
    && |x| == |y| && CountOf(a, c) == CountOf(b, c)
    && (forall i :: 0 <= i < |x| ==> SameHit(a, b, c, x[i], y[i]))
    && forall i, j :: 0 <= i < |x| && 0 <= j < |x| ==> (x[i].found == x[j].found <==> y[i].found == y[j].found)
  }

  ghost predicate SameHit(a: seq<Issue>, b: seq<Issue>, c: Category, x: Hit, y: Hit) {
    && x.gap == y.gap && (x.found in EntriesOf(a, c) <==> y.found in EntriesOf(b, c))
    && (x.found in EntriesOf(a, c) ==> EntriesOf(a, c)[x.found] == EntriesOf(b, c)[y.found])
  }

  lemma AddedAt(a: seq<Issue>, c: Category, o: string, d: Category)
    ensures var next, n := a + Added(a, c, o), CountOf(a, c) + 1;
            && EntriesOf(next, d) == (if d == c && o !in EntriesOf(a, c) then EntriesOf(a, c)[o := Placeholder(c, n)] else EntriesOf(a, d))
            && CountOf(next, d) == CountOf(a, d) + (if d == c && o !in EntriesOf(a, c) then 1 else 0)
  {
    if o in EntriesOf(a, c) {
      assert a + Added(a, c, o) == a;
    } else {
      AddedEntries(a, c, o, d);
      NewPlaceholder(a, c, o);
    }
  }

  lemma PatternStep(a: seq<Issue>, b: seq<Issue>, c: Category, x: seq<Hit>, y: seq<Hit>)
    requires x != [] && SamePattern(a, b, c, x, y)
    ensures SamePattern(a + Added(a, c, x[0].found), b + Added(b, c, y[0].found), c, x[1..], y[1..])
    ensures PlaceholderFor(a, c, x[0].found) == PlaceholderFor(b, c, y[0].found)
  {
    var o, q := x[0].found, y[0].found;
    var a', b' := a + Added(a, c, o), b + Added(b, c, q);
    assert SameHit(a, b, c, x[0], y[0]);
    AddedAt(a, c, o, c);
    AddedAt(b, c, q, c);
    forall i | 0 <= i < |x[1..]| ensures SameHit(a', b', c, x[1..][i], y[1..][i]) {
      assert x[1..][i] == x[i + 1] && y[1..][i] == y[i + 1];
      assert SameHit(a, b, c, x[i + 1], y[i + 1]);
      assert x[0].found == x[i + 1].found <==> y[0].found == y[i + 1].found;
    }
    forall i, j | 0 <= i < |x[1..]| && 0 <= j < |x[1..]|
      ensures x[1..][i].found == x[1..][j].found <==> y[1..][i].found == y[1..][j].found
    {
      assert x[1..][i] == x[i + 1] && y[1..][i] == y[i + 1] && x[1..][j] == x[j + 1] && y[1..][j] == y[j + 1];
    }
  }

  /** The masked text does not depend on the values. */
  lemma {:induction false} SameMaskedText(a: seq<Issue>, b: seq<Issue>, c: Category, x: seq<Hit>, y: seq<Hit>)
    requires SamePattern(a, b, c, x, y)
    ensures MaskHits(a, c, x) == MaskHits(b, c, y)
    ensures CountOf(IssueAll(a, c, x), c) == CountOf(IssueAll(b, c, y), c)
    decreases |x|
  {
    if x != [] {
      PatternStep(a, b, c, x, y);
      assert SameHit(a, b, c, x[0], y[0]);
      SameMaskedText(a + Added(a, c, x[0].found), b + Added(b, c, y[0].found), c, x[1..], y[1..]);
    }
  }

  /** A pattern run leaves the record of every other category alone. */
  lemma {:induction false} OthersUntouched(a: seq<Issue>, c: Category, x: seq<Hit>, d: Category)
    requires d != c
    ensures EntriesOf(IssueAll(a, c, x), d) == EntriesOf(a, d) && CountOf(IssueAll(a, c, x), d) == CountOf(a, d)
    decreases |x|
  {
    if x != [] {
      AddedAt(a, c, x[0].found, d);
      OthersUntouched(a + Added(a, c, x[0].found), c, x[1..], d);
    }
  }

  /** The records agree on every category from the i-th on. */
  ghost predicate AgreeFrom(a: seq<Issue>, b: seq<Issue>, i: nat) {
    forall j :: i <= j < |CATEGORIES| ==> AgreeOn(a, b, CATEGORIES[j])
  }

  ghost predicate AgreeOn(a: seq<Issue>, b: seq<Issue>, c: Category) {
    EntriesOf(a, c) == EntriesOf(b, c) && CountOf(a, c) == CountOf(b, c)
  }

  lemma CategoriesDiffer(i: nat, j: nat)
    requires i < j < |CATEGORIES|
    ensures CATEGORIES[i] != CATEGORIES[j]
  {
  }

  lemma AgreeAfter(a: seq<Issue>, b: seq<Issue>, i: nat, x: seq<Hit>, y: seq<Hit>)
    requires i < |CATEGORIES| && AgreeFrom(a, b, i + 1)
    ensures AgreeFrom(IssueAll(a, CATEGORIES[i], x), IssueAll(b, CATEGORIES[i], y), i + 1)
  {
    forall j | i + 1 <= j < |CATEGORIES|
      ensures AgreeOn(IssueAll(a, CATEGORIES[i], x), IssueAll(b, CATEGORIES[i], y), CATEGORIES[j])
    {
      CategoriesDiffer(i, j);
      assert AgreeOn(a, b, CATEGORIES[j]);
      OthersUntouched(a, CATEGORIES[i], x, CATEGORIES[j]);
      OthersUntouched(b, CATEGORIES[i], y, CATEGORIES[j]);
    }
  }

  /** Records that agree on what is still to come mask alike. */
  lemma {:induction false} SameRun(re: Scanner, allowed: set<Category>, a: seq<Issue>, b: seq<Issue>, text: string, i: nat)
    requires i <= |CATEGORIES| && AgreeFrom(a, b, i)
    ensures MaskRun(re, allowed, a, text, i).0 == MaskRun(re, allowed, b, text, i).0
    decreases |CATEGORIES| - i
  {
    if i < |CATEGORIES| {
      var c := CATEGORIES[i];
      if c in allowed {
        SameRun(re, allowed, a, b, text, i + 1);
      } else {
        var scan := re(c, text);
        assert AgreeOn(a, b, c);
        SameMaskedText(a, b, c, scan.hits, scan.hits);
        AgreeAfter(a, b, i, scan.hits, scan.hits);
        SameRun(re, allowed, IssueAll(a, c, scan.hits), IssueAll(b, c, scan.hits), scan.head + MaskHits(a, c, scan.hits), i + 1);
      }
    }
  }

  /** The values that a pattern finds are hidden, whenever its category is not allowed:
      two texts in which it finds the same gaps and the same pattern of equal values,
      with the same ones of them known to the masker, are masked to the same text. */
  lemma Conceals(re: Scanner, allowed: set<Category>, issued: seq<Issue>, x: string, y: string, i: nat)
    requires i < |CATEGORIES| && CATEGORIES[i] !in allowed
    requires var c := CATEGORIES[i];
             re(c, x).head == re(c, y).head && SamePattern(issued, issued, c, re(c, x).hits, re(c, y).hits)
    requires forall j :: 0 <= j < i ==>
               var d := CATEGORIES[j]; d in allowed || (re(d, x) == Scan(x, []) && re(d, y) == Scan(y, []))
    ensures MaskRun(re, allowed, issued, x, 0).0 == MaskRun(re, allowed, issued, y, 0).0
  {
    var c := CATEGORIES[i];
    var v, w := re(c, x), re(c, y);
    PassedOver(re, allowed, issued, x, 0, i);
    PassedOver(re, allowed, issued, y, 0, i);
    SameMaskedText(issued, issued, c, v.hits, w.hits);
    AgreeAfter(issued, issued, i, v.hits, w.hits);
    SameRun(re, allowed, IssueAll(issued, c, v.hits), IssueAll(issued, c, w.hits),
            v.head + MaskHits(issued, c, v.hits), i + 1);
  }

  // ---------- one text, with and without an allowed category ----------

  const CONTACT := "john@x.com or +1-555-867-5309"

  /** What the patterns find in it, before and after the address is masked. */
  ghost predicate FindsContact(re: Scanner) {
    && re(Ssn, CONTACT) == Scan(CONTACT, []) && re(CreditCard, CONTACT) == Scan(CONTACT, [])
    && re(Email, CONTACT) == Scan("", [Hit("john@x.com", " or +1-555-867-5309")])
    && re(Phone, CONTACT) == Scan("john@x.com or ", [Hit("+1-555-867-5309", "")])
  }

  lemma FirstOf(c: Category, p: string)
    requires p == "[" + Tag(c) + "_1]"
    ensures Placeholder(c, 1) == p
  {
    assert Digits(1) == "1";
  }

  /** One pattern finds one value, and no other pattern has anything to do. */
  lemma OnlyOne(re: Scanner, allowed: set<Category>, text: string, c: Category, i: nat, head: string, o: string, gap: string,
                p: string)
    requires i < |CATEGORIES| && CATEGORIES[i] == c && c !in allowed && re(c, text) == Scan(head, [Hit(o, gap)])
    requires forall j :: 0 <= j < i ==> CATEGORIES[j] in allowed || re(CATEGORIES[j], text) == Scan(text, [])
    requires forall j :: i < j < |CATEGORIES| ==> CATEGORIES[j] in allowed
    requires p == Placeholder(c, 1)
    ensures MaskRun(re, allowed, [], text, 0).0 == head + (p + gap)
  {
    var out, one := head + (p + gap), [] + [Issue(c, 1, o)];
    PassedOver(re, allowed, [], text, 0, i);
    OneFound(re, allowed, [], text, c, i, head, o, gap, out);
    PassedOver(re, allowed, one, out, i + 1, |CATEGORIES|);
  }

  lemma MaskedAddress()
    ensures "" + ("[EMAIL_1]" + " or +1-555-867-5309") == "[EMAIL_1] or +1-555-867-5309"
  {
  }

  lemma MaskedNumber()
    ensures "john@x.com or " + ("[PHONE_1]" + "") == "john@x.com or [PHONE_1]"
  {
  }

  lemma EarlierThanEmail(j: nat)
    requires j < 2
    ensures CATEGORIES[j] == Ssn || CATEGORIES[j] == CreditCard
  {
  }

  /** Allowing phone numbers leaves the number, and masks the address. */
  lemma PhoneIsLeft(re: Scanner)
    requires FindsContact(re)
    ensures MaskRun(re, {Phone}, [], CONTACT, 0).0 == "[EMAIL_1] or +1-555-867-5309"
  {
    FirstOf(Email, "[EMAIL_1]");
    MaskedAddress();
    forall j | 0 <= j < 2 ensures re(CATEGORIES[j], CONTACT) == Scan(CONTACT, []) {
      EarlierThanEmail(j);
    }
    OnlyOne(re, {Phone}, CONTACT, Email, 2, "", "john@x.com", " or +1-555-867-5309", "[EMAIL_1]");
  }

  /** Allowing addresses does it the other way round. */
  lemma AddressIsLeft(re: Scanner)
    requires FindsContact(re)
    ensures MaskRun(re, {Email}, [], CONTACT, 0).0 == "john@x.com or [PHONE_1]"
  {
    FirstOf(Phone, "[PHONE_1]");
    MaskedNumber();
    OnlyOne(re, {Email}, CONTACT, Phone, 3, "john@x.com or ", "+1-555-867-5309", "", "[PHONE_1]");
  }
}
