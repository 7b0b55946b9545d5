/** Python string operations shared by the components: decimal printing and
    parsing, membership, search. */
module Text {

  datatype Option<+T> = None | Some(value: T)

  predicate IsDigit(c: char) { '0' <= c <= '9' }

  predicate AllDigits(s: string) { forall c :: c in s ==> IsDigit(c) }

  /** `part` occurs somewhere in `s`. */
  ghost predicate Contains(s: string, part: string) {
    exists i :: OccursAt(s, part, i)
  }

  ghost predicate OccursAt(s: string, part: string, i: int) {
    0 <= i <= |s| && part <= s[i..]
  }

  lemma StartsLike(text: string, part: string, i: int)
    requires OccursAt(text, part, i) && part != ""
    ensures i < |text| && text[i] == part[0]
  {
  }

  // ---------- decimal numerals ----------

  function DigitChar(d: nat): (c: char)
    requires d < 10
    ensures IsDigit(c)
  {
    ('0' as int + d) as char
  }

  /** `str(n)` for n >= 0. */
  function Digits(n: nat): (s: string)
    ensures s != "" && AllDigits(s)
  {
    if n < 10 then [DigitChar(n)] else Digits(n / 10) + [DigitChar(n % 10)]
  }

  /** `str(n)`. */
  function Decimal(n: int): string {
    if n < 0 then "-" + Digits(-n) else Digits(n)
  }

  function NumeralValue(s: string): nat
    requires AllDigits(s)
  {
    if s == "" then 0
    else
      assert s[|s| - 1] in s;
      10 * NumeralValue(s[..|s| - 1]) + (s[|s| - 1] as int - '0' as int)
  }

  lemma {:induction false} NumeralOfDigits(n: nat)
    ensures NumeralValue(Digits(n)) == n
  {
    if n < 10 {
      assert Digits(n)[..0] == "";
    } else {
      NumeralOfDigits(n / 10);
      assert Digits(n)[..|Digits(n)| - 1] == Digits(n / 10);
    }
  }

  lemma DigitsInjective(m: nat, n: nat)
    requires Digits(m) == Digits(n)
    ensures m == n
  {
    NumeralOfDigits(m);
    NumeralOfDigits(n);
  }

  lemma DecimalInjective(m: int, n: int)
    requires Decimal(m) == Decimal(n)
    ensures m == n
  {
    assert forall k: nat :: Digits(k)[0] in Digits(k) && IsDigit(Digits(k)[0]);
    if m < 0 && n < 0 {
      assert Decimal(m)[1..] == Digits(-m) && Decimal(n)[1..] == Digits(-n);
      DigitsInjective(-m, -n);
    } else if m >= 0 && n >= 0 {
      DigitsInjective(m, n);
    }
  }

  function Pow10(k: nat): (r: nat)
    ensures r >= 1
  {
    if k == 0 then 1 else 10 * Pow10(k - 1)
  }

  /** A number below 10^k prints with at most k digits. */
  lemma {:induction false} DigitsLength(n: nat, k: nat)
    requires k >= 1 && n < Pow10(k)
    ensures |Digits(n)| <= k
  {
    if n >= 10 {
      assert Pow10(1) == 10 * Pow10(0) == 10;
      DigitsLength(n / 10, k - 1);
    }
  }

  // ---------- white space ----------

  /** `str.isspace` for one character. */
  predicate IsSpace(c: char) {
    || '\t' <= c <= '\r' || '\U{1c}' <= c <= ' ' || c == '\U{85}' || c == '\U{a0}' || c == '\U{1680}'
    || '\U{2000}' <= c <= '\U{200a}' || c == '\U{2028}' || c == '\U{2029}' || c == '\U{202f}' || c == '\U{205f}'
    || c == '\U{3000}'
  }

  /** Among the ASCII characters, five control characters of layout, four separators
      and the space are white space. */
  lemma AsciiSpaces(c: char)
    requires c as int < 128
    ensures IsSpace(c) <==> c in {'\t', '\n', '\U{b}', '\U{c}', '\r', ' ', '\U{1c}', '\U{1d}', '\U{1e}', '\U{1f}'}
  {
  }

  function LStrip(s: string): string {
    if s != "" && IsSpace(s[0]) then LStrip(s[1..]) else s
  }

  function RStrip(s: string): string {
    if s != "" && IsSpace(s[|s| - 1]) then RStrip(s[..|s| - 1]) else s
  }

  /** `s.strip()` */
  function Strip(s: string): string { RStrip(LStrip(s)) }

  lemma StripSolid(s: string)
    requires s != "" && !IsSpace(s[0]) && !IsSpace(s[|s| - 1])
    ensures Strip(s) == s
  {
  }

  /** A non-empty text without white space at its ends. */
  predicate Solid(s: string) { s != "" && !IsSpace(s[0]) && !IsSpace(s[|s| - 1]) }

  predicate Blank(s: string) { forall i :: 0 <= i < |s| ==> IsSpace(s[i]) }

  lemma {:induction false} RStripEnds(s: string)
    ensures RStrip(s) <= s && (RStrip(s) != "" ==> !IsSpace(RStrip(s)[|RStrip(s)| - 1]))
    ensures Blank(s[|RStrip(s)|..])
  {
    if s != "" && IsSpace(s[|s| - 1]) {
      RStripEnds(s[..|s| - 1]);
      assert forall i :: |RStrip(s)| <= i < |s| - 1 ==> s[i] == s[..|s| - 1][|RStrip(s)|..][i - |RStrip(s)|];
    }
  }

  lemma {:induction false} LStripEnds(s: string)
    ensures |LStrip(s)| <= |s| && LStrip(s) == s[|s| - |LStrip(s)|..]
    ensures LStrip(s) != "" ==> !IsSpace(LStrip(s)[0])
    ensures Blank(s[..|s| - |LStrip(s)|])
  {
    if s != "" && IsSpace(s[0]) {
      LStripEnds(s[1..]);
      var n := |s| - |LStrip(s)|;
      assert forall i :: 1 <= i < n ==> s[i] == s[1..][..n - 1][i - 1];
    }
  }

  /** Stripping leaves nothing or a solid text. */
  lemma StripIsSolid(s: string)
    ensures Strip(s) == "" || Solid(Strip(s))
  {
    LStripEnds(s);
    RStripEnds(LStrip(s));
  }

  /** White space in front does not matter. */
  lemma {:induction false} StripFront(w: string, s: string)
    requires Blank(w)
    ensures Strip(w + s) == Strip(s)
  {
    if w == "" {
      assert w + s == s;
    } else {
      assert (w + s)[1..] == w[1..] + s;
      StripFront(w[1..], s);
    }
  }

  lemma {:induction false} RStripBack(s: string, w: string)
    requires Blank(w)
    ensures RStrip(s + w) == RStrip(s)
  {
    if w == "" {
      assert s + w == s;
    } else {
      assert (s + w)[..|s + w| - 1] == s + w[..|w| - 1];
      RStripBack(s, w[..|w| - 1]);
    }
  }

  /** White space behind does not matter. */
  lemma {:induction false} StripBack(s: string, w: string)
    requires Blank(w)
    ensures Strip(s + w) == Strip(s)
  {
    if s == "" {
      assert s + w == w + "";
      StripFront(w, "");
    } else if IsSpace(s[0]) {
      assert (s + w)[1..] == s[1..] + w;
      StripBack(s[1..], w);
    } else {
      RStripBack(s, w);
    }
  }

  // ---------- lower case, for the ASCII letters ----------

  function LowerChar(c: char): char {
    if 'A' <= c <= 'Z' then (c as int + 32) as char else c
  }

  function Lower(s: string): (r: string)
    ensures |r| == |s| && forall i :: 0 <= i < |s| ==> r[i] == LowerChar(s[i])
  {
    seq(|s|, i requires 0 <= i < |s| => LowerChar(s[i]))
  }

  predicate IsLowerCase(c: char) { 'a' <= c <= 'z' }

  /** The text is k, a text without capitals, up to the case of its letters. */
  predicate IsCaseOf(s: string, k: string) {
    && |s| == |k|
    && forall i :: 0 <= i < |k| ==>
         !('A' <= k[i] <= 'Z') && (s[i] == k[i] || (IsLowerCase(k[i]) && s[i] as int == k[i] as int - 32))
  }

  lemma LowerOfCase(s: string, k: string)
    requires IsCaseOf(s, k)
    ensures Lower(s) == k && (Solid(k) ==> Solid(s))
  {
    assert forall i :: 0 <= i < |k| ==> LowerChar(s[i]) == k[i];
    assert Lower(s) == k;
  }

  /** White space around a text does not matter. */
  lemma StripAround(w: string, s: string, v: string)
    requires Blank(w) && Blank(v) && Solid(s)
    ensures Strip(w + (s + v)) == s
  {
    StripFront(w, s + v);
    StripBack(s, v);
    StripSolid(s);
  }

  /** Case and surrounding white space do not matter to `.strip().lower()`. */
  lemma LowerStripped(w: string, s: string, v: string, k: string)
    requires Blank(w) && Blank(v) && IsCaseOf(s, k) && Solid(k)
    ensures Lower(Strip(w + (s + v))) == k && Lower(s) == k
  {
    LowerOfCase(s, k);
    StripAround(w, s, v);
  }

  // ---------- split(",") and ",".join ----------

  /** `s.split(sep)` for a one-character separator. */
  function Split(s: string, sep: char): (parts: seq<string>)
    ensures parts != []
  {
    if s == "" then [""]
    else if s[0] == sep then [""] + Split(s[1..], sep)
    else
      var rest := Split(s[1..], sep);
      [[s[0]] + rest[0]] + rest[1..]
  }

  function Join(parts: seq<string>, sep: char): string {
    if parts == [] then ""
    else if |parts| == 1 then parts[0]
    else parts[0] + [sep] + Join(parts[1..], sep)
  }

  predicate Without(s: string, c: char) { forall i :: 0 <= i < |s| ==> s[i] != c }

  lemma {:induction false} SplitPlain(s: string, sep: char)
    requires Without(s, sep)
    ensures Split(s, sep) == [s]
  {
    if s != "" {
      SplitPlain(s[1..], sep);
      assert s == [s[0]] + s[1..];
    }
  }

  lemma {:induction false} SplitFirst(s: string, sep: char, rest: string)
    requires Without(s, sep)
    ensures Split(s + [sep] + rest, sep) == [s] + Split(rest, sep)
  {
    var t := s + [sep] + rest;
    if s == "" {
      assert t == [sep] + rest;
      assert t[1..] == rest;
    } else {
      assert t[1..] == s[1..] + [sep] + rest && t[0] == s[0];
      SplitFirst(s[1..], sep, rest);
      assert s == [s[0]] + s[1..];
    }
  }

  /** Splitting what was joined gives the parts back. */
  lemma {:induction false} SplitOfJoin(parts: seq<string>, sep: char)
    requires parts != [] && forall i :: 0 <= i < |parts| ==> Without(parts[i], sep)
    ensures Split(Join(parts, sep), sep) == parts
  {
    if |parts| == 1 {
      SplitPlain(parts[0], sep);
    } else {
      SplitOfJoin(parts[1..], sep);
      SplitFirst(parts[0], sep, Join(parts[1..], sep));
    }
  }

  lemma {:induction false} SplitPartsPlain(s: string, sep: char)
    ensures forall i :: 0 <= i < |Split(s, sep)| ==> Without(Split(s, sep)[i], sep)
  {
    if s != "" {
      SplitPartsPlain(s[1..], sep);
    }
  }

  lemma {:induction false} SplitFront(w: string, s: string, sep: char)
    requires Without(w, sep)
    ensures Split(w + s, sep) == [w + Split(s, sep)[0]] + Split(s, sep)[1..]
  {
    if w == "" {
      assert w + s == s && w + Split(s, sep)[0] == Split(s, sep)[0];
    } else {
      assert (w + s)[1..] == w[1..] + s && (w + s)[0] == w[0];
      SplitFront(w[1..], s, sep);
      assert [w[0]] + (w[1..] + Split(s, sep)[0]) == w + Split(s, sep)[0];
    }
  }

  function AddToLast(parts: seq<string>, w: string): seq<string>
    requires parts != []
  {
    parts[|parts| - 1 := parts[|parts| - 1] + w]
  }

  lemma AddToLastOfRest(c: char, rest: seq<string>, w: string)
    requires rest != []
    ensures AddToLast([[c] + rest[0]] + rest[1..], w) ==
            (var more := AddToLast(rest, w); [[c] + more[0]] + more[1..])
    ensures AddToLast([""] + rest, w) == [""] + AddToLast(rest, w)
  {
    assert ([c] + rest[0]) + w == [c] + (rest[0] + w);
  }

  lemma {:induction false} SplitBack(s: string, w: string, sep: char)
    requires Without(w, sep)
    ensures Split(s + w, sep) == AddToLast(Split(s, sep), w)
  {
    if s == "" {
      assert s + w == w && "" + w == w;
      SplitPlain(w, sep);
    } else {
      assert (s + w)[1..] == s[1..] + w && (s + w)[0] == s[0];
      SplitBack(s[1..], w, sep);
      AddToLastOfRest(s[0], Split(s[1..], sep), w);
    }
  }

  // ---------- `int(text)` ----------

  /** Digits with single underscores between them. */
  predicate IsNumeral(s: string) {
    && s != "" && s[0] != '_' && s[|s| - 1] != '_'
    && (forall i :: 0 <= i < |s| ==> IsDigit(s[i]) || s[i] == '_')
    && (forall i :: 0 <= i < |s| - 1 ==> s[i] != '_' || s[i + 1] != '_')
  }

  function DropUnderscores(s: string): (r: string)
    ensures (forall c :: c in s ==> IsDigit(c) || c == '_') ==> AllDigits(r)
  {
    if s == "" then ""
    else if s[0] == '_' then DropUnderscores(s[1..])
    else [s[0]] + DropUnderscores(s[1..])
  }

  function ParseNat(s: string): Option<int> {
    if IsNumeral(s) then Some(NumeralValue(DropUnderscores(s))) else None
  }

  function ParseInt(s: string): Option<int> {
    var t := Strip(s);
    if t != "" && t[0] == '-' then
      var n := ParseNat(t[1..]);
      if n.Some? then Some(-n.value) else None
    else if t != "" && t[0] == '+' then ParseNat(t[1..])
    else ParseNat(t)
  }

  lemma {:induction false} DigitsHaveNoUnderscores(s: string)
    requires AllDigits(s)
    ensures DropUnderscores(s) == s
  {
    if s != "" {
      assert s[0] in s;
      DigitsHaveNoUnderscores(s[1..]);
    }
  }

  lemma DigitsArePlain(n: nat)
    ensures forall i :: 0 <= i < |Digits(n)| ==> IsDigit(Digits(n)[i])
  {
  }

  lemma ParseDigits(n: nat)
    ensures ParseNat(Digits(n)) == Some(n)
  {
    DigitsArePlain(n);
    DigitsHaveNoUnderscores(Digits(n));
    NumeralOfDigits(n);
  }

  /** Printing then parsing an integer gives it back. */
  lemma ParseDecimal(n: int)
    ensures ParseInt(Decimal(n)) == Some(n)
  {
    var m := if n < 0 then -n else n;
    var d := Digits(m);
    DigitsArePlain(m);
    ParseDigits(m);
    assert IsDigit(d[0]) && IsDigit(d[|d| - 1]);
    if n < 0 {
      assert ("-" + d)[1..] == d;
      StripSolid("-" + d);
    } else {
      StripSolid(d);
    }
  }

  lemma DecimalChars(n: int, c: char)
    requires !IsDigit(c) && c != '-'
    ensures forall i :: 0 <= i < |Decimal(n)| ==> Decimal(n)[i] != c
  {
  }

  /** Only digits, with signs, underscores and white space around them, are read. */
  lemma ParsedIsNumeral(s: string)
    requires ParseInt(s).Some?
    ensures exists i :: 0 <= i < |Strip(s)| && IsDigit(Strip(s)[i])
    ensures forall i :: 0 <= i < |Strip(s)| ==>
              IsDigit(Strip(s)[i]) || Strip(s)[i] == '_' || (i == 0 && (Strip(s)[0] == '-' || Strip(s)[0] == '+'))
  {
    var t := Strip(s);
    var k := if t[0] == '-' || t[0] == '+' then 1 else 0;
    assert IsNumeral(t[k..]);
    assert forall i :: k <= i < |t| ==> t[i] == t[k..][i - k];
    assert IsDigit(t[k]);
  }
}
