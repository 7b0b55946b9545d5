/** Regenerating the text between two markers (scripts/generate_sdk_clients.py). */
module MarkerSplice {
  import opened Text

  /** `text.find(part)`: the first position, or -1. */
  function Find(text: string, part: string): (k: int)
    ensures -1 <= k
    ensures k != -1 ==> OccursAt(text, part, k) && k + |part| <= |text|
  {
    FindIsFirst(text, part, 0);
    FindFrom(text, part, 0)
  }

  function FindFrom(text: string, part: string, i: nat): int
    requires i <= |text|
    decreases |text| - i
  {
    if part <= text[i..] then i else if i == |text| then -1 else FindFrom(text, part, i + 1)
  }

  lemma {:induction false} FindIsFirst(text: string, part: string, i: nat)
    requires i <= |text|
    ensures var k := FindFrom(text, part, i);
            && k >= -1
            && (k == -1 ==> forall j :: i <= j ==> !OccursAt(text, part, j))
            && (k != -1 ==> i <= k && OccursAt(text, part, k) && forall j :: i <= j < k ==> !OccursAt(text, part, j))
    decreases |text| - i
  {
    if !(part <= text[i..]) && i < |text| {
      FindIsFirst(text, part, i + 1);
    }
  }

  /** Nothing is found in front of the found position. */
  lemma FoundFirst(text: string, part: string)
    ensures Find(text, part) == -1 ==> !Contains(text, part)
    ensures forall i :: 0 <= i < Find(text, part) ==> !OccursAt(text, part, i)
  {
    FindIsFirst(text, part, 0);
  }

  /** The text with the part between two positions replaced by new lines. */
  function SpliceAt(text: string, from: nat, to: nat, r: string): string
    requires from <= |text| && to <= |text|
  {
    text[..from] + ("\n" + r) + text[to..]
  }

  /** `_replace_between_markers`; None stands for the RuntimeError. */
  function ReplaceBetween(text: string, s: string, e: string, r: string): Option<string> {
    var start, end := Find(text, s), Find(text, e);
    if start < 0 || end < 0 || end <= start then None
    else Some(SpliceAt(text, start + |s|, end, r))
  }

  /** Markers are non-empty, the end marker holds no line break, and the two cannot
      overlap with the start marker in front. */
  ghost predicate ProperMarkers(s: string, e: string) {
    && s != "" && e != "" && Without(e, '\n')
    && forall i :: 0 <= i < |s| ==> !Overlaps(s, e, i)
  }

  /** e could start inside s at offset i. */
  ghost predicate Overlaps(s: string, e: string, i: nat)
    requires i < |s|
  {
    s[i..] <= e || e <= s[i..]
  }

  /** The new text is free of the end marker, also where it meets the marker. */
  predicate Transparent(r: string, e: string) { Find("\n" + r + e, e) == 1 + |r| }

  lemma OccursWithin(text: string, part: string, i: int, shorter: string)
    requires OccursAt(text, part, i) && i + |part| <= |shorter| && shorter <= text
    ensures OccursAt(shorter, part, i)
  {
  }

  lemma OccursInLonger(text: string, part: string, i: int, longer: string)
    requires OccursAt(text, part, i) && text <= longer
    ensures OccursAt(longer, part, i)
  {
  }

  lemma OccursShift(a: string, b: string, part: string, i: int)
    requires i >= |a|
    ensures OccursAt(a + b, part, i) <==> OccursAt(b, part, i - |a|)
  {
  }

  /** A part without line breaks does not reach over one. */
  lemma NoCrossing(a: string, b: string, part: string, i: int)
    requires Without(part, '\n') && OccursAt(a + ("\n" + b), part, i) && i <= |a|
    ensures i + |part| <= |a|
  {
    var t := a + ("\n" + b);
    assert t[|a|] == '\n';
    assert forall j :: 0 <= j < |part| ==> part[j] == t[i..][j] == t[i + j];
  }

  lemma OverlapFound(t: string, s: string, e: string, a: nat, b: nat)
    requires OccursAt(t, s, a) && OccursAt(t, e, b) && a <= b < a + |s|
    ensures Overlaps(s, e, b - a)
  {
  }

  /** The end marker lies behind the start marker. */
  lemma MarkersApart(t: string, s: string, e: string)
    requires ProperMarkers(s, e) && 0 <= Find(t, s) < Find(t, e)
    ensures Find(t, s) + |s| <= Find(t, e)
  {
    if Find(t, e) < Find(t, s) + |s| {
      OverlapFound(t, s, e, Find(t, s), Find(t, e));
      assert false;
    }
  }

  /** The first end marker depends only on the text in front of a known one. */
  lemma FindBeforeMarker(x: string, q: string, e: string)
    requires e <= q
    ensures 0 <= Find(x + q, e) == Find(x + e, e) <= |x|
  {
    assert q == e + q[|e|..];
    assert (x + q)[|x|..] == q && (x + e)[|x|..] == e;
    assert OccursAt(x + q, e, |x|) && OccursAt(x + e, e, |x|);
    assert x + e <= x + q;
    FoundFirst(x + q, e);
    FoundFirst(x + e, e);
    var i, j := Find(x + q, e), Find(x + e, e);
    OccursWithin(x + q, e, i, x + e);
    OccursInLonger(x + e, e, j, x + q);
  }

  lemma FindIs(text: string, part: string, k: nat)
    requires OccursAt(text, part, k) && forall i :: 0 <= i < k ==> !OccursAt(text, part, i)
    ensures Find(text, part) == k
  {
    FoundFirst(text, part);
  }

  /** Text added behind the start marker does not move it. */
  lemma StartStays(t: string, s: string, more: string)
    requires Find(t, s) >= 0
    ensures Find(t[..Find(t, s) + |s|] + more, s) == Find(t, s)
  {
    var a := Find(t, s);
    var p := t[..a + |s|];
    var u := p + more;
    FoundFirst(t, s);
    OccursWithin(t, s, a, p);
    OccursInLonger(p, s, a, u);
    forall i | 0 <= i < a ensures !OccursAt(u, s, i) {
      if OccursAt(u, s, i) {
        OccursWithin(u, s, i, p);
        OccursInLonger(p, s, i, t);
        assert false;
      }
    }
    FindIs(u, s, a);
  }

  /** An end marker in the joined text cannot start in a front part that holds none. */
  lemma NotInFront(p: string, rest: string, e: string, i: nat)
    requires e != "" && Without(e, '\n') && !Contains(p, e) && i < |p|
    ensures !OccursAt(p + ("\n" + rest), e, i)
  {
    if OccursAt(p + ("\n" + rest), e, i) {
      NoCrossing(p, rest, e, i);
      OccursWithin(p + ("\n" + rest), e, i, p);
      assert false;
    }
  }

  /** Behind such a front part, the first occurrence is the first one of the rest. */
  lemma FindBehind(p: string, rest: string, e: string, c: nat)
    requires e != "" && Without(e, '\n') && !Contains(p, e) && Find("\n" + rest, e) == c
    ensures Find(p + ("\n" + rest), e) == |p| + c
  {
    var w := "\n" + rest;
    FoundFirst(w, e);
    OccursShift(p, w, e, |p| + c);
    forall i | 0 <= i < |p| + c ensures !OccursAt(p + w, e, i) {
      if i < |p| {
        NotInFront(p, rest, e, i);
      } else {
        OccursShift(p, w, e, i);
      }
    }
    FindIs(p + w, e, |p| + c);
  }

  /** The first end marker behind a text that holds none. */
  lemma EndMoves(p: string, r: string, q: string, e: string)
    requires e != "" && Without(e, '\n') && e <= q && !Contains(p, e)
    ensures Find(p + ("\n" + r + q), e) == |p| + Find("\n" + r + e, e)
  {
    var x := "\n" + r;
    FindBeforeMarker(x, q, e);
    assert x + q == "\n" + (r + q);
    FindBehind(p, r + q, e, Find(x + e, e));
  }

  /** Where both markers stand after a splice. */
  lemma MarkersAfterSplice(t: string, s: string, e: string, r: string)
    requires ProperMarkers(s, e) && ReplaceBetween(t, s, e, r).Some?
    ensures var u, a := ReplaceBetween(t, s, e, r).value, Find(t, s);
            Find(u, s) == a && Find(u, e) == a + |s| + Find("\n" + r + e, e)
  {
    MarkersApart(t, s, e);
    var p, q := t[..Find(t, s) + |s|], t[Find(t, e)..];
    assert p + ("\n" + r) + q == p + ("\n" + r + q);
    StartStays(t, s, "\n" + r + q);
    NoEndBefore(t, e, p);
    EndMoves(p, r, q, e);
  }

  lemma NoEndBefore(t: string, e: string, p: string)
    requires e != "" && p <= t && |p| <= Find(t, e)
    ensures !Contains(p, e)
  {
    FoundFirst(t, e);
    forall i ensures !OccursAt(p, e, i) {
      if OccursAt(p, e, i) {
        StartsLike(p, e, i);
        OccursInLonger(p, e, i, t);
        assert false;
      }
    }
  }

  // ---------- regeneration ----------

  lemma SameTail(p: string, m: string, extra: string, q: string)
    ensures p + m + (extra + q) == p + m + q <==> extra == ""
  {
  }

  lemma SpliceTwice(u: string, p: string, x: string, q: string, c: nat, r: string)
    requires u == p + x + q && c <= |x|
    ensures SpliceAt(u, |p|, |p| + c, r) == p + ("\n" + r) + (x[c..] + q)
  {
  }

  /** Replacing between markers at known positions. */
  lemma ReplaceAt(u: string, s: string, e: string, from: nat, to: nat, r: string)
    requires s != "" && Find(u, s) + |s| == from && Find(u, e) == to && |s| <= from <= to <= |u|
    ensures ReplaceBetween(u, s, e, r) == Some(SpliceAt(u, from, to, r))
  {
  }

  /** A second splice keeps what the first one left behind its own end marker. */
  lemma SecondSplice(t: string, s: string, e: string, r1: string, r2: string)
    requires ProperMarkers(s, e) && ReplaceBetween(t, s, e, r1).Some?
    ensures var p, x, q := t[..Find(t, s) + |s|], "\n" + r1, t[Find(t, e)..];
            var c := Find(x + e, e);
            && 0 <= c <= |x|
            && ReplaceBetween(ReplaceBetween(t, s, e, r1).value, s, e, r2) == Some(p + ("\n" + r2) + (x[c..] + q))
  {
    var u := ReplaceBetween(t, s, e, r1).value;
    var p, x, q := t[..Find(t, s) + |s|], "\n" + r1, t[Find(t, e)..];
    MarkersApart(t, s, e);
    MarkersAfterSplice(t, s, e, r1);
    FindBeforeMarker(x, e, e);
    var c := Find(x + e, e);
    SpliceTwice(u, p, x, q, c, r2);
    ReplaceAt(u, s, e, |p|, |p| + c, r2);
  }

  /** A second splice erases all traces of the first one exactly when the first
      text was transparent; either way it finds its markers again. */
  lemma OverwriteOnly(t: string, s: string, e: string, r1: string, r2: string)
    requires ProperMarkers(s, e) && ReplaceBetween(t, s, e, r1).Some?
    ensures var u := ReplaceBetween(t, s, e, r1).value;
            && ReplaceBetween(u, s, e, r2).Some?
            && (ReplaceBetween(u, s, e, r2) == ReplaceBetween(t, s, e, r2) <==> Transparent(r1, e))
  {
    SecondSplice(t, s, e, r1, r2);
    var x := "\n" + r1;
    SameTail(t[..Find(t, s) + |s|], "\n" + r2, x[Find(x + e, e)..], t[Find(t, e)..]);
  }

  /** Regenerating the same text changes nothing: the drift check passes. */
  lemma RegenerationIsStable(t: string, s: string, e: string, r: string)
    requires ProperMarkers(s, e) && ReplaceBetween(t, s, e, r).Some? && Transparent(r, e)
    ensures ReplaceBetween(ReplaceBetween(t, s, e, r).value, s, e, r) == ReplaceBetween(t, s, e, r)
  {
    OverwriteOnly(t, s, e, r, r);
  }

  /** The text between the markers; None when they are missing. */
  function Extract(text: string, s: string, e: string): Option<string> {
    var start, end := Find(text, s), Find(text, e);
    if start < 0 || end < start + |s| then None else Some(text[start + |s|..end])
  }

  /** What was spliced in can be read back, and nothing outside the markers moves. */
  lemma SpliceThenExtract(t: string, s: string, e: string, r: string)
    requires ProperMarkers(s, e) && ReplaceBetween(t, s, e, r).Some? && Transparent(r, e)
    ensures var u := ReplaceBetween(t, s, e, r).value;
            && Extract(u, s, e) == Some("\n" + r)
            && u[..Find(u, s) + |s|] == t[..Find(t, s) + |s|] && u[Find(u, e)..] == t[Find(t, e)..]
  {
    MarkersApart(t, s, e);
    MarkersAfterSplice(t, s, e, r);
    var u := ReplaceBetween(t, s, e, r).value;
    var p, q := t[..Find(t, s) + |s|], t[Find(t, e)..];
    assert u == p + ("\n" + r) + q;
  }

  /** Text that ends its last line and does not hold the end marker is transparent. */
  lemma WholeLinesAreTransparent(r: string, e: string)
    requires e != "" && Without(e, '\n') && !Contains(r, e)
    requires r == "" || r[|r| - 1] == '\n'
    ensures Transparent(r, e)
  {
    var x := "\n" + r;
    FindBeforeMarker(x, e, e);
    var k := Find(x + e, e);
    if k < |x| {
      var body := x[..|x| - 1];
      assert x + e == body + ("\n" + e);
      StartsLike(x + e, e, k);
      assert (x + e)[|body|] == '\n' && (x + e)[0] == '\n';
      NoCrossing(body, e, e, k);
      OccursWithin(x + e, e, k, body);
      assert body == "\n" + r[..|r| - 1];
      OccursShift("\n", r[..|r| - 1], e, k);
      OccursInLonger(r[..|r| - 1], e, k - 1, r);
      assert false;
    }
  }

  // ---------- the markers of the script ----------

  const PY_START := "    # BEGIN GENERATED OPERATIONS"
  const PY_END := "    # END GENERATED OPERATIONS"
  const TS_START := "  // BEGIN GENERATED OPERATIONS"
  const TS_END := "  // END GENERATED OPERATIONS"

  lemma DifferAt(s: string, e: string, i: nat, j: nat)
    requires i + j < |s| && j < |e| && s[i + j] != e[j]
    ensures !Overlaps(s, e, i)
  {
    assert s[i..][j] == s[i + j];
  }

  /** Both pairs of markers that the script uses are proper. */
  lemma ScriptMarkersAreProper()
    ensures ProperMarkers(PY_START, PY_END) && ProperMarkers(TS_START, TS_END)
  {
    forall i | 0 <= i < |PY_START| ensures !Overlaps(PY_START, PY_END, i) {
      PyApart(i);
    }
    forall i | 0 <= i < |TS_START| ensures !Overlaps(TS_START, TS_END, i) {
      TsApart(i);
    }
  }

  lemma PyApart(i: nat)
    requires i < |PY_START|
    ensures !Overlaps(PY_START, PY_END, i)
  {
    if i == 0 {
      DifferAt(PY_START, PY_END, 0, 6);
    } else if i < 4 {
      DifferAt(PY_START, PY_END, i, 4 - i);
    } else if PY_START[i] == ' ' {
      DifferAt(PY_START, PY_END, i, 1);
    } else {
      DifferAt(PY_START, PY_END, i, 0);
    }
  }

  lemma TsApart(i: nat)
    requires i < |TS_START|
    ensures !Overlaps(TS_START, TS_END, i)
  {
    if i == 0 {
      DifferAt(TS_START, TS_END, 0, 5);
    } else if i == 1 {
      DifferAt(TS_START, TS_END, i, 1);
    } else if TS_START[i] == ' ' {
      DifferAt(TS_START, TS_END, i, 1);
    } else {
      DifferAt(TS_START, TS_END, i, 0);
    }
  }

  /** A fresh file between two proper markers can be spliced. */
  lemma MarkersOnly(s: string, e: string, r: string)
    requires ProperMarkers(s, e)
    ensures ReplaceBetween(s + ("\n" + e), s, e, r) == Some(s + ("\n" + r) + e)
  {
    var t := s + ("\n" + e);
    assert t[0..] == t && OccursAt(t, s, 0);
    FindIs(t, s, 0);
    forall i ensures !OccursAt(s, e, i) {
      if OccursAt(s, e, i) {
        assert i < |s| ==> Overlaps(s, e, i);
        assert false;
      }
    }
    assert "\n" + "" + e == "\n" + e;
    WholeLinesAreTransparent("", e);
    EndMoves(s, "", e, e);
    assert t == s + ("\n" + "" + e);
    assert t[..|s|] == s && t[|s| + 1..] == e;
  }

  /** With the end marker inside the generated text, a second generation leaves the
      rest of the first one behind. */
  lemma EndMarkerSurvives(s: string, e: string, r: string)
    requires ProperMarkers(s, e)
    ensures var once := ReplaceBetween(s + ("\n" + e), s, e, e);
            && once.Some? && !Transparent(e, e)
            && ReplaceBetween(once.value, s, e, r).Some?
            && ReplaceBetween(once.value, s, e, r) != ReplaceBetween(s + ("\n" + e), s, e, r)
  {
    MarkersOnly(s, e, e);
    assert ("\n" + e + e)[1..] == e + e && ("\n" + e + e)[0..] == "\n" + e + e;
    assert OccursAt("\n" + e + e, e, 1);
    FoundFirst("\n" + e + e, e);
    OverwriteOnly(s + ("\n" + e), s, e, e, r);
  }
}
