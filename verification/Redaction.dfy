/** Recursive redaction of audit payloads (app/core/privacy.py). */
module Redaction {
  import opened Text
  import opened Json
  import opened SensitiveKeys

  const REDACTED := Str("***")
  const MAX_DEPTH := 8

  /** The settings and the string masks, which the regular expressions define. */
  datatype Policy = Policy(
    maskPii: bool, email: string -> string, phone: string -> string, ip: string -> string, text: string -> string)

  const EMAIL_KEYS: set<string> := {"email", "username", "to", "from", "to_address", "from_address"}
  const PHONE_KEYS: set<string> := {"phone", "phone_number", "display_phone_number"}

  predicate IsPiiKey(key: string) {
    var k := Lower(Strip(key));
    k in EMAIL_KEYS || k in PHONE_KEYS || k == "ip"
  }

  function SanitizeText(p: Policy, s: string, hint: Option<string>): string {
    var key := Lower(if hint.Some? then hint.value else "");
    if p.maskPii && key in EMAIL_KEYS then p.email(s)
    else if p.maskPii && key in PHONE_KEYS then p.phone(s)
    else if p.maskPii && key == "ip" then p.ip(s)
    else if p.maskPii && IsPiiKey(key) && '@' in s then p.email(s)
    else p.text(s)
  }

  /** Values under this key hint, or this deep, are replaced whole. */
  predicate Hidden(hint: Option<string>, depth: nat) {
    depth > MAX_DEPTH || (hint.Some? && hint.value != "" && IsSensitive(hint.value))
  }

  /** `_sanitize_value`; lists and tuples are both `Arr`. */
  function Sanitize(p: Policy, v: Json, hint: Option<string>, depth: nat): Json
    decreases v, 1
  {
    if Hidden(hint, depth) then REDACTED
    else
      match v
      case Obj(fields) => Obj(SanitizeFields(p, fields, depth + 1))
      case Arr(items) => Arr(SanitizeItems(p, items, hint, depth + 1))
      case Str(s) => Str(SanitizeText(p, s, hint))
      case _ => v
  }

  function SanitizeFields(p: Policy, fields: seq<Field>, depth: nat): seq<Field>
    decreases fields, 0
  {
    if fields == [] then []
    else
      [Field(fields[0].key, Sanitize(p, fields[0].value, Some(fields[0].key), depth))] + SanitizeFields(p, fields[1..], depth)
  }

  function SanitizeItems(p: Policy, items: seq<Json>, hint: Option<string>, depth: nat): seq<Json>
    decreases items, 0
  {
    if items == [] then [] else [Sanitize(p, items[0], hint, depth)] + SanitizeItems(p, items[1..], hint, depth)
  }

  /** `sanitize_audit_payload` */
  function SanitizePayload(p: Policy, enabled: bool, payload: Option<seq<Field>>): seq<Field> {
    if payload == None || payload.value == [] then []
    else if !enabled then payload.value
    else
      var safe := Sanitize(p, Obj(payload.value), None, 0);
      if safe.Obj? then safe.fields else []
  }

  // ---------- non-interference ----------

  /** The values differ only where everything is replaced. */
  predicate SameVisible(a: Json, b: Json, hint: Option<string>, depth: nat)
    decreases a, 1
  {
    Hidden(hint, depth) ||
    match (a, b)
    case (Obj(f), Obj(g)) => SameVisibleFields(f, g, depth + 1)
    case (Arr(x), Arr(y)) => SameVisibleItems(x, y, hint, depth + 1)
    case (_, _) => a == b
  }

  predicate SameVisibleFields(f: seq<Field>, g: seq<Field>, depth: nat)
    decreases f, 0
  {
    |f| == |g| &&
    (f == [] ||
     (&& f[0].key == g[0].key && SameVisible(f[0].value, g[0].value, Some(f[0].key), depth)
      && SameVisibleFields(f[1..], g[1..], depth)))
  }

  predicate SameVisibleItems(x: seq<Json>, y: seq<Json>, hint: Option<string>, depth: nat)
    decreases x, 0
  {
    |x| == |y| && (x == [] || (SameVisible(x[0], y[0], hint, depth) && SameVisibleItems(x[1..], y[1..], hint, depth)))
  }

  /** Values that differ only in hidden places sanitize to the same output. */
  lemma {:induction false} SanitizeHides(p: Policy, a: Json, b: Json, hint: Option<string>, depth: nat)
    requires SameVisible(a, b, hint, depth)
    ensures Sanitize(p, a, hint, depth) == Sanitize(p, b, hint, depth)
    decreases a, 1
  {
    if !Hidden(hint, depth) {
      match (a, b)
      case (Obj(f), Obj(g)) => SanitizeHidesFields(p, f, g, depth + 1);
      case (Arr(x), Arr(y)) => SanitizeHidesItems(p, x, y, hint, depth + 1);
      case (_, _) =>
    }
  }

  lemma {:induction false} SanitizeHidesFields(p: Policy, f: seq<Field>, g: seq<Field>, depth: nat)
    requires SameVisibleFields(f, g, depth)
    ensures SanitizeFields(p, f, depth) == SanitizeFields(p, g, depth)
    decreases f, 0
  {
    if f != [] {
      SanitizeHides(p, f[0].value, g[0].value, Some(f[0].key), depth);
      SanitizeHidesFields(p, f[1..], g[1..], depth);
    }
  }

  lemma {:induction false} SanitizeHidesItems(p: Policy, x: seq<Json>, y: seq<Json>, hint: Option<string>, depth: nat)
    requires SameVisibleItems(x, y, hint, depth)
    ensures SanitizeItems(p, x, hint, depth) == SanitizeItems(p, y, hint, depth)
    decreases x, 0
  {
    if x != [] {
      SanitizeHides(p, x[0], y[0], hint, depth);
      SanitizeHidesItems(p, x[1..], y[1..], hint, depth);
    }
  }

  /** The persisted payloads are equal: secrets cannot be told apart. */
  lemma PayloadNonInterference(p: Policy, a: seq<Field>, b: seq<Field>)
    requires a != [] && b != [] && SameVisible(Obj(a), Obj(b), None, 0)
    ensures SanitizePayload(p, true, Some(a)) == SanitizePayload(p, true, Some(b))
  {
    SanitizeHides(p, Obj(a), Obj(b), None, 0);
  }

  // ---------- the same, for an edit at one place ----------

  /** A place in a document: indices from the outside in. */
  type Path = seq<nat>

  predicate IsPlace(v: Json, path: Path) {
    path == [] ||
    match v
    case Obj(fields) => path[0] < |fields| && IsPlace(fields[path[0]].value, path[1..])
    case Arr(items) => path[0] < |items| && IsPlace(items[path[0]], path[1..])
    case _ => false
  }

  /** The document with the value at one place exchanged. */
  function Edit(v: Json, path: Path, w: Json): Json
    requires IsPlace(v, path)
    decreases path
  {
    if path == [] then w
    else
      match v
      case Obj(fields) =>
        var x := fields[path[0]];
        Obj(fields[path[0] := Field(x.key, Edit(x.value, path[1..], w))])
      case Arr(items) => Arr(items[path[0] := Edit(items[path[0]], path[1..], w)])
  }

  /** The place lies under a sensitive key, or below the depth limit. */
  predicate UnderSecret(v: Json, path: Path)
    requires IsPlace(v, path)
    decreases path
  {
    path != [] &&
    match v
    case Obj(fields) =>
      var x := fields[path[0]];
      IsSensitive(x.key) || UnderSecret(x.value, path[1..])
    case Arr(items) => UnderSecret(items[path[0]], path[1..])
  }

  lemma {:induction false} SameVisibleRefl(v: Json, hint: Option<string>, depth: nat)
    ensures SameVisible(v, v, hint, depth)
    decreases v, 1
  {
    match v
    case Obj(fields) => SameFieldsRefl(fields, depth + 1);
    case Arr(items) => SameItemsRefl(items, hint, depth + 1);
    case _ =>
  }

  lemma {:induction false} SameFieldsRefl(f: seq<Field>, depth: nat)
    ensures SameVisibleFields(f, f, depth)
    decreases f, 0
  {
    if f != [] {
      SameVisibleRefl(f[0].value, Some(f[0].key), depth);
      SameFieldsRefl(f[1..], depth);
    }
  }

  lemma {:induction false} SameItemsRefl(x: seq<Json>, hint: Option<string>, depth: nat)
    ensures SameVisibleItems(x, x, hint, depth)
    decreases x, 0
  {
    if x != [] {
      SameVisibleRefl(x[0], hint, depth);
      SameItemsRefl(x[1..], hint, depth);
    }
  }

  lemma {:induction false} SameFieldsUpdate(f: seq<Field>, i: nat, w: Json, depth: nat)
    requires i < |f| && SameVisible(f[i].value, w, Some(f[i].key), depth)
    ensures SameVisibleFields(f, f[i := Field(f[i].key, w)], depth)
    decreases |f|
  {
    var g := f[i := Field(f[i].key, w)];
    if i == 0 {
      assert g[1..] == f[1..];
      SameFieldsRefl(f[1..], depth);
    } else {
      assert g[1..] == f[1..][i - 1 := Field(f[i].key, w)];
      SameVisibleRefl(f[0].value, Some(f[0].key), depth);
      SameFieldsUpdate(f[1..], i - 1, w, depth);
    }
  }

  lemma {:induction false} SameItemsUpdate(x: seq<Json>, i: nat, w: Json, hint: Option<string>, depth: nat)
    requires i < |x| && SameVisible(x[i], w, hint, depth)
    ensures SameVisibleItems(x, x[i := w], hint, depth)
    decreases |x|
  {
    var y := x[i := w];
    if i == 0 {
      assert y[1..] == x[1..];
      SameItemsRefl(x[1..], hint, depth);
    } else {
      assert y[1..] == x[1..][i - 1 := w];
      SameVisibleRefl(x[0], hint, depth);
      SameItemsUpdate(x[1..], i - 1, w, hint, depth);
    }
  }

  lemma {:induction false} HiddenEdit(v: Json, path: Path, w: Json, hint: Option<string>, depth: nat)
    requires IsPlace(v, path)
    requires Hidden(hint, depth) || UnderSecret(v, path) || depth + |path| > MAX_DEPTH
    ensures SameVisible(v, Edit(v, path, w), hint, depth)
    decreases path
  {
    if !Hidden(hint, depth) {
      match v
      case Obj(fields) =>
        var x := fields[path[0]];
        HiddenEdit(x.value, path[1..], w, Some(x.key), depth + 1);
        SameFieldsUpdate(fields, path[0], Edit(x.value, path[1..], w), depth + 1);
      case Arr(items) =>
        HiddenEdit(items[path[0]], path[1..], w, hint, depth + 1);
        SameItemsUpdate(items, path[0], Edit(items[path[0]], path[1..], w), hint, depth + 1);
    }
  }

  /** Whatever stands under a sensitive key, or more than eight levels down, can be
      exchanged for anything without a trace in the output. */
  lemma EditsUnderSecretsAreInvisible(p: Policy, payload: seq<Field>, path: Path, w: Json)
    requires IsPlace(Obj(payload), path)
    requires UnderSecret(Obj(payload), path) || |path| > MAX_DEPTH
    ensures Sanitize(p, Edit(Obj(payload), path, w), None, 0) == Sanitize(p, Obj(payload), None, 0)
  {
    HiddenEdit(Obj(payload), path, w, None, 0);
    SanitizeHides(p, Obj(payload), Edit(Obj(payload), path, w), None, 0);
  }

  // ---------- no secret survives ----------

  /** Every value under a sensitive key, at any depth, is the redaction mark. */
  predicate NoSecrets(v: Json)
    decreases v, 1
  {
    match v
    case Obj(fields) => NoSecretFields(fields)
    case Arr(items) => NoSecretItems(items)
    case _ => true
  }

  predicate NoSecretFields(fields: seq<Field>)
    decreases fields, 0
  {
    fields == [] ||
    (&& (IsSensitive(fields[0].key) ==> fields[0].value == REDACTED)
     && NoSecrets(fields[0].value) && NoSecretFields(fields[1..]))
  }

  predicate NoSecretItems(items: seq<Json>)
    decreases items, 0
  {
    items == [] || (NoSecrets(items[0]) && NoSecretItems(items[1..]))
  }

  lemma {:induction false} SanitizedHoldsNoSecrets(p: Policy, v: Json, hint: Option<string>, depth: nat)
    ensures NoSecrets(Sanitize(p, v, hint, depth))
    decreases v, 1
  {
    if !Hidden(hint, depth) {
      match v
      case Obj(fields) => SanitizedFieldsHoldNoSecrets(p, fields, depth + 1);
      case Arr(items) => SanitizedItemsHoldNoSecrets(p, items, hint, depth + 1);
      case _ =>
    }
  }

  lemma {:induction false} SanitizedFieldsHoldNoSecrets(p: Policy, fields: seq<Field>, depth: nat)
    ensures NoSecretFields(SanitizeFields(p, fields, depth))
    decreases fields, 0
  {
    if fields != [] {
      SanitizedHoldsNoSecrets(p, fields[0].value, Some(fields[0].key), depth);
      SanitizedFieldsHoldNoSecrets(p, fields[1..], depth);
      EmptyKeyIsPlain(fields[0].key);
    }
  }

  lemma EmptyKeyIsPlain(key: string)
    ensures key == "" ==> !IsSensitive(key)
  {
  }

  lemma {:induction false} SanitizedItemsHoldNoSecrets(p: Policy, items: seq<Json>, hint: Option<string>, depth: nat)
    ensures NoSecretItems(SanitizeItems(p, items, hint, depth))
    decreases items, 0
  {
    if items != [] {
      SanitizedHoldsNoSecrets(p, items[0], hint, depth);
      SanitizedItemsHoldNoSecrets(p, items[1..], hint, depth);
    }
  }

  // ---------- what survives ----------

  function At(v: Json, path: Path): Json
    requires IsPlace(v, path)
    decreases path
  {
    if path == [] then v
    else
      match v
      case Obj(fields) => At(fields[path[0]].value, path[1..])
      case Arr(items) => At(items[path[0]], path[1..])
  }

  /** The key of the innermost object around a place, through any lists. */
  function KeyAround(v: Json, path: Path, hint: Option<string>): Option<string>
    requires IsPlace(v, path)
    decreases path
  {
    if path == [] then hint
    else
      match v
      case Obj(fields) => KeyAround(fields[path[0]].value, path[1..], Some(fields[path[0]].key))
      case Arr(items) => KeyAround(items[path[0]], path[1..], hint)
  }

  /** Numbers, booleans and null stay as they are, objects keep their keys and lists
      their length, and a text is masked as its key demands. */
  predicate SurvivesAs(p: Policy, before: Json, after: Json, key: Option<string>) {
    match before
    case Str(s) => after == Str(SanitizeText(p, s, key))
    case Obj(f) => after.Obj? && |after.fields| == |f| && forall i :: 0 <= i < |f| ==> after.fields[i].key == f[i].key
    case Arr(x) => after.Arr? && |after.items| == |x|
    case _ => after == before
  }

  lemma {:induction false} SanitizedFields(p: Policy, f: seq<Field>, depth: nat)
    ensures var g := SanitizeFields(p, f, depth);
            && |g| == |f|
            && forall i :: 0 <= i < |f| ==> g[i] == Field(f[i].key, Sanitize(p, f[i].value, Some(f[i].key), depth))
  {
    if f != [] {
      SanitizedFields(p, f[1..], depth);
      var g, rest := SanitizeFields(p, f, depth), SanitizeFields(p, f[1..], depth);
      assert |g| == |rest| + 1 && g[0].key == f[0].key;
      forall i | 1 <= i < |f| ensures g[i] == Field(f[i].key, Sanitize(p, f[i].value, Some(f[i].key), depth)) {
        assert g[i] == rest[i - 1] && f[i] == f[1..][i - 1];
      }
    }
  }

  lemma {:induction false} SanitizedItems(p: Policy, x: seq<Json>, hint: Option<string>, depth: nat)
    ensures var y := SanitizeItems(p, x, hint, depth);
            |y| == |x| && forall i :: 0 <= i < |x| ==> y[i] == Sanitize(p, x[i], hint, depth)
  {
    if x != [] {
      SanitizedItems(p, x[1..], hint, depth);
    }
  }

  lemma SurvivesHere(p: Policy, v: Json, hint: Option<string>, depth: nat)
    requires !Hidden(hint, depth)
    ensures SurvivesAs(p, v, Sanitize(p, v, hint, depth), hint)
  {
    match v
    case Obj(fields) => SanitizedFields(p, fields, depth + 1);
    case Arr(items) => SanitizedItems(p, items, hint, depth + 1);
    case _ =>
  }

  lemma {:induction false} VisibleSurvives(p: Policy, v: Json, path: Path, hint: Option<string>, depth: nat)
    requires IsPlace(v, path) && !Hidden(hint, depth) && !UnderSecret(v, path) && depth + |path| <= MAX_DEPTH
    ensures var after := Sanitize(p, v, hint, depth);
            IsPlace(after, path) && SurvivesAs(p, At(v, path), At(after, path), KeyAround(v, path, hint))
    decreases path
  {
    if path == [] {
      SurvivesHere(p, v, hint, depth);
    } else {
      match v
      case Obj(fields) =>
        SanitizedFields(p, fields, depth + 1);
        VisibleSurvives(p, fields[path[0]].value, path[1..], Some(fields[path[0]].key), depth + 1);
      case Arr(items) =>
        SanitizedItems(p, items, hint, depth + 1);
        VisibleSurvives(p, items[path[0]], path[1..], hint, depth + 1);
    }
  }

  /** Every place of a payload that is neither under a sensitive key nor more than
      eight levels down survives in the persisted payload, at the same place. */
  lemma VisiblePlacesSurvive(p: Policy, payload: seq<Field>, path: Path)
    requires payload != [] && IsPlace(Obj(payload), path)
    requires !UnderSecret(Obj(payload), path) && |path| <= MAX_DEPTH
    ensures var after := Obj(SanitizePayload(p, true, Some(payload)));
            && IsPlace(after, path)
            && SurvivesAs(p, At(Obj(payload), path), At(after, path), KeyAround(Obj(payload), path, None))
  {
    VisibleSurvives(p, Obj(payload), path, None, 0);
  }

  /** A missing payload counts as an empty one, and without redaction it is persisted
      as it came; with it, the document as a whole is sanitized. */
  lemma PayloadSwitches(p: Policy, payload: seq<Field>, enabled: bool)
    ensures SanitizePayload(p, enabled, None) == SanitizePayload(p, enabled, Some([])) == []
    ensures SanitizePayload(p, false, Some(payload)) == payload
    ensures payload != [] ==> Sanitize(p, Obj(payload), None, 0) == Obj(SanitizePayload(p, true, Some(payload)))
  {
  }

  lemma PiiKeysHaveNoBlanks(key: string)
    requires key in EMAIL_KEYS || key in PHONE_KEYS || key == "ip"
    ensures Solid(key)
  {
  }

  lemma LowerOfPadded(w: string, h: string, v: string)
    requires Blank(w) && Blank(v) && w + v != ""
    ensures !Solid(Lower(w + (h + v)))
  {
    var s := w + (h + v);
    if w != "" {
      assert s[0] == w[0];
    } else {
      assert s[|s| - 1] == v[|v| - 1];
    }
  }

  lemma MaskOfLower(p: Policy, s: string, key: string, low: string, k: string)
    requires Lower(key) == low && Lower(Strip(low)) == k
    ensures low == k ==>
              SanitizeText(p, s, Some(key)) ==
              if !p.maskPii then p.text(s)
              else if k in EMAIL_KEYS then p.email(s)
              else if k in PHONE_KEYS then p.phone(s)
              else if k == "ip" then p.ip(s)
              else p.text(s)
    ensures !Solid(low) ==>
              SanitizeText(p, s, Some(key)) ==
              if p.maskPii && (k in EMAIL_KEYS || k in PHONE_KEYS || k == "ip") && '@' in s then p.email(s) else p.text(s)
  {
    if low in EMAIL_KEYS || low in PHONE_KEYS || low == "ip" {
      PiiKeysHaveNoBlanks(low);
    }
    assert IsPiiKey(low) <==> k in EMAIL_KEYS || k in PHONE_KEYS || k == "ip";
  }

  /** How a key, whatever its case and the white space around it, decides about the
      mask of a text: a padded key does so only for what looks like an address. */
  lemma MaskByKey(p: Policy, s: string, w: string, h: string, v: string, k: string)
    requires Blank(w) && Blank(v) && IsCaseOf(h, k) && Solid(k)
    ensures var masked := SanitizeText(p, s, Some(w + (h + v)));
            if !p.maskPii then masked == p.text(s)
            else if w + v == "" then
              masked == if k in EMAIL_KEYS then p.email(s) else if k in PHONE_KEYS then p.phone(s)
                        else if k == "ip" then p.ip(s) else p.text(s)
            else
              masked == if (k in EMAIL_KEYS || k in PHONE_KEYS || k == "ip") && '@' in s then p.email(s) else p.text(s)
  {
    var key := w + (h + v);
    PaddedLower(w, h, v, k);
    MaskOfLower(p, s, key, Lower(key), k);
    if w + v == "" {
      assert key == h;
      LowerOfCase(h, k);
    } else {
      LowerOfPadded(w, h, v);
    }
  }

  lemma PaddedLower(w: string, h: string, v: string, k: string)
    requires Blank(w) && Blank(v) && IsCaseOf(h, k) && Solid(k)
    ensures Lower(Strip(Lower(w + (h + v)))) == k
  {
    LowerOfCase(h, k);
    LowerOfCase(k, k);
    assert Lower(w + (h + v)) == Lower(w) + (k + Lower(v));
    StripAround(Lower(w), k, Lower(v));
  }

  /** Without a key around it a text is masked as free text. */
  lemma MaskWithoutKey(p: Policy, s: string)
    ensures SanitizeText(p, s, None) == p.text(s)
  {
    assert Lower("") == "" && Strip("") == "";
  }
}
