/** Encryption of the secret fields of an integration config (app/core/token_crypto.py). */
module TokenConfig {
  import opened Text

  /** Fernet under the active key: encryption draws a fresh random number, and
      decryption fails on anything that is not a ciphertext of this key. `secret`
      tells the fields to protect, which is SensitiveKeys.IsSensitive in use. */
  datatype Fernet = Fernet(enc: (string, nat) -> string, dec: string -> Option<string>, secret: string -> bool)

  const SHAPE := "gAAAA"

  predicate LooksEncrypted(s: string) { SHAPE <= s }

  ghost predicate Lawful(f: Fernet) {
    forall p, r :: Opens(f, p, r)
  }

  ghost predicate Opens(f: Fernet, p: string, r: nat) {
    f.dec(f.enc(p, r)) == Some(p) && LooksEncrypted(f.enc(p, r))
  }

  /** A config value: a string, the list of field names that the diagnostic field
      holds, or anything else with its `str()` and its truth value. */
  datatype Value = Str(s: string) | Names(names: seq<string>) | Other(shown: string, truthy: bool)

  type Config = map<string, Value>

  /** The diagnostic field. */
  const DIAGNOSTIC := "__invalid_token_fields"

  predicate Truthy(v: Value) {
    match v
    case Str(s) => s != ""
    case Names(ns) => ns != []
    case Other(_, t) => t
  }

  function Shown(v: Value): string {
    match v
    case Str(s) => s
    case Names(ns) => "['" + Join(ns, ' ') + "']"
    case Other(shown, _) => shown
  }

  // ---------- one value ----------

  /** What is encrypted for a string: an accidental ciphertext is opened first. */
  function Normal(f: Fernet, s: string): string {
    if LooksEncrypted(s) && f.dec(s).Some? then f.dec(s).value else s
  }

  function EncryptValue(f: Fernet, v: Value, r: nat): Value {
    if v.Str? && v.s != "" then Str(f.enc(Normal(f, v.s), r)) else v
  }

  predicate Invalid(f: Fernet, v: Value) {
    v.Str? && v.s != "" && f.dec(v.s) == None && LooksEncrypted(v.s)
  }

  function DecryptValue(f: Fernet, v: Value): Value {
    if !Truthy(v) then v
    else if f.dec(Shown(v)).Some? then Str(f.dec(Shown(v)).value)
    else if Invalid(f, v) then Str("")
    else v
  }

  // ---------- a whole config ----------

  function EncryptFields(f: Fernet, c: Config, rand: string -> nat): Config {
    map k | k in c :: if f.secret(k) then EncryptValue(f, c[k], rand(k)) else c[k]
  }

  function Encrypt(f: Fernet, c: Config, rand: string -> nat): Config {
    EncryptFields(f, c - {DIAGNOSTIC}, rand)
  }

  function DecryptFields(f: Fernet, c: Config): Config {
    map k | k in c :: if f.secret(k) then DecryptValue(f, c[k]) else c[k]
  }

  predicate InvalidField(f: Fernet, c: Config, k: string) { k in c && f.secret(k) && Invalid(f, c[k]) }

  /** The names of the invalid fields, in the order of the dictionary. */
  function InvalidNames(f: Fernet, c: Config, order: seq<string>): seq<string> {
    if order == [] then []
    else
      InvalidNames(f, c, order[..|order| - 1])
      + if InvalidField(f, c, order[|order| - 1]) then [order[|order| - 1]] else []
  }

  function Decrypt(f: Fernet, c: Config, order: seq<string>): Config {
    var names := InvalidNames(f, c, order);
    if names == [] then DecryptFields(f, c) else DecryptFields(f, c)[DIAGNOSTIC := Names(names)]
  }

  ghost predicate IsOrder(c: Config, order: seq<string>) {
    && (forall k :: k in order <==> k in c)
    && forall i, j :: 0 <= i < j < |order| ==> order[i] != order[j]
  }

  lemma {:induction false} InvalidNamesMembers(f: Fernet, c: Config, order: seq<string>)
    ensures forall k :: k in InvalidNames(f, c, order) <==> k in order && InvalidField(f, c, k)
    ensures (forall k :: !InvalidField(f, c, k)) ==> InvalidNames(f, c, order) == []
  {
    if order != [] {
      InvalidNamesMembers(f, c, order[..|order| - 1]);
      assert order == order[..|order| - 1] + [order[|order| - 1]];
    }
  }

  /** What the stored field w must be for the field v: a non-empty string of a secret
      field is a ciphertext of that string, or of its plaintext when it was a ciphertext
      of this key already; everything else is stored as it is. */
  ghost predicate StoredField(f: Fernet, k: string, v: Value, w: Value) {
    if f.secret(k) && v.Str? && v.s != "" then
      && w.Str? && LooksEncrypted(w.s)
      && f.dec(w.s) == (if LooksEncrypted(v.s) && f.dec(v.s).Some? then f.dec(v.s) else Some(v.s))
    else w == v
  }

  /** Under a lawful cipher no secret is stored in the clear. */
  lemma SecretsAreStored(f: Fernet, c: Config, rand: string -> nat)
    requires Lawful(f)
    ensures Encrypt(f, c, rand).Keys == c.Keys - {DIAGNOSTIC}
    ensures forall k :: k in Encrypt(f, c, rand) ==> k in c && StoredField(f, k, c[k], Encrypt(f, c, rand)[k])
  {
    forall k | k in Encrypt(f, c, rand) ensures k in c && StoredField(f, k, c[k], Encrypt(f, c, rand)[k]) {
      if c[k].Str? {
        assert Opens(f, Normal(f, c[k].s), rand(k));
      }
    }
  }

  /** A plain token is never stored as it is. */
  lemma PlainTokenIsHidden(f: Fernet, field: string, token: string, rand: string -> nat)
    requires Lawful(f) && f.secret(field) && field != DIAGNOSTIC && token != "" && f.dec(token) == None
    ensures var e := Encrypt(f, map[field := Str(token)], rand);
            field in e && e[field] != Str(token) && e[field].Str? && f.dec(e[field].s) == Some(token)
  {
    var c := map[field := Str(token)];
    SecretsAreStored(f, c, rand);
    assert field in Encrypt(f, c, rand);
    assert StoredField(f, field, c[field], Encrypt(f, c, rand)[field]);
  }

  /** What the field w must be when v is read: what a secret field decrypts to; nothing,
      and a report, when it is a ciphertext that does not decrypt; itself otherwise. */
  predicate ReadField(f: Fernet, k: string, v: Value, w: Value, reported: bool) {
    if f.secret(k) && Truthy(v) && f.dec(Shown(v)).Some? then w.Str? && Some(w.s) == f.dec(Shown(v)) && !reported
    else if f.secret(k) && v.Str? && LooksEncrypted(v.s) then w == Str("") && reported
    else w == v && !reported
  }

  /** A damaged ciphertext is cleared and reported, in the order of the dictionary; the
      diagnostic field is written exactly when there is one. */
  lemma {:induction false} ReadIsExact(f: Fernet, c: Config, order: seq<string>)
    requires IsOrder(c, order)
    ensures var names := InvalidNames(f, c, order);
            && (forall k :: k in c ==> ReadField(f, k, c[k], DecryptFields(f, c)[k], k in names))
            && (forall k :: k in names ==> k in c)
            && Decrypt(f, c, order) == if names == [] then DecryptFields(f, c) else DecryptFields(f, c)[DIAGNOSTIC := Names(names)]
  {
    InvalidNamesMembers(f, c, order);
  }

  /** One field of `encrypt_config`. */
  method EncryptOne(f: Fernet, v: Value, r: nat) returns (w: Value)
    ensures w == EncryptValue(f, v, r)
  {
    if !v.Str? || v.s == "" {
      return v;
    }
    var plain := v.s;
    if LooksEncrypted(plain) {
      var clear := f.dec(plain);
      if clear.Some? {
        plain := clear.value;
      }
    }
    w := Str(f.enc(plain, r));
  }

  /** The config with the listed fields encrypted. */
  function EncryptedAt(f: Fernet, c: Config, rand: string -> nat, done: set<string>): Config {
    map k | k in c :: if k in done && f.secret(k) then EncryptValue(f, c[k], rand(k)) else c[k]
  }

  lemma EncryptedStep(f: Fernet, c: Config, rand: string -> nat, done: set<string>, k: string)
    requires k !in done
    ensures var before, after := EncryptedAt(f, c, rand, done), EncryptedAt(f, c, rand, done + {k});
            if k in c && f.secret(k) then before[k] == c[k] && after == before[k := EncryptValue(f, c[k], rand(k))]
            else after == before
  {
  }

  /** `encrypt_config`, field by field in dictionary order. */
  method EncryptConfig(f: Fernet, c: Config, order: seq<string>, rand: string -> nat) returns (result: Config)
    requires IsOrder(c, order)
    ensures result == Encrypt(f, c, rand)
    ensures result.Keys == c.Keys - {DIAGNOSTIC}
    ensures Lawful(f) ==> forall k :: k in result ==> k in c && StoredField(f, k, c[k], result[k])
  {
    var start := c - {DIAGNOSTIC};
    result := start;
    ghost var done: set<string> := {};
    for i := 0 to |order|
      invariant result == EncryptedAt(f, start, rand, done)
      invariant forall k :: k in done <==> k in order[..i]
    {
      var field := order[i];
      OrderStep(c, order, i, done);
      EncryptedStep(f, start, rand, done, field);
      if field in result && f.secret(field) {
        var w := EncryptOne(f, result[field], rand(field));
        result := result[field := w];
      }
      done := done + {field};
    }
    assert order[..|order|] == order;
    assert result == EncryptFields(f, start, rand);
    if Lawful(f) {
      SecretsAreStored(f, c, rand);
    }
  }

  /** One field of `decrypt_config`. */
  method DecryptOne(f: Fernet, v: Value) returns (w: Value, invalid: bool)
    ensures w == DecryptValue(f, v) && invalid == Invalid(f, v)
  {
    w, invalid := v, false;
    if Truthy(v) {
      var clear := f.dec(Shown(v));
      if clear.Some? {
        w := Str(clear.value);
      } else if v.Str? && LooksEncrypted(v.s) {
        w, invalid := Str(""), true;
      }
    }
  }

  function DecryptedAt(f: Fernet, c: Config, done: set<string>): Config {
    map k | k in c :: if k in done && f.secret(k) then DecryptValue(f, c[k]) else c[k]
  }

  lemma DecryptedStep(f: Fernet, c: Config, done: set<string>, k: string)
    requires k !in done && k in c
    ensures var before, after := DecryptedAt(f, c, done), DecryptedAt(f, c, done + {k});
            && before[k] == c[k]
            && after == if f.secret(k) then before[k := DecryptValue(f, c[k])] else before
  {
  }

  lemma InvalidNamesStep(f: Fernet, c: Config, order: seq<string>, i: nat)
    requires i < |order|
    ensures InvalidNames(f, c, order[..i + 1]) ==
            InvalidNames(f, c, order[..i]) + if InvalidField(f, c, order[i]) then [order[i]] else []
  {
    assert order[..i + 1][..i] == order[..i];
  }

  /** The first i names of a dictionary order, and the next one. */
  lemma OrderStep(c: Config, order: seq<string>, i: nat, done: set<string>)
    requires IsOrder(c, order) && i < |order| && forall k :: k in done <==> k in order[..i]
    ensures order[i] in c && order[i] !in done
    ensures forall k :: k in done + {order[i]} <==> k in order[..i + 1]
  {
  }

  /** `decrypt_config`, field by field in dictionary order. */
  method DecryptConfig(f: Fernet, c: Config, order: seq<string>) returns (result: Config)
    requires IsOrder(c, order)
    ensures result == Decrypt(f, c, order)
    ensures forall k :: k in c && k != DIAGNOSTIC ==>
              k in result && ReadField(f, k, c[k], result[k], k in InvalidNames(f, c, order))
  {
    result := c;
    var names: seq<string> := [];
    ghost var done: set<string> := {};
    for i := 0 to |order|
      invariant result == DecryptedAt(f, c, done)
      invariant names == InvalidNames(f, c, order[..i])
      invariant forall k :: k in done <==> k in order[..i]
    {
      var field := order[i];
      OrderStep(c, order, i, done);
      DecryptedStep(f, c, done, field);
      InvalidNamesStep(f, c, order, i);
      if f.secret(field) {
        var w, invalid := DecryptOne(f, result[field]);
        result := result[field := w];
        if invalid {
          names := names + [field];
        }
      }
      done := done + {field};
    }
    assert order[..|order|] == order;
    assert result == DecryptFields(f, c);
    ReadIsExact(f, c, order);
    if names != [] {
      result := result[DIAGNOSTIC := Names(names)];
    }
  }

  // ---------- round trips ----------

  /** The value survives encryption and decryption: a string must not be a
      ciphertext of something else, and anything else must not decrypt. */
  predicate StableValue(f: Fernet, v: Value) {
    if v.Str? then Normal(f, v.s) == v.s || v.s == ""
    else !Truthy(v) || f.dec(Shown(v)) == None
  }

  predicate Stable(f: Fernet, c: Config) {
    forall k :: k in c && k != DIAGNOSTIC && f.secret(k) ==> StableValue(f, c[k])
  }

  lemma ValueRoundTrip(f: Fernet, v: Value, r: nat)
    requires Lawful(f)
    ensures DecryptValue(f, EncryptValue(f, v, r)) == v <==> StableValue(f, v)
    ensures !Invalid(f, EncryptValue(f, v, r))
  {
    if v.Str? && v.s != "" {
      assert Opens(f, Normal(f, v.s), r);
    }
  }

  /** Nothing that was just encrypted is reported as invalid. */
  lemma NoneInvalid(f: Fernet, c: Config, rand: string -> nat, order: seq<string>)
    requires Lawful(f)
    ensures InvalidNames(f, Encrypt(f, c, rand), order) == []
  {
    var e := Encrypt(f, c, rand);
    InvalidNamesMembers(f, e, order);
    forall k ensures !InvalidField(f, e, k) {
      if InvalidField(f, e, k) {
        ValueRoundTrip(f, c[k], rand(k));
        assert false;
      }
    }
  }

  /** Decrypting what was encrypted gives the config without its diagnostic field,
      exactly when every secret value is stable. */
  lemma ConfigRoundTrip(f: Fernet, c: Config, rand: string -> nat, order: seq<string>)
    requires Lawful(f)
    ensures Decrypt(f, Encrypt(f, c, rand), order) == c - {DIAGNOSTIC} <==> Stable(f, c)
  {
    var e := Encrypt(f, c, rand);
    NoneInvalid(f, c, rand, order);
    var d := DecryptFields(f, e);
    assert d.Keys == e.Keys == (c - {DIAGNOSTIC}).Keys;
    forall k | k in d ensures d[k] == (if f.secret(k) then DecryptValue(f, EncryptValue(f, c[k], rand(k))) else c[k])
                      && (d[k] == c[k] <==> !f.secret(k) || StableValue(f, c[k])) {
      ValueRoundTrip(f, c[k], rand(k));
    }
    if d == c - {DIAGNOSTIC} {
      forall k | k in c && k != DIAGNOSTIC && f.secret(k) ensures StableValue(f, c[k]) {
        assert k in d && d[k] == (c - {DIAGNOSTIC})[k];
      }
    }
  }

  /** A secret that is itself a ciphertext of this key comes back opened: here the
      round trip fails. */
  lemma CiphertextIsOpened(f: Fernet, field: string, p: string, r: nat, rand: string -> nat)
    requires Lawful(f) && f.secret(field) && field != DIAGNOSTIC && f.enc(p, r) != p
    ensures var c := map[field := Str(f.enc(p, r))];
            && !Stable(f, c)
            && Decrypt(f, Encrypt(f, c, rand), [field]) == map[field := Str(p)] != c
  {
    var c := map[field := Str(f.enc(p, r))];
    assert Opens(f, p, r) && Opens(f, p, rand(field));
    assert f.enc(p, r) != "" && Normal(f, f.enc(p, r)) == p;
    NoneInvalid(f, c, rand, [field]);
    assert c - {DIAGNOSTIC} == c;
    var e := Encrypt(f, c, rand);
    assert e == map[field := Str(f.enc(p, rand(field)))];
    assert DecryptFields(f, e) == map[field := Str(p)];
    assert c[field] != Str(p);
  }

  /** A plain, undamaged config is stable. */
  lemma PlainIsStable(f: Fernet, c: Config)
    requires forall k :: k in c && f.secret(k) ==>
               if c[k].Str? then !LooksEncrypted(c[k].s) else f.dec(Shown(c[k])) == None
    ensures Stable(f, c)
  {
  }

  /** Encrypting twice is read back like encrypting once: values are normalised,
      never encrypted on top of one another. */
  lemma EncryptingTwiceIsHarmless(f: Fernet, c: Config, rand: string -> nat, again: string -> nat, order: seq<string>)
    requires Lawful(f)
    ensures Decrypt(f, Encrypt(f, Encrypt(f, c, rand), again), order) == Decrypt(f, Encrypt(f, c, rand), order)
  {
    var e := Encrypt(f, c, rand);
    var e2 := Encrypt(f, e, again);
    NoneInvalid(f, c, rand, order);
    NoneInvalid(f, e, again, order);
    assert e - {DIAGNOSTIC} == e;
    forall k | k in e ensures DecryptFields(f, e2)[k] == DecryptFields(f, e)[k] {
      if f.secret(k) && c[k].Str? && c[k].s != "" {
        var plain := Normal(f, c[k].s);
        assert Opens(f, plain, rand(k)) && Opens(f, plain, again(k));
        assert e[k] == Str(f.enc(plain, rand(k)));
        assert f.enc(plain, rand(k)) != "" && Normal(f, f.enc(plain, rand(k))) == plain;
      }
    }
    assert DecryptFields(f, e2) == DecryptFields(f, e);
  }

  // ---------- the data migration ----------

  function Migrate(f: Fernet, c: Config, order: seq<string>, rand: string -> nat): Config {
    Encrypt(f, Decrypt(f, c, order), rand)
  }

  /** One run of the migration keeps what a stored config decrypts to, apart from
      the diagnostic field, exactly when no decrypted secret is itself unstable;
      and then a second run changes nothing either. */
  lemma MigrationMayRunTwice(f: Fernet, c: Config, order: seq<string>, rand: string -> nat,
                             order2: seq<string>, again: string -> nat, order3: seq<string>)
    requires Lawful(f)
    ensures var once := Migrate(f, c, order, rand);
            var twice := Migrate(f, once, order2, again);
            && (Decrypt(f, once, order2) == Decrypt(f, c, order) - {DIAGNOSTIC} <==> Stable(f, Decrypt(f, c, order)))
            && (Stable(f, Decrypt(f, c, order)) ==>
                  Decrypt(f, twice, order3) == Decrypt(f, once, order2) == Decrypt(f, c, order) - {DIAGNOSTIC})
  {
    var x := Decrypt(f, c, order);
    ConfigRoundTrip(f, x, rand, order2);
    if Stable(f, x) {
      var y := x - {DIAGNOSTIC};
      assert Stable(f, y);
      ConfigRoundTrip(f, y, again, order3);
      assert y - {DIAGNOSTIC} == y;
    }
  }
}
