/** What the printed types mean (scripts/generate_sdk_models.py): they let through
    every value that the schema admits, and for plain schemas no other. */
module SchemaTypes {
  import opened Text
  import opened Json
  import opened SchemaClosure

  /** Which values the schema of a name admits. */
  type NamedAdmits = (string, Json) -> bool

  // ---------- schemas ----------

  predicate IsKind(kind: string, v: Json) {
    if kind == "string" then v.Str?
    else if kind == "integer" || kind == "number" then v.Num?
    else if kind == "boolean" then v.Bool?
    else if kind == "null" then v.Null?
    else if kind == "array" then v.Arr?
    else if kind == "object" then v.Obj?
    else true
  }

  predicate Declared(fields: seq<Field>, key: string) {
    var props := Get(fields, "properties");
    props.Some? && props.value.Obj? && Get(props.value.fields, key).Some?
  }

  /** The value meets every keyword of the schema that decides about types; `true`
      and `false` are schemas, too. */
  predicate Admits(named: NamedAdmits, schema: Json, v: Json)
    decreases schema, 1
  {
    if !schema.Obj? then schema != Bool(false)
    else
      var f := schema.fields;
      && (Get(f, "$ref").Some? ==> named(RefName(Get(f, "$ref").value), v))
      && (IsListAt(f, "enum") ==> v in Get(f, "enum").value.items)
      && (Get(f, "type").Some? && Get(f, "type").value.Str? ==> IsKind(Get(f, "type").value.s, v))
      && AdmitsElements(named, f, v) && AdmitsRest(named, f, v)
      && AdmitsChoices(named, f, v)
  }

  predicate IsListAt(f: seq<Field>, key: string) { Get(f, key).Some? && Get(f, key).value.Arr? }

  predicate IsObjectAt(f: seq<Field>, key: string) { Get(f, key).Some? && Get(f, key).value.Obj? }

  predicate AdmitsElements(named: NamedAdmits, f: seq<Field>, v: Json)
    decreases Obj(f), 0
  {
    v.Arr? && Get(f, "items").Some? ==>
      (GetIsSmaller(f, "items");
       forall i :: 0 <= i < |v.items| ==> Admits(named, Get(f, "items").value, v.items[i]))
  }

  predicate AdmitsRest(named: NamedAdmits, f: seq<Field>, v: Json)
    decreases Obj(f), 0
  {
    v.Obj? && Get(f, "additionalProperties").Some? ==>
      (GetIsSmaller(f, "additionalProperties");
       forall i :: 0 <= i < |v.fields| && !Declared(f, v.fields[i].key) ==>
         Admits(named, Get(f, "additionalProperties").value, v.fields[i].value))
  }

  predicate AdmitsChoices(named: NamedAdmits, f: seq<Field>, v: Json)
    decreases Obj(f), 0
  {
    && (IsListAt(f, "anyOf") ==> (GetIsSmaller(f, "anyOf"); Admitting(named, Get(f, "anyOf").value.items, v) >= 1))
    && (IsListAt(f, "oneOf") ==> (GetIsSmaller(f, "oneOf"); Admitting(named, Get(f, "oneOf").value.items, v) == 1))
  }

  /** How many of the schemas admit the value. */
  function Admitting(named: NamedAdmits, schemas: seq<Json>, v: Json): nat
    decreases schemas, 0
  {
    if schemas == [] then 0
    else (if Admits(named, schemas[0], v) then 1 else 0) + Admitting(named, schemas[1..], v)
  }

  // ---------- types ----------

  predicate IsWordFor(lang: Language, word: string, v: Json) {
    match lang
    case Python =>
      || word == "Any" || (word == "str" && v.Str?) || (word in {"int", "float"} && v.Num?)
      || (word == "bool" && v.Bool?) || (word == "None" && v.Null?)
    case TypeScript =>
      || word == "unknown" || (word == "string" && v.Str?) || (word == "number" && v.Num?)
      || (word == "boolean" && v.Bool?) || (word == "null" && v.Null?)
  }

  /** The value has the type. */
  predicate HasType(named: NamedAdmits, lang: Language, t: TypeExpr, v: Json)
    decreases t
  {
    match t
    case Named(n) => named(n, v)
    case Word(w) => IsWordFor(lang, w, v)
    case Literals(values) => v in values
    case ListOf(e) => v.Arr? && forall i :: 0 <= i < |v.items| ==> HasType(named, lang, e, v.items[i])
    case DictOf(e) => v.Obj? && forall i :: 0 <= i < |v.fields| ==> HasType(named, lang, e, v.fields[i].value)
    case Union(members) => exists i :: 0 <= i < |members| && HasType(named, lang, members[i], v)
  }

  lemma PrimitiveIsKind(named: NamedAdmits, lang: Language, kind: string, v: Json)
    requires Primitive(lang, kind).Some?
    ensures HasType(named, lang, Word(Primitive(lang, kind).value), v) <==> IsKind(kind, v)
  {
  }

  // ---------- unions ----------

  /** No member is the type of everything, unless all members are alike. */
  predicate KeepsAll(lang: Language, members: seq<TypeExpr>) {
    var any := AnyWord(lang);
    Word(any) in members || Named(any) in members ==> forall i :: 0 <= i < |members| ==> members[i] == members[0]
  }

  lemma {:induction false} DedupMembers(ts: seq<TypeExpr>)
    ensures forall t :: t in DedupTypes(ts) <==> t in ts
  {
    if ts != [] {
      DedupMembers(ts[..|ts| - 1]);
      assert ts == ts[..|ts| - 1] + [ts[|ts| - 1]];
    }
  }

  lemma {:induction false} DedupOfEqual(ts: seq<TypeExpr>)
    requires forall i :: 0 <= i < |ts| ==> ts[i] == ts[0]
    ensures |DedupTypes(ts)| <= 1
  {
    if ts != [] {
      DedupOfEqual(ts[..|ts| - 1]);
      DedupMembers(ts[..|ts| - 1]);
      if |ts| > 1 {
        assert ts[..|ts| - 1][0] == ts[0];
      }
    }
  }

  /** A union that drops nothing holds what its members hold. */
  lemma UnionHasType(named: NamedAdmits, lang: Language, members: seq<TypeExpr>, v: Json)
    requires KeepsAll(lang, members) && members != []
    ensures HasType(named, lang, MakeUnion(lang, members), v) <==>
              exists t :: t in members && HasType(named, lang, t, v)
  {
    var unique := DedupTypes(members);
    DedupMembers(members);
    if Word(AnyWord(lang)) in members || Named(AnyWord(lang)) in members {
      DedupOfEqual(members);
    }
    assert members[0] in unique;
    UnionOf(named, lang, unique, v);
  }

  lemma UnionOf(named: NamedAdmits, lang: Language, members: seq<TypeExpr>, v: Json)
    ensures HasType(named, lang, Union(members), v) <==> exists t :: t in members && HasType(named, lang, t, v)
  {
    if HasType(named, lang, Union(members), v) {
      var i :| 0 <= i < |members| && HasType(named, lang, members[i], v);
      assert members[i] in members;
    }
  }

  // ---------- soundness ----------

  /** Nothing that the schema admits is dropped on the way: unions keep all their
      members, and a schema for further keys stands alone. */
  predicate Undropped(lang: Language, schema: Json)
    decreases schema, 1
  {
    schema.Obj? ==>
      var f := schema.fields;
      && UndroppedAt(lang, f, "items") && UndroppedAt(lang, f, "additionalProperties")
      && UndroppedIn(lang, f, "anyOf") && UndroppedIn(lang, f, "oneOf")
      && (Get(f, "additionalProperties").Some? ==> Get(f, "properties") == None)
  }

  predicate UndroppedAt(lang: Language, f: seq<Field>, key: string)
    decreases Obj(f), 0
  {
    Get(f, key).Some? ==> (GetIsSmaller(f, key); Undropped(lang, Get(f, key).value))
  }

  predicate UndroppedIn(lang: Language, f: seq<Field>, key: string)
    decreases Obj(f), 0
  {
    IsListAt(f, key) ==>
      (GetIsSmaller(f, key);
       var schemas := Get(f, key).value.items;
       (forall i :: 0 <= i < |schemas| ==> schemas[i].Obj? && Undropped(lang, schemas[i]))
       && KeepsAll(lang, TypesOf(lang, schemas)))
  }

  lemma {:induction false} TypesOfAll(lang: Language, schemas: seq<Json>)
    requires forall i :: 0 <= i < |schemas| ==> schemas[i].Obj?
    ensures |TypesOf(lang, schemas)| == |schemas|
    ensures forall i :: 0 <= i < |schemas| ==> TypesOf(lang, schemas)[i] == TypeOf(lang, schemas[i])
  {
    if schemas != [] {
      TypesOfAll(lang, schemas[1..]);
    }
  }

  lemma {:induction false} SomeAdmits(named: NamedAdmits, schemas: seq<Json>, v: Json)
    ensures Admitting(named, schemas, v) >= 1 <==> exists i :: 0 <= i < |schemas| && Admits(named, schemas[i], v)
  {
    if schemas != [] {
      SomeAdmits(named, schemas[1..], v);
      if exists i :: 0 <= i < |schemas[1..]| && Admits(named, schemas[1..][i], v) {
        var i :| 0 <= i < |schemas[1..]| && Admits(named, schemas[1..][i], v);
        assert schemas[i + 1] == schemas[1..][i];
      }
      assert forall i :: 1 <= i < |schemas| ==> schemas[i] == schemas[1..][i - 1];
    }
  }

  /** A type of a list of schemas is the type of one of them. */
  lemma ChoiceHasType(named: NamedAdmits, lang: Language, schemas: seq<Json>, v: Json)
    requires schemas != [] && forall i :: 0 <= i < |schemas| ==> schemas[i].Obj?
    requires KeepsAll(lang, TypesOf(lang, schemas))
    ensures HasType(named, lang, MakeUnion(lang, TypesOf(lang, schemas)), v) <==>
              exists i :: 0 <= i < |schemas| && HasType(named, lang, TypeOf(lang, schemas[i]), v)
  {
    var types := TypesOf(lang, schemas);
    TypesOfAll(lang, schemas);
    UnionHasType(named, lang, types, v);
    forall i | 0 <= i < |schemas| ensures types[i] in types && types[i] == TypeOf(lang, schemas[i]) {
    }
    if t :| t in types && HasType(named, lang, t, v) {
      var i :| 0 <= i < |types| && types[i] == t;
      assert HasType(named, lang, TypeOf(lang, schemas[i]), v);
    }
  }

  /** The printed type of a schema lets through every value that the schema admits. */
  lemma {:induction false} TypesAreSound(named: NamedAdmits, lang: Language, schema: Json, v: Json)
    requires schema.Obj? && Undropped(lang, schema) && Admits(named, schema, v)
    ensures HasType(named, lang, TypeOf(lang, schema), v)
    decreases schema, 2
  {
    var f := schema.fields;
    var kind, t := Kind(f), TypeOf(lang, schema);
    if Get(f, "$ref").Some? || t.Literals? {
    } else if Primitive(lang, kind).Some? || kind == "array" || kind == "object" {
      KindIsSound(named, lang, f, v);
    } else if IsListAt(f, "anyOf") {
      GetIsSmaller(f, "anyOf");
      SomeIsSound(named, lang, Get(f, "anyOf").value.items, v);
    } else if IsListAt(f, "oneOf") {
      GetIsSmaller(f, "oneOf");
      SomeIsSound(named, lang, Get(f, "oneOf").value.items, v);
    }
  }

  lemma {:induction false} KindIsSound(named: NamedAdmits, lang: Language, f: seq<Field>, v: Json)
    requires Undropped(lang, Obj(f)) && Admits(named, Obj(f), v) && !Get(f, "$ref").Some?
    requires !TypeOf(lang, Obj(f)).Literals?
    requires Primitive(lang, Kind(f)).Some? || Kind(f) == "array" || Kind(f) == "object"
    ensures HasType(named, lang, TypeOf(lang, Obj(f)), v)
    decreases Obj(f), 1
  {
    var kind := Kind(f);
    if Primitive(lang, kind).Some? {
      PrimitiveIsKind(named, lang, kind, v);
    } else if kind == "array" {
      if IsObjectAt(f, "items") {
        ElementsAreSound(named, lang, f, v);
      }
    } else if IsObjectAt(f, "additionalProperties") {
      RestIsSound(named, lang, f, v);
    }
  }

  lemma {:induction false} ElementsAreSound(named: NamedAdmits, lang: Language, f: seq<Field>, v: Json)
    requires v.Arr? && UndroppedAt(lang, f, "items") && AdmitsElements(named, f, v)
    requires IsObjectAt(f, "items")
    ensures forall i :: 0 <= i < |v.items| ==> HasType(named, lang, TypeOf(lang, Get(f, "items").value), v.items[i])
    decreases Obj(f), 0
  {
    GetIsSmaller(f, "items");
    forall i | 0 <= i < |v.items| ensures HasType(named, lang, TypeOf(lang, Get(f, "items").value), v.items[i]) {
      TypesAreSound(named, lang, Get(f, "items").value, v.items[i]);
    }
  }

  lemma {:induction false} RestIsSound(named: NamedAdmits, lang: Language, f: seq<Field>, v: Json)
    requires v.Obj? && UndroppedAt(lang, f, "additionalProperties") && AdmitsRest(named, f, v)
    requires IsObjectAt(f, "additionalProperties")
    requires Get(f, "properties") == None
    ensures forall i :: 0 <= i < |v.fields| ==>
              HasType(named, lang, TypeOf(lang, Get(f, "additionalProperties").value), v.fields[i].value)
    decreases Obj(f), 0
  {
    var rest := Get(f, "additionalProperties").value;
    GetIsSmaller(f, "additionalProperties");
    forall i | 0 <= i < |v.fields| ensures HasType(named, lang, TypeOf(lang, rest), v.fields[i].value) {
      assert !Declared(f, v.fields[i].key);
      TypesAreSound(named, lang, rest, v.fields[i].value);
    }
  }

  lemma {:induction false} SomeIsSound(named: NamedAdmits, lang: Language, schemas: seq<Json>, v: Json)
    requires forall i :: 0 <= i < |schemas| ==> schemas[i].Obj? && Undropped(lang, schemas[i])
    requires KeepsAll(lang, TypesOf(lang, schemas)) && Admitting(named, schemas, v) >= 1
    ensures HasType(named, lang, MakeUnion(lang, TypesOf(lang, schemas)), v)
    decreases schemas, 0
  {
    SomeAdmits(named, schemas, v);
    var i :| 0 <= i < |schemas| && Admits(named, schemas[i], v);
    TypesAreSound(named, lang, schemas[i], v);
    ChoiceHasType(named, lang, schemas, v);
  }

  // ---------- exactness ----------

  predicate Has(f: seq<Field>, key: string) { Get(f, key).Some? }

  /** The schema says one thing at a time: a reference, an enumeration, a kind (with
      its elements or further keys), a choice, or nothing. */
  predicate Plain(lang: Language, schema: Json)
    decreases schema, 1
  {
    schema.Obj? &&
    var f := schema.fields;
    && !Has(f, "properties") && !Has(f, "oneOf")
    && (if Has(f, "$ref") then !Has(f, "enum") && NoKind(f) && !Has(f, "anyOf")
        else if Has(f, "enum") then IsListAt(f, "enum") && Get(f, "enum").value.items != [] && NoKind(f) && !Has(f, "anyOf")
        else if Has(f, "anyOf") then NoKind(f) && PlainIn(lang, f, "anyOf")
        else if Has(f, "type") then
          && Kind(f) in {"string", "integer", "number", "boolean", "null", "array", "object"}
          && (Has(f, "items") ==> Kind(f) == "array" && PlainAt(lang, f, "items"))
          && (Has(f, "additionalProperties") ==> Kind(f) == "object" && PlainAt(lang, f, "additionalProperties"))
        else NoKind(f))
  }

  predicate NoKind(f: seq<Field>) { !Has(f, "type") && !Has(f, "items") && !Has(f, "additionalProperties") }

  predicate PlainAt(lang: Language, f: seq<Field>, key: string)
    decreases Obj(f), 0
  {
    IsObjectAt(f, key) && (GetIsSmaller(f, key); Plain(lang, Get(f, key).value))
  }

  predicate PlainIn(lang: Language, f: seq<Field>, key: string)
    decreases Obj(f), 0
  {
    IsListAt(f, key) &&
    (GetIsSmaller(f, key);
     var schemas := Get(f, key).value.items;
     schemas != [] && (forall i :: 0 <= i < |schemas| ==> schemas[i].Obj? && Plain(lang, schemas[i]))
     && KeepsAll(lang, TypesOf(lang, schemas)))
  }

  /** The printed type of a plain schema lets through exactly what the schema admits. */
  lemma {:induction false} TypesAreExact(named: NamedAdmits, lang: Language, schema: Json, v: Json)
    requires Plain(lang, schema)
    ensures HasType(named, lang, TypeOf(lang, schema), v) <==> Admits(named, schema, v)
    decreases schema, 2
  {
    var f := schema.fields;
    if Has(f, "$ref") || Has(f, "enum") {
    } else if Has(f, "anyOf") {
      GetIsSmaller(f, "anyOf");
      SomeIsExact(named, lang, Get(f, "anyOf").value.items, v);
    } else if Has(f, "type") {
      KindIsExact(named, lang, f, v);
    }
  }

  lemma {:induction false} KindIsExact(named: NamedAdmits, lang: Language, f: seq<Field>, v: Json)
    requires Plain(lang, Obj(f)) && Has(f, "type") && !Has(f, "$ref") && !Has(f, "enum") && !Has(f, "anyOf")
    ensures HasType(named, lang, TypeOf(lang, Obj(f)), v) <==> Admits(named, Obj(f), v)
    decreases Obj(f), 1
  {
    var kind := Kind(f);
    if Primitive(lang, kind).Some? {
      PrimitiveIsKind(named, lang, kind, v);
    } else if kind == "array" && Has(f, "items") {
      ElementsAreExact(named, lang, f, v);
    } else if kind == "object" && Has(f, "additionalProperties") {
      RestIsExact(named, lang, f, v);
    }
  }

  lemma {:induction false} ElementsAreExact(named: NamedAdmits, lang: Language, f: seq<Field>, v: Json)
    requires PlainAt(lang, f, "items")
    ensures v.Arr? ==>
              (AdmitsElements(named, f, v) <==>
               forall i :: 0 <= i < |v.items| ==> HasType(named, lang, TypeOf(lang, Get(f, "items").value), v.items[i]))
    decreases Obj(f), 0
  {
    GetIsSmaller(f, "items");
    var items := Get(f, "items").value;
    if v.Arr? {
      forall i | 0 <= i < |v.items|
        ensures HasType(named, lang, TypeOf(lang, items), v.items[i]) <==> Admits(named, items, v.items[i])
      {
        TypesAreExact(named, lang, items, v.items[i]);
      }
    }
  }

  lemma {:induction false} RestIsExact(named: NamedAdmits, lang: Language, f: seq<Field>, v: Json)
    requires PlainAt(lang, f, "additionalProperties")
    requires Get(f, "properties") == None
    ensures v.Obj? ==>
              (AdmitsRest(named, f, v) <==>
               forall i :: 0 <= i < |v.fields| ==>
                 HasType(named, lang, TypeOf(lang, Get(f, "additionalProperties").value), v.fields[i].value))
    decreases Obj(f), 0
  {
    GetIsSmaller(f, "additionalProperties");
    var rest := Get(f, "additionalProperties").value;
    if v.Obj? {
      forall i | 0 <= i < |v.fields|
        ensures !Declared(f, v.fields[i].key)
        ensures HasType(named, lang, TypeOf(lang, rest), v.fields[i].value) <==> Admits(named, rest, v.fields[i].value)
      {
        TypesAreExact(named, lang, rest, v.fields[i].value);
      }
    }
  }

  lemma {:induction false} SomeIsExact(named: NamedAdmits, lang: Language, schemas: seq<Json>, v: Json)
    requires schemas != [] && forall i :: 0 <= i < |schemas| ==> schemas[i].Obj? && Plain(lang, schemas[i])
    requires KeepsAll(lang, TypesOf(lang, schemas))
    ensures HasType(named, lang, MakeUnion(lang, TypesOf(lang, schemas)), v) <==> Admitting(named, schemas, v) >= 1
    decreases schemas, 0
  {
    SomeAdmits(named, schemas, v);
    ChoiceHasType(named, lang, schemas, v);
    forall i | 0 <= i < |schemas|
      ensures HasType(named, lang, TypeOf(lang, schemas[i]), v) <==> Admits(named, schemas[i], v)
    {
      TypesAreExact(named, lang, schemas[i], v);
    }
  }

  /** Every property of a class is printed, in order: its type lets through what its
      schema admits, and nothing else when that is plain. */
  lemma {:induction false} PropertiesAreSound(named: NamedAdmits, lang: Language, props: seq<Field>, i: nat, v: Json)
    requires i < |props|
    ensures var types := PropertyTypes(lang, props); |types| == |props|
    ensures var t := PropertyTypes(lang, props)[i];
            && (Undropped(lang, props[i].value) && Admits(named, props[i].value, v) ==> HasType(named, lang, t, v))
            && (Plain(lang, props[i].value) && HasType(named, lang, t, v) ==> Admits(named, props[i].value, v))
  {
    PropertyTypeAt(lang, props, i);
    var schema := props[i].value;
    if schema.Obj? && Undropped(lang, schema) && Admits(named, schema, v) {
      TypesAreSound(named, lang, schema, v);
    }
    if Plain(lang, schema) {
      TypesAreExact(named, lang, schema, v);
    }
  }

  lemma {:induction false} PropertyTypeAt(lang: Language, props: seq<Field>, i: nat)
    requires i < |props|
    ensures var types := PropertyTypes(lang, props);
            && |types| == |props|
            && types[i] == if props[i].value.Obj? then TypeOf(lang, props[i].value) else Word(AnyWord(lang))
  {
    if |props| == 1 {
      assert PropertyTypes(lang, props[1..]) == [];
    } else {
      PropertyTypeAt(lang, props[1..], if i > 0 then i - 1 else 0);
    }
  }

  /** The type of everything, by its word or by a schema of that name. */
  predicate IsAny(lang: Language, t: TypeExpr) { t == Word(AnyWord(lang)) || t == Named(AnyWord(lang)) }

  lemma {:induction false} UnionOfTwo(lang: Language, any: TypeExpr, t: TypeExpr)
    requires IsAny(lang, any) && !IsAny(lang, t)
    ensures MakeUnion(lang, [any, t]) == Union([t])
  {
    var word := AnyWord(lang);
    var two := [any, t];
    assert two[..1] == [any] && [any][..0] == [];
    assert DedupTypes([]) == [];
    assert DedupTypes([any]) == [any];
    assert DedupTypes(two) == two;
    assert two[1..] == [t] && [t][1..] == [];
    assert Drop([], word) == [];
    assert Drop([t], word) == [t] + [];
    assert Drop(two, word) == [] + [t];
  }

  /** A choice between nothing is printed as the type of everything. */
  lemma EmptyChoice(named: NamedAdmits, lang: Language, v: Json)
    ensures HasType(named, lang, MakeUnion(lang, []), v)
  {
  }

  lemma AnythingHasAny(lang: Language)
    ensures TypeOf(lang, Obj([])) == Word(AnyWord(lang))
  {
  }

  /** Both kinds of choice are printed as the union of their types. */
  lemma ChoiceType(lang: Language, key: string, schemas: seq<Json>)
    requires key == "anyOf" || key == "oneOf"
    ensures TypeOf(lang, Obj([Field(key, Arr(schemas))])) == MakeUnion(lang, TypesOf(lang, schemas))
  {
    var f := [Field(key, Arr(schemas))];
    assert f[1..] == [];
    assert Get(f, key) == Some(Arr(schemas));
    assert Get(f, "$ref") == Get(f, "enum") == Get(f, "type") == None;
    assert Kind(f) == "" && Primitive(lang, "") == None;
    if key == "oneOf" {
      assert Get(f, "anyOf") == None;
    }
  }

  /** An empty enumeration is printed as if it were not there. */
  lemma EmptyEnumeration(lang: Language, f: seq<Field>, kind: string, word: string)
    requires Get(f, "$ref") == None && Get(f, "enum") == Some(Arr([])) && Get(f, "type") == Some(Str(kind))
    requires Primitive(lang, kind) == Some(word)
    ensures TypeOf(lang, Obj(f)) == Word(word)
  {
  }

  /** A union drops the type of everything: the choice between anything and some
      other schema admits every value, but is printed like that other schema alone. */
  lemma DroppedAny(named: NamedAdmits, lang: Language, other: Json, v: Json)
    requires other.Obj? && !IsAny(lang, TypeOf(lang, other))
    ensures var schema := Obj([Field("anyOf", Arr([Obj([]), other]))]);
            && (Admits(named, schema, v))
            && (HasType(named, lang, TypeOf(lang, schema), v) <==> HasType(named, lang, TypeOf(lang, other), v))
  {
    var schemas, f := [Obj([]), other], [Field("anyOf", Arr([Obj([]), other]))];
    var t := TypeOf(lang, other);
    AnythingHasAny(lang);
    TypesOfAll(lang, schemas);
    assert TypesOf(lang, schemas) == [Word(AnyWord(lang)), t];
    UnionOfTwo(lang, Word(AnyWord(lang)), t);
    ChoiceType(lang, "anyOf", schemas);
    UnionOf(named, lang, [t], v);
    AdmitsAnything(named, schemas, v);
  }

  lemma AdmitsAnything(named: NamedAdmits, schemas: seq<Json>, v: Json)
    requires schemas != [] && schemas[0] == Obj([])
    ensures Admits(named, Obj([Field("anyOf", Arr(schemas))]), v)
  {
    assert Admits(named, schemas[0], v);
    var f := [Field("anyOf", Arr(schemas))];
    assert f[1..] == [];
    SomeAdmits(named, schemas, v);
    assert Get(f, "$ref") == Get(f, "enum") == Get(f, "type") == Get(f, "oneOf") == Get(f, "items") == None;
    assert Get(f, "additionalProperties") == None;
  }
}
