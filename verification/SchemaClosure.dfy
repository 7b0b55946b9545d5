/** Selecting OpenAPI schemas and printing their types (scripts/generate_sdk_models.py). */
module SchemaClosure {
  import opened Text
  import opened Json

  const REF_PREFIX := "#/components/schemas/"

  /** `s.rsplit("/", 1)[-1]` */
  function AfterLastSlash(s: string): string {
    if s == "" then ""
    else if s[|s| - 1] == '/' then ""
    else AfterLastSlash(s[..|s| - 1]) + [s[|s| - 1]]
  }

  function Get(fields: seq<Field>, key: string): Option<Json> {
    if fields == [] then None
    else if fields[0].key == key then Some(fields[0].value)
    else Get(fields[1..], key)
  }

  function OwnRef(fields: seq<Field>): seq<string> {
    var r := Get(fields, "$ref");
    if r.Some? && r.value.Str? && REF_PREFIX <= r.value.s then [AfterLastSlash(r.value.s)] else []
  }

  /** `_iter_refs` */
  function IterRefs(node: Json): seq<string>
    decreases node, 1
  {
    match node
    case Obj(fields) => OwnRef(fields) + FieldRefs(fields)
    case Arr(items) => ItemRefs(items)
    case _ => []
  }

  function FieldRefs(fields: seq<Field>): seq<string>
    decreases fields, 0
  {
    if fields == [] then [] else IterRefs(fields[0].value) + FieldRefs(fields[1..])
  }

  function ItemRefs(items: seq<Json>): seq<string>
    decreases items, 0
  {
    if items == [] then [] else IterRefs(items[0]) + ItemRefs(items[1..])
  }

  // ---------- what the walk finds ----------

  /** Field i is the one that a lookup of the key finds. */
  predicate IsFirst(fields: seq<Field>, key: string, i: nat) {
    i < |fields| && fields[i].key == key && forall j :: 0 <= j < i ==> fields[j].key != key
  }

  lemma {:induction false} GetFirst(fields: seq<Field>, key: string, i: nat)
    requires IsFirst(fields, key, i)
    ensures Get(fields, key) == Some(fields[i].value)
  {
    if i > 0 {
      assert IsFirst(fields[1..], key, i - 1);
      GetFirst(fields[1..], key, i - 1);
    }
  }

  lemma {:induction false} GetFindsFirst(fields: seq<Field>, key: string) returns (i: nat)
    requires Get(fields, key).Some?
    ensures IsFirst(fields, key, i) && Get(fields, key) == Some(fields[i].value)
  {
    if fields[0].key == key {
      i := 0;
    } else {
      i := GetFindsFirst(fields[1..], key);
      i := i + 1;
      assert forall j :: 1 <= j < i ==> fields[j].key == fields[1..][j - 1].key;
    }
  }

  lemma {:induction false} AfterLast(front: string, name: string)
    requires Without(name, '/')
    ensures AfterLastSlash(front + ("/" + name)) == name
  {
    var s := front + ("/" + name);
    if name == "" {
      assert s[|s| - 1] == '/';
    } else {
      var n := |name| - 1;
      assert s[..|s| - 1] == front + ("/" + name[..n]);
      AfterLast(front, name[..n]);
      assert name == name[..n] + [name[n]];
    }
  }

  lemma {:induction false} LastSlash(s: string, k: nat) returns (front: string)
    requires k < |s| && s[k] == '/'
    ensures s == front + ("/" + AfterLastSlash(s)) && Without(AfterLastSlash(s), '/')
  {
    var n := |s| - 1;
    if s[n] == '/' {
      front := s[..n];
    } else {
      front := LastSlash(s[..n], k);
      assert s == s[..n] + [s[n]];
      assert s == front + ("/" + AfterLastSlash(s));
    }
  }

  /** The node stands somewhere inside the other one, at any depth. */
  ghost predicate Inside(part: Json, node: Json)
    decreases node
  {
    part == node ||
    match node
    case Obj(fields) => exists i :: 0 <= i < |fields| && Inside(part, fields[i].value)
    case Arr(items) => exists i :: 0 <= i < |items| && Inside(part, items[i])
    case _ => false
  }

  /** This very object refers to the schema: its "$ref" is a text under the schema
      prefix, and the name is what stands behind the last slash. */
  ghost predicate RefersTo(part: Json, name: string) {
    && part.Obj? && Without(name, '/')
    && exists i: nat, front: string :: IsFirst(part.fields, "$ref", i) && part.fields[i].value == Str(front + ("/" + name))
                          && REF_PREFIX <= front + ("/" + name)
  }

  lemma OwnRefExactly(fields: seq<Field>, name: string)
    ensures name in OwnRef(fields) <==> RefersTo(Obj(fields), name)
  {
    if name in OwnRef(fields) {
      var i := GetFindsFirst(fields, "$ref");
      var s := fields[i].value.s;
      assert s[0..|REF_PREFIX|][1] == '/';
      var front := LastSlash(s, 1);
      assert fields[i].value == Str(front + ("/" + name));
    }
    if RefersTo(Obj(fields), name) {
      var i: nat, front: string :| IsFirst(fields, "$ref", i) && fields[i].value == Str(front + ("/" + name))
                              && REF_PREFIX <= front + ("/" + name);
      GetFirst(fields, "$ref", i);
      AfterLast(front, name);
    }
  }

  ghost predicate FoundIn(node: Json, name: string) {
    exists part :: Inside(part, node) && RefersTo(part, name)
  }

  /** `_iter_refs` finds a name if and only if some object inside the node, at any
      depth, refers to it. */
  lemma {:induction false} RefsExactly(node: Json, name: string)
    ensures name in IterRefs(node) <==> FoundIn(node, name)
    decreases node, 1
  {
    match node
    case Obj(fields) =>
      OwnRefExactly(fields, name);
      FieldRefsExactly(fields, name);
      FoundInFields(fields, name);
    case Arr(items) =>
      ItemRefsExactly(items, name);
      FoundInItems(items, name);
    case _ =>
  }

  lemma FoundInFields(fields: seq<Field>, name: string)
    ensures FoundIn(Obj(fields), name) <==>
              RefersTo(Obj(fields), name) || exists i :: 0 <= i < |fields| && FoundIn(fields[i].value, name)
  {
    var node := Obj(fields);
    if FoundIn(node, name) {
      var part :| Inside(part, node) && RefersTo(part, name);
      if part != node {
        var i :| 0 <= i < |fields| && Inside(part, fields[i].value);
        assert FoundIn(fields[i].value, name);
      }
    }
    if RefersTo(node, name) {
      assert Inside(node, node);
    }
    forall i | 0 <= i < |fields| && FoundIn(fields[i].value, name) ensures FoundIn(node, name) {
      var part :| Inside(part, fields[i].value) && RefersTo(part, name);
      assert Inside(part, node);
    }
  }

  lemma FoundInItems(items: seq<Json>, name: string)
    ensures FoundIn(Arr(items), name) <==> exists i :: 0 <= i < |items| && FoundIn(items[i], name)
  {
    var node := Arr(items);
    if FoundIn(node, name) {
      var part :| Inside(part, node) && RefersTo(part, name);
      var i :| 0 <= i < |items| && Inside(part, items[i]);
      assert FoundIn(items[i], name);
    }
    forall i | 0 <= i < |items| && FoundIn(items[i], name) ensures FoundIn(node, name) {
      var part :| Inside(part, items[i]) && RefersTo(part, name);
      assert Inside(part, node);
    }
  }

  lemma {:induction false} FieldRefsExactly(fields: seq<Field>, name: string)
    ensures name in FieldRefs(fields) <==> exists i :: 0 <= i < |fields| && FoundIn(fields[i].value, name)
    decreases fields, 0
  {
    if fields != [] {
      RefsExactly(fields[0].value, name);
      FieldRefsExactly(fields[1..], name);
      assert forall i :: 1 <= i < |fields| ==> fields[i] == fields[1..][i - 1];
      if exists i :: 0 <= i < |fields[1..]| && FoundIn(fields[1..][i].value, name) {
        var i :| 0 <= i < |fields[1..]| && FoundIn(fields[1..][i].value, name);
        assert FoundIn(fields[i + 1].value, name);
      }
    }
  }

  lemma {:induction false} ItemRefsExactly(items: seq<Json>, name: string)
    ensures name in ItemRefs(items) <==> exists i :: 0 <= i < |items| && FoundIn(items[i], name)
    decreases items, 0
  {
    if items != [] {
      RefsExactly(items[0], name);
      ItemRefsExactly(items[1..], name);
      assert forall i :: 1 <= i < |items| ==> items[i] == items[1..][i - 1];
      if exists i :: 0 <= i < |items[1..]| && FoundIn(items[1..][i], name) {
        var i :| 0 <= i < |items[1..]| && FoundIn(items[1..][i], name);
        assert FoundIn(items[i + 1], name);
      }
    }
  }

  // ---------- reachability ----------

  type Components = map<string, Json>

  predicate Defined(components: Components, name: string) {
    name in components && components[name].Obj?
  }

  predicate Refers(components: Components, from: string, to: string) {
    Defined(components, from) && to in IterRefs(components[from])
  }

  /** A chain of references through defined schemas that starts at a root. */
  ghost predicate IsChain(components: Components, roots: seq<string>, chain: seq<string>) {
    && chain != [] && chain[0] in roots
    && (forall i :: 0 <= i < |chain| ==> Defined(components, chain[i]))
    && forall i :: 0 <= i < |chain| - 1 ==> Refers(components, chain[i], chain[i + 1])
  }

  ghost predicate Reachable(components: Components, roots: seq<string>, name: string) {
    exists chain :: IsChain(components, roots, chain) && chain[|chain| - 1] == name
  }

  lemma ReachableRoot(components: Components, roots: seq<string>, name: string)
    requires name in roots && Defined(components, name)
    ensures Reachable(components, roots, name)
  {
    assert IsChain(components, roots, [name]);
  }

  lemma ReachableStep(components: Components, roots: seq<string>, from: string, to: string)
    requires Reachable(components, roots, from) && Refers(components, from, to) && Defined(components, to)
    ensures Reachable(components, roots, to)
  {
    var chain :| IsChain(components, roots, chain) && chain[|chain| - 1] == from;
    var longer := chain + [to];
    assert IsChain(components, roots, longer) && longer[|longer| - 1] == to;
  }

  /** Where a name on the worklist comes from. */
  ghost predicate Wanted(components: Components, roots: seq<string>, selected: set<string>, name: string) {
    name in roots || exists from :: from in selected && Refers(components, from, name)
  }

  ghost predicate Closed(components: Components, roots: seq<string>, selected: set<string>) {
    forall name :: Wanted(components, roots, selected, name) && Defined(components, name) ==> name in selected
  }

  /** A closed selection holds everything reachable. */
  lemma {:induction false} ClosedHoldsChain(components: Components, roots: seq<string>, selected: set<string>, chain: seq<string>)
    requires Closed(components, roots, selected) && IsChain(components, roots, chain)
    ensures chain[|chain| - 1] in selected
    decreases |chain|
  {
    if |chain| == 1 {
      assert Wanted(components, roots, selected, chain[0]);
    } else {
      var front := chain[..|chain| - 1];
      assert IsChain(components, roots, front);
      ClosedHoldsChain(components, roots, selected, front);
      assert Refers(components, front[|front| - 1], chain[|chain| - 1]);
      assert Wanted(components, roots, selected, chain[|chain| - 1]);
    }
  }

  lemma ClosedHoldsReachable(components: Components, roots: seq<string>, selected: set<string>)
    requires Closed(components, roots, selected)
    ensures forall name :: Reachable(components, roots, name) ==> name in selected
  {
    forall name | Reachable(components, roots, name) ensures name in selected {
      var chain :| IsChain(components, roots, chain) && chain[|chain| - 1] == name;
      ClosedHoldsChain(components, roots, selected, chain);
    }
  }

  // ---------- the worklist ----------

  /** Selected or still to be looked at. */
  ghost predicate Pending(components: Components, roots: seq<string>, selected: set<string>, stack: seq<string>) {
    && (forall name :: Wanted(components, roots, selected, name) && Defined(components, name) ==>
          name in selected || name in stack)
    && (forall name :: name in stack ==> Wanted(components, roots, selected, name))
  }

  ghost predicate AllReachable(components: Components, roots: seq<string>, selected: map<string, Json>) {
    forall name :: name in selected ==>
      Defined(components, name) && selected[name] == components[name] && Reachable(components, roots, name)
  }

  lemma WantedIsReachable(components: Components, roots: seq<string>, selected: map<string, Json>, name: string)
    requires AllReachable(components, roots, selected)
    requires Wanted(components, roots, selected.Keys, name) && Defined(components, name)
    ensures Reachable(components, roots, name)
  {
    if name in roots {
      ReachableRoot(components, roots, name);
    } else {
      var from :| from in selected.Keys && Refers(components, from, name);
      ReachableStep(components, roots, from, name);
    }
  }

  lemma PopKeepsPending(components: Components, roots: seq<string>, selected: set<string>, stack: seq<string>, name: string)
    requires Pending(components, roots, selected, stack + [name])
    requires name in selected || !Defined(components, name)
    ensures Pending(components, roots, selected, stack)
  {
  }

  /** The names that `_collect_schemas` pushes for one schema. */
  function NotIn(refs: seq<string>, selected: set<string>): seq<string> {
    if refs == [] then []
    else (if refs[0] !in selected then [refs[0]] else []) + NotIn(refs[1..], selected)
  }

  lemma {:induction false} NotInMembers(refs: seq<string>, selected: set<string>)
    ensures forall n :: n in NotIn(refs, selected) <==> n in refs && n !in selected
  {
    if refs != [] {
      NotInMembers(refs[1..], selected);
      assert refs == [refs[0]] + refs[1..];
    }
  }

  lemma SelectKeepsPending(components: Components, roots: seq<string>, selected: set<string>, stack: seq<string>, name: string)
    requires Pending(components, roots, selected, stack + [name]) && Defined(components, name)
    ensures var next := selected + {name};
            Pending(components, roots, next, stack + NotIn(IterRefs(components[name]), next))
  {
    var next, refs := selected + {name}, IterRefs(components[name]);
    NotInMembers(refs, next);
    var stack' := stack + NotIn(refs, next);
    forall n | Wanted(components, roots, next, n) && Defined(components, n) ensures n in next || n in stack' {
      if !Wanted(components, roots, selected, n) {
        var from :| from in next && Refers(components, from, n);
        assert from == name;
      }
    }
    forall n | n in stack' ensures Wanted(components, roots, next, n) {
      if n in stack {
        assert n in stack + [name];
        if n !in roots {
          var from :| from in selected && Refers(components, from, n);
          assert from in next;
        }
      } else {
        assert Refers(components, name, n);
      }
    }
  }

  method PushRefs(stack: seq<string>, refs: seq<string>, selected: map<string, Json>) returns (longer: seq<string>)
    ensures longer == stack + NotIn(refs, selected.Keys)
  {
    longer := stack;
    var todo := refs;
    while todo != []
      invariant longer + NotIn(todo, selected.Keys) == stack + NotIn(refs, selected.Keys)
      decreases |todo|
    {
      if todo[0] !in selected {
        longer := longer + [todo[0]];
      }
      todo := todo[1..];
    }
  }

  ghost predicate Progress(components: Components, roots: seq<string>, selected: map<string, Json>, stack: seq<string>) {
    AllReachable(components, roots, selected) && Pending(components, roots, selected.Keys, stack)
  }

  lemma Select(components: Components, roots: seq<string>, selected: map<string, Json>, stack: seq<string>, name: string)
    requires Progress(components, roots, selected, stack + [name]) && Defined(components, name)
    ensures var next := selected[name := components[name]];
            Progress(components, roots, next, stack + NotIn(IterRefs(components[name]), next.Keys))
  {
    assert name in stack + [name];
    WantedIsReachable(components, roots, selected, name);
    SelectKeepsPending(components, roots, selected.Keys, stack, name);
    assert selected[name := components[name]].Keys == selected.Keys + {name};
  }

  /** The selection is exactly the set of reachable schemas. */
  ghost predicate IsClosure(components: Components, roots: seq<string>, selected: map<string, Json>) {
    && (forall name :: name in selected <==> Reachable(components, roots, name))
    && (forall name :: name in selected ==> Defined(components, name) && selected[name] == components[name])
    && Closed(components, roots, selected.Keys)
  }

  lemma {:induction false} Finish(components: Components, roots: seq<string>, selected: map<string, Json>)
    requires Progress(components, roots, selected, [])
    ensures IsClosure(components, roots, selected)
  {
    ClosedHoldsReachable(components, roots, selected.Keys);
  }

  lemma Skip(components: Components, roots: seq<string>, selected: map<string, Json>, stack: seq<string>, name: string)
    requires Progress(components, roots, selected, stack + [name])
    requires name in selected || !Defined(components, name)
    ensures Progress(components, roots, selected, stack)
  {
    PopKeepsPending(components, roots, selected.Keys, stack, name);
  }

  lemma Start(components: Components, roots: seq<string>)
    ensures Progress(components, roots, map[], roots)
  {
  }

  /** Takes one name from the worklist: selects it and pushes what it refers to, or
      drops it. */
  method Visit(components: Components, ghost roots: seq<string>, selected: map<string, Json>, stack: seq<string>)
    returns (next: map<string, Json>, longer: seq<string>)
    requires stack != [] && Progress(components, roots, selected, stack)
    ensures Progress(components, roots, next, longer)
    ensures var name, rest := stack[|stack| - 1], stack[..|stack| - 1];
            if name in selected || !Defined(components, name) then next == selected && longer == rest
            else next == selected[name := components[name]] && longer == rest + NotIn(IterRefs(components[name]), next.Keys)
  {
    var name, rest := stack[|stack| - 1], stack[..|stack| - 1];
    assert stack == rest + [name];
    if name in selected || !Defined(components, name) {
      Skip(components, roots, selected, rest, name);
      return selected, rest;
    }
    Select(components, roots, selected, rest, name);
    next := selected[name := components[name]];
    longer := PushRefs(rest, IterRefs(components[name]), next);
  }

  lemma OneLess(components: Components, selected: map<string, Json>, name: string)
    requires name in components && name !in selected
    ensures components.Keys - selected[name := components[name]].Keys < components.Keys - selected.Keys
  {
    assert name in components.Keys - selected.Keys;
  }

  /** Selects exactly the defined schemas that references reach from the roots. */
  method CollectSchemas(components: Components, roots: seq<string>) returns (selected: map<string, Json>)
    ensures IsClosure(components, roots, selected)
  {
    selected := map[];
    var stack := roots;
    Start(components, roots);
    while stack != []
      invariant Progress(components, roots, selected, stack)
      decreases components.Keys - selected.Keys, |stack|
    {
      var name := stack[|stack| - 1];
      if Defined(components, name) && name !in selected {
        OneLess(components, selected, name);
      }
      selected, stack := Visit(components, roots, selected, stack);
    }
    Finish(components, roots, selected);
  }

  // ---------- the printed types ----------

  datatype Language = Python | TypeScript

  /** A printed type: a schema name, a fixed word, literals, or a composition. */
  datatype TypeExpr =
    | Named(name: string)
    | Word(text: string)
    | Literals(values: seq<Json>)
    | ListOf(element: TypeExpr)
    | DictOf(element: TypeExpr)
    | Union(members: seq<TypeExpr>)

  function AnyWord(lang: Language): string { if lang.Python? then "Any" else "unknown" }

  function Primitive(lang: Language, kind: string): Option<string> {
    if kind == "string" then Some(if lang.Python? then "str" else "string")
    else if kind == "integer" then Some(if lang.Python? then "int" else "number")
    else if kind == "number" then Some(if lang.Python? then "float" else "number")
    else if kind == "boolean" then Some(if lang.Python? then "bool" else "boolean")
    else if kind == "null" then Some(if lang.Python? then "None" else "null")
    else None
  }

  function Kind(fields: seq<Field>): string {
    var k := Get(fields, "type");
    if k.Some? && k.value.Str? then k.value.s else ""
  }

  function RefName(v: Json): string { if v.Str? then AfterLastSlash(v.s) else "" }

  function DedupTypes(ts: seq<TypeExpr>): seq<TypeExpr> {
    if ts == [] then []
    else
      var before, last := DedupTypes(ts[..|ts| - 1]), ts[|ts| - 1];
      if last in before then before else before + [last]
  }

  function Drop(ts: seq<TypeExpr>, any: string): seq<TypeExpr> {
    if ts == [] then []
    else (if ts[0] == Word(any) || ts[0] == Named(any) then [] else [ts[0]]) + Drop(ts[1..], any)
  }

  function MakeUnion(lang: Language, members: seq<TypeExpr>): TypeExpr {
    var any := AnyWord(lang);
    var unique := DedupTypes(members);
    var kept := if (Word(any) in unique || Named(any) in unique) && |unique| > 1 then Drop(unique, any) else unique;
    if kept == [] then Word(any) else Union(kept)
  }

  /** `_py_type` and `_ts_type` on a schema object. */
  function TypeOf(lang: Language, schema: Json): TypeExpr
    requires schema.Obj?
    decreases schema, 1
  {
    var fields := schema.fields;
    var ref, values, kind := Get(fields, "$ref"), Get(fields, "enum"), Kind(fields);
    var anyOf, oneOf := Get(fields, "anyOf"), Get(fields, "oneOf");
    if ref.Some? then Named(RefName(ref.value))
    else if values.Some? && values.value.Arr? && values.value.items != [] then Literals(values.value.items)
    else if Primitive(lang, kind).Some? then Word(Primitive(lang, kind).value)
    else if kind == "array" then
      var items := Get(fields, "items");
      if items.Some? && items.value.Obj? then
        (GetIsSmaller(fields, "items"); ListOf(TypeOf(lang, items.value)))
      else ListOf(Word(AnyWord(lang)))
    else if kind == "object" then
      var additional := Get(fields, "additionalProperties");
      if additional.Some? && additional.value.Obj? then
        (GetIsSmaller(fields, "additionalProperties"); DictOf(TypeOf(lang, additional.value)))
      else DictOf(Word(AnyWord(lang)))
    else if anyOf.Some? && anyOf.value.Arr? then
      (GetIsSmaller(fields, "anyOf"); MakeUnion(lang, TypesOf(lang, anyOf.value.items)))
    else if oneOf.Some? && oneOf.value.Arr? then
      (GetIsSmaller(fields, "oneOf"); MakeUnion(lang, TypesOf(lang, oneOf.value.items)))
    else Word(AnyWord(lang))
  }

  function TypesOf(lang: Language, items: seq<Json>): seq<TypeExpr>
    decreases items, 0
  {
    if items == [] then []
    else (if items[0].Obj? then [TypeOf(lang, items[0])] else []) + TypesOf(lang, items[1..])
  }

  lemma {:induction false} GetIsSmaller(fields: seq<Field>, key: string)
    ensures var v := Get(fields, key); v.Some? ==>
              exists i :: 0 <= i < |fields| && fields[i].value == v.value
    ensures var v := Get(fields, key); v.Some? ==> v.value < Obj(fields)
  {
    GetIsMember(fields, key);
  }

  lemma {:induction false} GetIsMember(fields: seq<Field>, key: string)
    ensures var v := Get(fields, key); v.Some? ==>
              exists i :: 0 <= i < |fields| && fields[i].value == v.value
  {
    if fields != [] && fields[0].key != key {
      GetIsMember(fields[1..], key);
      var v := Get(fields, key);
      if v.Some? {
        var i :| 0 <= i < |fields[1..]| && fields[1..][i].value == v.value;
        assert fields[i + 1].value == v.value;
      }
    }
  }

  ghost predicate Mentions(t: TypeExpr, name: string) {
    match t
    case Named(n) => n == name
    case Word(_) => false
    case Literals(_) => false
    case ListOf(e) => Mentions(e, name)
    case DictOf(e) => Mentions(e, name)
    case Union(members) => exists i :: 0 <= i < |members| && Mentions(members[i], name)
  }

  // ---------- printed names are selected ----------

  /** Every "$ref" inside the node points into the components. */
  predicate WellFormedRefs(node: Json)
    decreases node, 1
  {
    match node
    case Obj(fields) =>
      var r := Get(fields, "$ref");
      (r.Some? ==> r.value.Str? && REF_PREFIX <= r.value.s) && WellFormedFields(fields)
    case Arr(items) => WellFormedItems(items)
    case _ => true
  }

  predicate WellFormedFields(fields: seq<Field>)
    decreases fields, 0
  {
    fields == [] || (WellFormedRefs(fields[0].value) && WellFormedFields(fields[1..]))
  }

  predicate WellFormedItems(items: seq<Json>)
    decreases items, 0
  {
    items == [] || (WellFormedRefs(items[0]) && WellFormedItems(items[1..]))
  }

  lemma {:induction false} FieldPart(fields: seq<Field>, key: string)
    requires WellFormedFields(fields) && Get(fields, key).Some?
    ensures WellFormedRefs(Get(fields, key).value)
    ensures forall n :: n in IterRefs(Get(fields, key).value) ==> n in FieldRefs(fields)
  {
    if fields[0].key != key {
      FieldPart(fields[1..], key);
    }
  }

  lemma {:induction false} DedupKeeps(ts: seq<TypeExpr>)
    ensures forall t :: t in DedupTypes(ts) ==> t in ts
  {
    if ts != [] {
      DedupKeeps(ts[..|ts| - 1]);
    }
  }

  lemma {:induction false} DropKeeps(ts: seq<TypeExpr>, any: string)
    ensures forall t :: t in Drop(ts, any) ==> t in ts
  {
    if ts != [] {
      DropKeeps(ts[1..], any);
    }
  }

  lemma UnionMentions(lang: Language, members: seq<TypeExpr>, name: string)
    requires Mentions(MakeUnion(lang, members), name)
    ensures exists t :: t in members && Mentions(t, name)
  {
    DedupKeeps(members);
    DropKeeps(DedupTypes(members), AnyWord(lang));
    var u := MakeUnion(lang, members);
    var i :| 0 <= i < |u.members| && Mentions(u.members[i], name);
    assert u.members[i] in members;
  }

  /** A printed name is always one of the references found by `_iter_refs`. */
  lemma {:induction false} NamesAreRefs(lang: Language, schema: Json, name: string)
    requires schema.Obj? && WellFormedRefs(schema) && Mentions(TypeOf(lang, schema), name)
    ensures name in IterRefs(schema)
    decreases schema, 1
  {
    var fields, t := schema.fields, TypeOf(lang, schema);
    if Get(fields, "$ref").Some? {
    } else if t.ListOf? {
      FieldPart(fields, "items");
      GetIsSmaller(fields, "items");
      NamesAreRefs(lang, Get(fields, "items").value, name);
    } else if t.DictOf? {
      FieldPart(fields, "additionalProperties");
      GetIsSmaller(fields, "additionalProperties");
      NamesAreRefs(lang, Get(fields, "additionalProperties").value, name);
    } else if t.Union? {
      var anyOf := Get(fields, "anyOf");
      var key := if anyOf.Some? && anyOf.value.Arr? then "anyOf" else "oneOf";
      var items := Get(fields, key).value.items;
      FieldPart(fields, key);
      GetIsSmaller(fields, key);
      UnionMentions(lang, TypesOf(lang, items), name);
      var m :| m in TypesOf(lang, items) && Mentions(m, name);
      MemberNames(lang, items, m, name);
    }
  }

  lemma {:induction false} MemberNames(lang: Language, items: seq<Json>, m: TypeExpr, name: string)
    requires WellFormedItems(items) && m in TypesOf(lang, items) && Mentions(m, name)
    ensures name in ItemRefs(items)
    decreases items, 0
  {
    if items[0].Obj? && m == TypeOf(lang, items[0]) {
      NamesAreRefs(lang, items[0], name);
    } else {
      MemberNames(lang, items[1..], m, name);
    }
  }

  /** The types printed for one selected schema: one per property, or the type of
      the schema itself. */
  function PrintedTypes(lang: Language, schema: Json): seq<TypeExpr>
    requires schema.Obj?
  {
    var props := Get(schema.fields, "properties");
    if Kind(schema.fields) == "object" && props.Some? && props.value.Obj? then PropertyTypes(lang, props.value.fields)
    else [TypeOf(lang, schema)]
  }

  function PropertyTypes(lang: Language, props: seq<Field>): seq<TypeExpr> {
    if props == [] then []
    else
      [if props[0].value.Obj? then TypeOf(lang, props[0].value) else Word(AnyWord(lang))] + PropertyTypes(lang, props[1..])
  }

  lemma {:induction false} PropertyNames(lang: Language, props: seq<Field>, t: TypeExpr, name: string)
    requires WellFormedFields(props) && t in PropertyTypes(lang, props) && Mentions(t, name)
    ensures name in FieldRefs(props)
  {
    if props[0].value.Obj? && t == TypeOf(lang, props[0].value) {
      NamesAreRefs(lang, props[0].value, name);
    } else {
      PropertyNames(lang, props[1..], t, name);
    }
  }

  /** In the generated models every printed schema name is itself generated. */
  lemma {:induction false} PrintedNamesAreSelected(lang: Language, components: Components, roots: seq<string>, selected: map<string, Json>,
                                name: string, t: TypeExpr, printed: string)
    requires IsClosure(components, roots, selected) && name in selected
    requires WellFormedRefs(components[name]) && forall n :: n in IterRefs(components[name]) ==> Defined(components, n)
    requires t in PrintedTypes(lang, components[name]) && Mentions(t, printed)
    ensures printed in selected
  {
    var schema := components[name];
    var props := Get(schema.fields, "properties");
    if Kind(schema.fields) == "object" && props.Some? && props.value.Obj? {
      FieldPart(schema.fields, "properties");
      PropertyNames(lang, props.value.fields, t, printed);
      assert printed in IterRefs(props.value);
    } else {
      NamesAreRefs(lang, schema, printed);
    }
    assert Refers(components, name, printed);
    assert Wanted(components, roots, selected.Keys, printed);
  }
}
