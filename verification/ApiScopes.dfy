/** API-key scopes: the matcher (app/core/deps.py) and the migration of legacy
    scopes (scripts/migrate_api_key_scopes.py). */
module ApiScopes {
  import opened Text

  // ---------- parsing ----------

  function Keep(parts: seq<string>): seq<string> {
    if parts == [] then []
    else (if Strip(parts[0]) != "" then [Lower(Strip(parts[0]))] else []) + Keep(parts[1..])
  }

  /** `[part.strip().lower() for part in raw.split(",") if part.strip()]` */
  function Normalize(raw: string): seq<string> { Keep(Split(raw, ',')) }

  /** `dict.fromkeys`: first occurrences, in order. */
  function Dedup(parts: seq<string>): seq<string> {
    if parts == [] then []
    else
      var before, last := Dedup(parts[..|parts| - 1]), parts[|parts| - 1];
      if last in before then before else before + [last]
  }

  function Scopes(raw: string): seq<string> { Dedup(Normalize(raw)) }

  /** `_parse_api_key_scopes` */
  method ParseScopes(raw: string) returns (ordered: seq<string>)
    ensures ordered == Scopes(raw)
    ensures forall s :: s in ordered <==> s in Normalize(raw)
    ensures forall i, j :: 0 <= i < j < |ordered| ==> ordered[i] != ordered[j]
  {
    var parts := Normalize(raw);
    var seen: set<string> := {};
    ordered := [];
    for i := 0 to |parts|
      invariant ordered == Dedup(parts[..i])
      invariant seen == set s | s in ordered
    {
      assert parts[..i + 1][..i] == parts[..i];
      if parts[i] !in seen {
        seen := seen + {parts[i]};
        ordered := ordered + [parts[i]];
      }
    }
    assert parts[..|parts|] == parts;
    DedupMembers(parts);
    DedupDistinct(parts);
  }

  lemma {:induction false} DedupMembers(parts: seq<string>)
    ensures forall s :: s in Dedup(parts) <==> s in parts
    ensures Dedup(parts) == [] <==> parts == []
  {
    if parts != [] {
      DedupMembers(parts[..|parts| - 1]);
      assert parts == parts[..|parts| - 1] + [parts[|parts| - 1]];
    }
  }

  lemma {:induction false} DedupDistinct(parts: seq<string>)
    ensures forall i, j :: 0 <= i < j < |Dedup(parts)| ==> Dedup(parts)[i] != Dedup(parts)[j]
  {
    if parts != [] {
      DedupDistinct(parts[..|parts| - 1]);
    }
  }

  // ---------- the matcher ----------

  datatype Request = Request(verb: string, path: string)

  const PREFIX := "/api/v1/"

  function Action(r: Request): string {
    if r.verb in {"GET", "HEAD", "OPTIONS"} then "read" else "write"
  }

  function Underscored(s: string): (r: string)
    ensures |r| == |s|
  {
    seq(|s|, i requires 0 <= i < |s| => if s[i] == '-' then '_' else s[i])
  }

  function NormalizeResource(value: string): string { Underscored(Lower(Strip(value))) }

  /** The resource a request needs, `api` when the path names none. */
  function Resource(r: Request): string {
    if r.path == "/me" then "auth"
    else if PREFIX <= r.path then
      var first := Lower(Strip(Split(r.path[|PREFIX|..], '/')[0]));
      if first != "" then NormalizeResource(first) else "api"
    else "api"
  }

  function Scoped(resource: string, action: string): string { resource + (":" + action) }

  /** The scopes let a request with this resource and action pass. */
  predicate Permits(scopes: seq<string>, required: string, resource: string, action: string) {
    || "*" in scopes
    || Lower(required) in scopes
    || action in scopes
    || Scoped(resource, action) in scopes || Scoped(resource, "*") in scopes
    || Scoped("api", action) in scopes || Scoped("api", "*") in scopes
  }

  /** `_api_key_allows_scope`; its caller passes the bare action as the required scope. */
  predicate Allows(raw: string, required: string, r: Request) {
    Scopes(raw) != [] && Permits(Scopes(raw), required, Resource(r), Action(r))
  }

  predicate Authorized(raw: string, r: Request) { Allows(raw, Action(r), r) }

  // ---------- the migration targets ----------

  predicate IsReadWrite(unique: seq<string>) {
    "read" in unique && "write" in unique && forall s :: s in unique ==> s == "read" || s == "write"
  }

  function Phase1Target(scopes: string): Option<string> {
    var unique := Scopes(scopes);
    if unique == ["read"] then Some("api:read")
    else if unique == ["write"] then Some("api:write")
    else if IsReadWrite(unique) then Some("api:*")
    else None
  }

  function AllScoped(resources: seq<string>, action: string): seq<string> {
    seq(|resources|, i requires 0 <= i < |resources| => Scoped(resources[i], action))
  }

  function Phase2Target(scopes: string, resources: seq<string>): Option<string> {
    var unique := Scopes(scopes);
    if unique == ["read"] || unique == ["api:read"] then Some(Join(AllScoped(resources, "read"), ','))
    else if unique == ["write"] || unique == ["api:write"] then Some(Join(AllScoped(resources, "write"), ','))
    else if IsReadWrite(unique) || unique == ["api:*"] then Some(Join(AllScoped(resources, "*"), ','))
    else None
  }

  /** What the migration stores for one key: the target computed from the
      stripped scopes, or the old text when nothing is to be changed. */
  function Stored(raw: string, target: Option<string>): string {
    if Strip(raw) == "" || target == None || target.value == "" || target.value == Strip(raw) then raw else target.value
  }

  function Phase1(raw: string): string { Stored(raw, Phase1Target(Strip(raw))) }

  function Phase2(raw: string, resources: seq<string>): string { Stored(raw, Phase2Target(Strip(raw), resources)) }

  // ---------- normal scopes ----------

  /** A scope that parsing leaves alone. */
  predicate Clean(s: string) { Solid(s) && Without(s, ',') && Lower(s) == s }

  lemma StripKeepsWithout(part: string, c: char)
    requires Without(part, c)
    ensures Without(Strip(part), c)
  {
    var w, v := StripParts(part);
    forall i | 0 <= i < |Strip(part)| ensures Strip(part)[i] != c {
      assert part[|w| + i] == Strip(part)[i];
    }
  }

  lemma LowerIsClean(p: string)
    requires Solid(p) && Without(p, ',')
    ensures Clean(Lower(p))
  {
  }

  lemma StripLowerIsClean(part: string)
    requires Without(part, ',') && Strip(part) != ""
    ensures Clean(Lower(Strip(part)))
  {
    StripIsSolid(part);
    StripKeepsWithout(part, ',');
    LowerIsClean(Strip(part));
  }

  lemma {:induction false} KeepIsClean(parts: seq<string>)
    requires forall i :: 0 <= i < |parts| ==> Without(parts[i], ',')
    ensures forall i :: 0 <= i < |Keep(parts)| ==> Clean(Keep(parts)[i])
  {
    if parts != [] {
      KeepIsClean(parts[1..]);
      if Strip(parts[0]) != "" {
        StripLowerIsClean(parts[0]);
      }
    }
  }

  lemma NormalizeIsClean(raw: string)
    ensures forall i :: 0 <= i < |Normalize(raw)| ==> Clean(Normalize(raw)[i])
  {
    SplitPartsPlain(raw, ',');
    KeepIsClean(Split(raw, ','));
  }

  lemma {:induction false} KeepClean(parts: seq<string>)
    requires forall i :: 0 <= i < |parts| ==> Clean(parts[i])
    ensures Keep(parts) == parts
  {
    if parts != [] {
      StripSolid(parts[0]);
      KeepClean(parts[1..]);
    }
  }

  /** Parsing a joined list of clean scopes gives the list back. */
  lemma {:induction false} ParseOfJoin(parts: seq<string>)
    requires parts != [] && forall i :: 0 <= i < |parts| ==> Clean(parts[i])
    ensures Normalize(Join(parts, ',')) == parts
  {
    SplitOfJoin(parts, ',');
    KeepClean(parts);
  }

  lemma {:induction false} KeepSame(parts: seq<string>, others: seq<string>)
    requires |parts| == |others| && forall i :: 0 <= i < |parts| ==> Strip(parts[i]) == Strip(others[i])
    ensures Keep(parts) == Keep(others)
  {
    if parts != [] {
      KeepSame(parts[1..], others[1..]);
    }
  }

  lemma NormalizeFront(w: string, t: string)
    requires Blank(w)
    ensures Normalize(w + t) == Normalize(t)
  {
    assert Without(w, ',');
    SplitFront(w, t, ',');
    StripFront(w, Split(t, ',')[0]);
    KeepSame(Split(w + t, ','), Split(t, ','));
  }

  lemma NormalizeBack(u: string, v: string)
    requires Blank(v)
    ensures Normalize(u + v) == Normalize(u)
  {
    assert Without(v, ',');
    SplitBack(u, v, ',');
    StripBack(Split(u, ',')[|Split(u, ',')| - 1], v);
    KeepSame(Split(u + v, ','), Split(u, ','));
  }

  /** Stripping removes only white space, at both ends. */
  lemma StripParts(raw: string) returns (w: string, v: string)
    ensures raw == w + (Strip(raw) + v) && Blank(w) && Blank(v)
  {
    LStripEnds(raw);
    var t := LStrip(raw);
    w := raw[..|raw| - |t|];
    RStripEnds(t);
    v := t[|RStrip(t)|..];
  }

  /** Parsing ignores white space around the whole text. */
  lemma NormalizeStripped(raw: string)
    ensures Normalize(Strip(raw)) == Normalize(raw)
  {
    var w, v := StripParts(raw);
    NormalizeFront(w, Strip(raw) + v);
    NormalizeBack(Strip(raw), v);
  }

  lemma NormalizeClean(s: string)
    requires Clean(s)
    ensures Scopes(s) == [s]
  {
    ParseOfJoin([s]);
    assert Join([s], ',') == s;
    assert [s][..0] == [];
    assert Dedup([]) == [];
    assert Dedup([s]) == [s];
  }

  lemma ScopedInjective(a: string, x: string, b: string, y: string)
    requires Without(x, ':') && Without(y, ':') && Scoped(a, x) == Scoped(b, y)
    ensures a == b && x == y
  {
    var s, t := Scoped(a, x), Scoped(b, y);
    assert s[|a|] == ':' && t[|b|] == ':';
    assert forall i :: |a| < i < |s| ==> s[i] == x[i - |a| - 1];
    assert forall i :: |b| < i < |t| ==> t[i] == y[i - |b| - 1];
    assert |a| == |b|;
    assert a == s[..|a|] && b == t[..|b|] && x == s[|a| + 1..] && y == t[|b| + 1..];
  }

  // ---------- what legacy and migrated scopes allow ----------

  /** The legacy families the migration rewrites: what each of them grants. */
  function Family(unique: seq<string>): Option<string> {
    if unique == ["read"] || unique == ["api:read"] then Some("read")
    else if unique == ["write"] || unique == ["api:write"] then Some("write")
    else if IsReadWrite(unique) || unique == ["api:*"] then Some("*")
    else None
  }

  predicate Grants(family: string, action: string) { family == "*" || family == action }

  lemma ActionIsReadOrWrite(r: Request)
    ensures Action(r) == "read" || Action(r) == "write"
    ensures Lower(Action(r)) == Action(r)
  {
  }

  /** One bare scope permits its own action on every resource. */
  lemma BarePermits(f: string, resource: string, act: string)
    requires (f == "read" || f == "write") && (act == "read" || act == "write")
    ensures Permits([f], act, resource, act) <==> f == act
  {
    LegacyScopeNames();
    assert Lower("read") == "read" && Lower("write") == "write";
    ScopedHasColon(resource, act);
    ScopedHasColon(resource, "*");
    ScopedHasColon("api", act);
    ScopedHasColon("api", "*");
  }

  /** One `api:` scope permits its own action on every resource. */
  lemma ApiPermits(f: string, resource: string, act: string)
    requires f in {"read", "write", "*"} && (act == "read" || act == "write")
    ensures Permits([Scoped("api", f)], act, resource, act) <==> Grants(f, act)
  {
    assert AllScoped(["api"], f) == [Scoped("api", f)];
    ScopedPermits(["api"], f, resource, act);
  }

  /** A key of a legacy family is allowed exactly the actions of the family, on
      every resource. */
  lemma {:induction false} LegacyAuthorization(raw: string, r: Request)
    requires Family(Scopes(raw)).Some?
    ensures Authorized(raw, r) <==> Grants(Family(Scopes(raw)).value, Action(r))
  {
    var scopes, act := Scopes(raw), Action(r);
    ActionIsReadOrWrite(r);
    LegacyScopeNames();
    if IsReadWrite(scopes) {
      assert act in scopes;
    } else if scopes == ["read"] || scopes == ["write"] {
      BarePermits(scopes[0], Resource(r), act);
    } else {
      ApiPermits(Family(scopes).value, Resource(r), act);
    }
  }

  lemma LegacyScopeNames()
    ensures Scoped("api", "read") == "api:read" && Scoped("api", "write") == "api:write" && Scoped("api", "*") == "api:*"
    ensures Without("read", ':') && Without("write", ':') && Without("*", ':')
  {
  }

  lemma ScopedHasColon(resource: string, action: string)
    ensures !Without(Scoped(resource, action), ':')
  {
    assert Scoped(resource, action)[|resource|] == ':';
  }

  lemma ScopedIsClean(resource: string, action: string)
    requires Clean(resource) && action in {"read", "write", "*"}
    ensures Clean(Scoped(resource, action))
  {
  }

  /** The migrated scopes permit exactly the actions of the family on the listed
      resources (on all of them when `api` is listed). */
  lemma ScopedPermits(resources: seq<string>, f: string, resource: string, act: string)
    requires f in {"read", "write", "*"} && (act == "read" || act == "write")
    ensures Permits(AllScoped(resources, f), act, resource, act) <==>
            Grants(f, act) && (resource in resources || "api" in resources)
  {
    var parts := AllScoped(resources, f);
    LegacyScopeNames();
    assert Lower("read") == "read" && Lower("write") == "write";
    forall i | 0 <= i < |parts| ensures parts[i] != "*" && parts[i] != act {
      ScopedHasColon(resources[i], f);
    }
    ScopedMember(resources, f, resource, act);
    ScopedMember(resources, f, resource, "*");
    ScopedMember(resources, f, "api", act);
    ScopedMember(resources, f, "api", "*");
  }

  lemma PermitsByMembers(a: seq<string>, b: seq<string>, required: string, resource: string, action: string)
    requires forall s :: s in a <==> s in b
    ensures Permits(a, required, resource, action) == Permits(b, required, resource, action)
  {
  }

  lemma MigratedScopes(resources: seq<string>, f: string)
    requires resources != [] && f in {"read", "write", "*"}
    requires forall i :: 0 <= i < |resources| ==> Clean(resources[i])
    ensures Normalize(Join(AllScoped(resources, f), ',')) == AllScoped(resources, f)
  {
    var parts := AllScoped(resources, f);
    forall i | 0 <= i < |parts| ensures Clean(parts[i]) {
      ScopedIsClean(resources[i], f);
    }
    ParseOfJoin(parts);
  }

  /** A migrated key allows exactly the actions of its family on the listed
      resources (on all of them when `api` is listed). */
  lemma {:induction false} MigratedAuthorization(resources: seq<string>, f: string, r: Request)
    requires resources != [] && f in {"read", "write", "*"}
    requires forall i :: 0 <= i < |resources| ==> Clean(resources[i])
    ensures Authorized(Join(AllScoped(resources, f), ','), r) <==>
            Grants(f, Action(r)) && (Resource(r) in resources || "api" in resources)
  {
    var parts := AllScoped(resources, f);
    MigratedScopes(resources, f);
    DedupMembers(parts);
    PermitsByMembers(Dedup(parts), parts, Action(r), Resource(r), Action(r));
    ActionIsReadOrWrite(r);
    ScopedPermits(resources, f, Resource(r), Action(r));
  }

  lemma ScopedMember(resources: seq<string>, f: string, resource: string, action: string)
    requires f in {"read", "write", "*"} && action in {"read", "write", "*"}
    ensures Scoped(resource, action) in AllScoped(resources, f) <==> f == action && resource in resources
  {
    var parts := AllScoped(resources, f);
    LegacyScopeNames();
    if Scoped(resource, action) in parts {
      var i :| 0 <= i < |parts| && parts[i] == Scoped(resource, action);
      ScopedInjective(resource, action, resources[i], f);
    }
    if f == action && resource in resources {
      var i :| 0 <= i < |resources| && resources[i] == resource;
      assert parts[i] == Scoped(resource, action);
    }
  }

  // ---------- the two phases ----------

  /** Phase 1 changes no decision, for any key and any request. */
  lemma {:induction false} Phase1PreservesAuthorization(raw: string, r: Request)
    ensures Authorized(Phase1(raw), r) <==> Authorized(raw, r)
  {
    if Phase1(raw) != raw {
      Phase1Result(raw);
      ApiFamily(Family(Scopes(raw)).value);
      LegacyAuthorization(raw, r);
      LegacyAuthorization(Phase1(raw), r);
    }
  }

  /** What phase 2 leaves behind. */
  lemma Phase2Result(raw: string, resources: seq<string>)
    requires resources != []
    ensures var f := Family(Scopes(raw));
            if f == None then Phase2(raw, resources) == raw
            else Normalize(Phase2(raw, resources)) == Normalize(Join(AllScoped(resources, f.value), ','))
  {
    NormalizeStripped(raw);
    Phase2TargetOfFamily(Strip(raw), resources);
    var f := Family(Scopes(raw));
    if f.Some? {
      JoinNotLegacy(resources, f.value);
      StripOfLegacy(raw);
    }
  }

  /** Phase 2 grants exactly what the old key granted, on the listed resources. */
  lemma {:induction false} Phase2Authorization(raw: string, resourcesArg: string, r: Request)
    requires Normalize(resourcesArg) != []
    ensures var resources := Normalize(resourcesArg);
            Authorized(Phase2(raw, resources), r) <==>
              Authorized(raw, r) && (Family(Scopes(raw)) == None || Resource(r) in resources || "api" in resources)
  {
    var resources := Normalize(resourcesArg);
    var f := Family(Scopes(raw));
    Phase2Result(raw, resources);
    if f.Some? {
      NormalizeIsClean(resourcesArg);
      LegacyAuthorization(raw, r);
      MigratedAuthorization(resources, f.value, r);
    }
  }

  lemma JoinNotLegacy(resources: seq<string>, f: string)
    requires resources != []
    ensures Join(AllScoped(resources, f), ',') != ""
  {
  }

  lemma StripOfLegacy(raw: string)
    requires Scopes(raw) != []
    ensures Strip(raw) != ""
  {
    NormalizeStripped(raw);
    assert Split("", ',') == [""] && Strip("") == "";
    assert Keep([""]) == Keep([]) == [];
  }

  /** A legacy key loses every request on a resource that is not listed. */
  lemma UnlistedIsLost(raw: string, resourcesArg: string, r: Request)
    requires Normalize(resourcesArg) != [] && Family(Scopes(raw)).Some?
    requires Resource(r) !in Normalize(resourcesArg) && "api" !in Normalize(resourcesArg)
    ensures !Authorized(Phase2(raw, Normalize(resourcesArg)), r)
    ensures Authorized(raw, r) <==> Grants(Family(Scopes(raw)).value, Action(r))
  {
    LegacyAuthorization(raw, r);
    Phase2Authorization(raw, resourcesArg, r);
  }

  /** The list used when none is given. */
  const DEFAULT_RESOURCES: seq<string> := [
    "admin", "agents", "api_keys", "approvals", "auth", "briefing", "commands", "contacts", "control",
    "dashboard_kpi", "data_collection", "email", "executions", "export", "finance", "github", "goals", "health",
    "inbox", "integrations", "intelligence", "layers", "memory", "mfa", "notes", "notifications", "observability",
    "ops", "orgs", "projects", "search", "social", "tasks", "users", "webhooks"]

  predicate IsWordChar(c: char) { 'a' <= c <= 'z' || c == '_' }

  predicate IsWord(s: string) { s != "" && forall i :: 0 <= i < |s| ==> IsWordChar(s[i]) }

  lemma WordIsClean(s: string)
    requires IsWord(s)
    ensures Clean(s)
  {
    assert Lower(s) == s;
  }

  lemma FirstDefaults()
    ensures forall i :: 0 <= i < 18 ==> IsWord(DEFAULT_RESOURCES[i])
  {
  }

  lemma LastDefaults()
    ensures forall i :: 18 <= i < |DEFAULT_RESOURCES| ==> IsWord(DEFAULT_RESOURCES[i])
  {
  }

  /** The default argument is read back as the default list. */
  lemma DefaultsParse()
    ensures Normalize(Join(DEFAULT_RESOURCES, ',')) == DEFAULT_RESOURCES
  {
    FirstDefaults();
    LastDefaults();
    forall i | 0 <= i < |DEFAULT_RESOURCES| ensures Clean(DEFAULT_RESOURCES[i]) {
      WordIsClean(DEFAULT_RESOURCES[i]);
    }
    ParseOfJoin(DEFAULT_RESOURCES);
  }

  lemma DealsNotListed()
    ensures "deals" !in DEFAULT_RESOURCES
  {
  }

  lemma ApiNotListed()
    ensures "api" !in DEFAULT_RESOURCES
  {
  }

  // ---------- the resource of a path ----------

  /** Whether a character of a path may stand for a character of the resource: the
      case of letters does not matter, and a hyphen is as good as an underscore. */
  predicate StandsFor(c: char, d: char) {
    c == d || (c == '-' && d == '_') || (IsLowerCase(d) && c as int == d as int - 32)
  }

  /** A resource in its one written form. */
  predicate IsResource(word: string) {
    Solid(word) && forall i :: 0 <= i < |word| ==> word[i] !in {'/', '-'} && !('A' <= word[i] <= 'Z')
  }

  predicate Spells(segment: string, word: string) {
    |segment| == |word| && forall i :: 0 <= i < |word| ==> StandsFor(segment[i], word[i])
  }

  predicate EndsSegment(rest: string) { rest == "" || rest[0] == '/' }

  lemma FirstSegment(segment: string, rest: string)
    requires Without(segment, '/') && EndsSegment(rest)
    ensures Split(segment + rest, '/')[0] == segment
  {
    if rest == "" {
      assert segment + rest == segment;
      SplitPlain(segment, '/');
    } else {
      assert segment + rest == segment + ['/'] + rest[1..];
      SplitFirst(segment, '/', rest[1..]);
    }
  }

  lemma SpelledIsNormal(segment: string, word: string)
    requires IsResource(word) && Spells(segment, word)
    ensures Solid(segment) && Without(segment, '/') && Underscored(Lower(segment)) == word
  {
  }

  lemma LowerTwice(s: string)
    ensures Lower(Lower(s)) == Lower(s)
  {
  }

  lemma LowerIsSolid(s: string)
    requires Solid(s)
    ensures Solid(Lower(s))
  {
  }

  lemma BehindPrefix(tail: string)
    ensures PREFIX <= PREFIX + tail && (PREFIX + tail)[|PREFIX|..] == tail && PREFIX + tail != "/me"
  {
    assert (PREFIX + tail)[1] == 'a';
  }

  /** However the first segment is spelled, whatever white space surrounds it and
      whatever follows it, the path names this resource. */
  lemma SpelledResource(verb: string, w: string, segment: string, v: string, rest: string, word: string)
    requires IsResource(word) && Spells(segment, word) && EndsSegment(rest)
    requires Blank(w) && Blank(v)
    ensures Resource(Request(verb, PREFIX + (w + (segment + v) + rest))) == word
  {
    var first := w + (segment + v);
    SpelledIsNormal(segment, word);
    BehindPrefix(first + rest);
    FirstSegment(first, rest);
    StripAround(w, segment, v);
    LowerIsSolid(segment);
    StripSolid(Lower(segment));
    LowerTwice(segment);
  }

  /** Every segment is such a spelling, of one resource only. */
  lemma EverySegmentSpellsOne(segment: string, word: string)
    requires Solid(segment) && Without(segment, '/')
    ensures IsResource(word) && Spells(segment, word) <==> word == Resource(Request("", PREFIX + segment))
  {
    var name := Underscored(Lower(segment));
    assert IsResource(name) && Spells(segment, name);
    assert "" + (segment + "") + "" == segment;
    SpelledResource("", "", segment, "", "", name);
    if IsResource(word) && Spells(segment, word) {
      SpelledIsNormal(segment, word);
    }
  }

  /** A path whose first segment is blank, and every path outside the prefix but one,
      names the whole API. */
  lemma UnnamedResource(r: Request, w: string, rest: string)
    requires r.path != "/me" && Blank(w) && EndsSegment(rest)
    requires r.path == PREFIX + (w + rest) || !(PREFIX <= r.path)
    ensures Resource(r) == "api"
  {
    if r.path == PREFIX + (w + rest) {
      BehindPrefix(w + rest);
      FirstSegment(w, rest);
      StripFront(w, "");
      assert w + "" == w;
    }
  }

  predicate IsReading(verb: string) { verb == "GET" || verb == "HEAD" || verb == "OPTIONS" }

  /** The action a scope must name, or `*`. */
  predicate Covers(act: string, verb: string) { act == "*" || (act == "read" <==> IsReading(verb)) }

  lemma CoversGrants(act: string, r: Request)
    requires act in {"read", "write", "*"}
    ensures Covers(act, r.verb) <==> Grants(act, Action(r))
  {
    assert "read" != "write" && "read" != "*" && "write" != "*";
  }

  /** What a key with one scope may do, and nothing else. */
  lemma OneScope(resource: string, act: string, r: Request)
    requires Clean(resource) && act in {"read", "write", "*"}
    ensures Authorized(Scoped(resource, act), r) <==>
            Covers(act, r.verb) && (Resource(r) == resource || resource == "api")
  {
    assert AllScoped([resource], act) == [Scoped(resource, act)];
    MigratedAuthorization([resource], act, r);
    CoversGrants(act, r);
  }

  /** The same for a path, whatever the spelling of its first segment. */
  lemma OneScopeOnPath(resource: string, act: string, verb: string, segment: string, rest: string, word: string)
    requires Clean(resource) && act in {"read", "write", "*"}
    requires IsResource(word) && Spells(segment, word) && EndsSegment(rest)
    ensures Authorized(resource + (":" + act), Request(verb, PREFIX + (segment + rest))) <==>
            Covers(act, verb) && (resource == word || resource == "api")
  {
    SpelledResource(verb, "", segment, "", rest, word);
    assert "" + (segment + "") == segment;
    OneScope(resource, act, Request(verb, PREFIX + (segment + rest)));
  }

  /** The profile of the caller belongs to the resource `auth`. */
  lemma OneScopeOnProfile(resource: string, act: string, verb: string)
    requires Clean(resource) && act in {"read", "write", "*"}
    ensures Authorized(resource + (":" + act), Request(verb, "/me")) <==>
            Covers(act, verb) && (resource == "auth" || resource == "api")
  {
    OneScope(resource, act, Request(verb, "/me"));
  }

  lemma BareScopes(f: string, r: Request)
    requires f == "read" || f == "write"
    ensures Authorized(f, r) <==> Covers(f, r.verb)
  {
    assert Lower("read") == "read" && Lower("write") == "write";
    NormalizeClean(f);
    LegacyAuthorization(f, r);
    CoversGrants(f, r);
  }

  /** The scope `*` allows every request. */
  lemma StarAllowsAll(r: Request)
    ensures Authorized("*", r)
  {
    assert Lower("*") == "*";
    NormalizeClean("*");
  }

  /** A word that is neither `*` nor an action allows nothing. */
  lemma OtherWordsAllowNothing(s: string, r: Request)
    requires Clean(s) && Without(s, ':') && s !in {"*", "read", "write"}
    ensures !Authorized(s, r)
  {
    NormalizeClean(s);
    ActionIsReadOrWrite(r);
    ScopedHasColon(Resource(r), Action(r));
    ScopedHasColon(Resource(r), "*");
    ScopedHasColon("api", Action(r));
    ScopedHasColon("api", "*");
  }

  lemma PermitsOneByOne(scopes: seq<string>, required: string, resource: string, action: string)
    ensures Permits(scopes, required, resource, action) <==>
              exists s :: s in scopes && Permits([s], required, resource, action)
  {
    forall s | s in scopes && Permits([s], required, resource, action)
      ensures Permits(scopes, required, resource, action)
    {
      assert forall t :: t in [s] ==> t in scopes;
    }
    if Permits(scopes, required, resource, action) {
      var s :| s in scopes && s in {"*", Lower(required), action, Scoped(resource, action), Scoped(resource, "*"),
                                    Scoped("api", action), Scoped("api", "*")};
      assert s in [s] && Permits([s], required, resource, action);
    }
  }

  /** A key may do exactly what one of its scopes alone allows. */
  lemma ScopeByScope(raw: string, r: Request)
    ensures Authorized(raw, r) <==> exists s :: s in Normalize(raw) && Authorized(s, r)
  {
    var all := Normalize(raw);
    DedupMembers(all);
    PermitsByMembers(Scopes(raw), all, Action(r), Resource(r), Action(r));
    PermitsOneByOne(all, Action(r), Resource(r), Action(r));
    NormalizeIsClean(raw);
    forall s | s in all ensures Authorized(s, r) <==> Permits([s], Action(r), Resource(r), Action(r)) {
      NormalizeClean(s);
    }
  }

  /** The scopes of a key: its parts between commas, stripped and in lower case,
      without the blank ones. */
  lemma {:induction false} KeepMembers(parts: seq<string>, s: string)
    ensures s in Keep(parts) <==> s != "" && exists p :: p in parts && Lower(Strip(p)) == s
  {
    if parts != [] {
      KeepMembers(parts[1..], s);
      assert parts == [parts[0]] + parts[1..];
    }
  }

  lemma ApiKeysIsListed()
    ensures DEFAULT_RESOURCES[2] == "api_keys"
  {
  }

  lemma ApiKeysName(word: string)
    requires word == "api_keys"
    ensures Clean(word) && IsResource(word) && Spells("api-keys", word)
  {
    assert Lower(word) == word;
  }

  lemma ResourceOfPath(verb: string, segment: string, word: string)
    requires IsResource(word) && Spells(segment, word)
    ensures Resource(Request(verb, PREFIX + segment)) == word
  {
    SpelledResource(verb, "", segment, "", "", word);
    assert "" + (segment + "") + "" == segment;
  }

  /** A migrated key of one bare action keeps it on every listed resource, and so
      does a key for that resource, however the path spells it. */
  lemma ListedIsKept(f: string, verb: string, segment: string, word: string)
    requires (f == "read" || f == "write") && Covers(f, verb)
    requires word in DEFAULT_RESOURCES && Clean(word) && IsResource(word) && Spells(segment, word)
    ensures var r := Request(verb, PREFIX + segment);
            Authorized(Scoped(word, f), r) && Authorized(Phase2(f, Normalize(Join(DEFAULT_RESOURCES, ','))), r)
  {
    var r := Request(verb, PREFIX + segment);
    ResourceOfPath(verb, segment, word);
    OneScope(word, f, r);
    BareScopes(f, r);
    DefaultsParse();
    Phase2IsSafe(f, Join(DEFAULT_RESOURCES, ','), r);
  }

  lemma ApiKeysPath()
    ensures PREFIX + "api-keys" == "/api/v1/api-keys" && Scoped("api_keys", "read") == "api_keys:read"
  {
  }

  /** Keys for the API keys may read them, under the path that the API serves them
      on, and so may a migrated key for reading. */
  lemma ApiKeysForReading()
    ensures var r := Request("GET", "/api/v1/api-keys");
            && Authorized("api_keys:read", r)
            && Authorized(Phase2("read", Normalize(Join(DEFAULT_RESOURCES, ','))), r)
  {
    ApiKeysName("api_keys");
    ApiKeysIsListed();
    ApiKeysPath();
    ListedIsKept("read", "GET", "api-keys", "api_keys");
  }

  lemma ReadIsLegacy()
    ensures Scopes("read") == ["read"]
  {
    assert Lower("read") == "read";
    NormalizeClean("read");
  }

  /** With the default list a key for reading loses the deals, which the API serves
      under a prefix that the list omits. */
  lemma DefaultListLosesDeals()
    ensures var r := Request("GET", "/api/v1/deals");
            && Authorized("read", r)
            && !Authorized(Phase2("read", Normalize(Join(DEFAULT_RESOURCES, ','))), r)
  {
    var r := Request("GET", "/api/v1/deals");
    assert PREFIX + "deals" == "/api/v1/deals";
    ResourceOfPath("GET", "deals", "deals");
    ReadIsLegacy();
    DefaultsParse();
    DealsNotListed();
    ApiNotListed();
    UnlistedIsLost("read", Join(DEFAULT_RESOURCES, ','), r);
  }

  /** Phase 2 never grants a request that the old scopes refused, and agrees on
      every request whose resource is listed. */
  lemma {:induction false} Phase2IsSafe(raw: string, resourcesArg: string, r: Request)
    requires Normalize(resourcesArg) != []
    ensures Authorized(Phase2(raw, Normalize(resourcesArg)), r) ==> Authorized(raw, r)
    ensures Resource(r) in Normalize(resourcesArg) ==>
              (Authorized(Phase2(raw, Normalize(resourcesArg)), r) <==> Authorized(raw, r))
  {
    Phase2Authorization(raw, resourcesArg, r);
  }

  /** The families that phase 1 rewrites. */
  predicate IsBare(unique: seq<string>) { unique == ["read"] || unique == ["write"] || IsReadWrite(unique) }

  lemma ApiScopeIsNormal(f: string)
    requires f in {"read", "write", "*"}
    ensures var out := Scoped("api", f); Strip(out) == out && Scopes(out) == [out] && !Without(out, ':')
  {
    assert Lower("api") == "api" && Clean("api");
    ScopedIsClean("api", f);
    NormalizeClean(Scoped("api", f));
    StripSolid(Scoped("api", f));
    ScopedHasColon("api", f);
  }

  /** What phase 1 leaves behind when it changes a key. */
  lemma Phase1Result(raw: string)
    requires Phase1(raw) != raw
    ensures var f, out := Family(Scopes(raw)), Phase1(raw);
            && IsBare(Scopes(raw)) && f.Some? && f.value in {"read", "write", "*"}
            && out == Scoped("api", f.value) && Strip(out) == out && Scopes(out) == [out] && out != Strip(raw)
  {
    NormalizeStripped(raw);
    Phase1TargetOfFamily(Strip(raw));
    ApiScopeIsNormal(Family(Scopes(raw)).value);
  }

  lemma ApiFamily(f: string)
    requires f in {"read", "write", "*"}
    ensures Family([Scoped("api", f)]) == Some(f)
  {
    LegacyScopeNames();
    assert [Scoped("api", f)][0] == Scoped("api", f);
    ScopedHasColon("api", f);
  }

  /** The families, by the scopes that a key has. */
  lemma Families(unique: seq<string>)
    ensures Family(unique) == Some("read") <==> unique == ["read"] || unique == ["api:read"]
    ensures Family(unique) == Some("write") <==> unique == ["write"] || unique == ["api:write"]
    ensures Family(unique) == Some("*") <==> (set s | s in unique) == {"read", "write"} || unique == ["api:*"]
  {
    ReadWriteExactly(unique);
    assert "read" != "write" && "read" != "*" && "write" != "*";
  }

  lemma ReadWriteExactly(unique: seq<string>)
    ensures IsReadWrite(unique) <==> (set s | s in unique) == {"read", "write"}
    ensures IsReadWrite(unique) ==> unique != ["read"] && unique != ["write"] && unique != ["api:read"] && unique != ["api:write"]
  {
    var all := set s | s in unique;
    if IsReadWrite(unique) {
      assert forall s :: s in all <==> s in {"read", "write"};
    }
    if all == {"read", "write"} {
      assert "read" in all && "write" in all;
      assert forall s :: s in unique ==> s in all;
    }
  }

  /** Phase 1 renames every key of a bare family, and leaves all others alone. */
  lemma Phase1Renames(raw: string)
    ensures Scopes(raw) == ["read"] ==> Phase1(raw) == "api:read"
    ensures Scopes(raw) == ["write"] ==> Phase1(raw) == "api:write"
    ensures (set s | s in Scopes(raw)) == {"read", "write"} ==> Phase1(raw) == "api:*"
    ensures Phase1(raw) != raw ==>
              Scopes(raw) == ["read"] || Scopes(raw) == ["write"] || (set s | s in Scopes(raw)) == {"read", "write"}
  {
    NormalizeStripped(raw);
    LegacyScopeNames();
    ReadWriteExactly(Scopes(raw));
    Phase1TargetOfFamily(Strip(raw));
    if IsBare(Scopes(raw)) {
      var f := Family(Scopes(raw)).value;
      ApiScopeIsNormal(f);
      StripOfLegacy(raw);
      ScopedHasColon("api", f);
      assert Strip(raw) != Scoped("api", f);
    }
  }

  /** Phase 1 renames the bare families. */
  lemma Phase1TargetOfFamily(scopes: string)
    ensures IsBare(Scopes(scopes)) ==>
              && Family(Scopes(scopes)).Some? && Family(Scopes(scopes)).value in {"read", "write", "*"}
              && Phase1Target(scopes) == Some(Scoped("api", Family(Scopes(scopes)).value))
    ensures !IsBare(Scopes(scopes)) ==> Phase1Target(scopes) == None
  {
    LegacyScopeNames();
  }

  /** The new text differs from the old one. */
  lemma Phase2Changes(scopes: string, resources: seq<string>, f: string)
    requires resources != [] && (forall i :: 0 <= i < |resources| ==> Clean(resources[i]))
    requires f in {"read", "write", "*"}
    requires IsBare(Scopes(scopes))
    ensures Join(AllScoped(resources, f), ',') != scopes
  {
    var parts := AllScoped(resources, f);
    MigratedScopes(resources, f);
    DedupMembers(parts);
    LegacyScopeNames();
    ScopedHasColon(resources[0], f);
    assert parts[0] in parts && parts[0] != "read" && parts[0] != "write";
  }

  /** Running phase 1 first makes no difference to phase 2. */
  lemma {:induction false} Phase2AfterPhase1(raw: string, resourcesArg: string)
    requires Normalize(resourcesArg) != []
    ensures Phase2(Phase1(raw), Normalize(resourcesArg)) == Phase2(raw, Normalize(resourcesArg))
  {
    var resources := Normalize(resourcesArg);
    if Phase1(raw) != raw {
      Phase1Result(raw);
      NormalizeIsClean(resourcesArg);
      var f := Family(Scopes(raw)).value;
      var target := Join(AllScoped(resources, f), ',');
      NormalizeStripped(raw);
      Phase2TargetOfFamily(Strip(raw), resources);
      ApiFamily(f);
      Phase2TargetOfFamily(Phase1(raw), resources);
      JoinNotLegacy(resources, f);
      Phase2Changes(Strip(raw), resources, f);
    }
  }

  /** Phase 2 looks at the family only. */
  lemma Phase2TargetOfFamily(scopes: string, resources: seq<string>)
    ensures var f := Family(Scopes(scopes));
            Phase2Target(scopes, resources) == if f == None then None else Some(Join(AllScoped(resources, f.value), ','))
  {
  }
}
