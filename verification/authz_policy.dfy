// Kits, grants and what they mean: internal/authz/kits.go and internal/authz/grants.go.
module AuthzPolicy {
  import opened Text
  import opened AuthzIds
  import opened AuthzModel
  import opened SortedStrings

  // ---------------------------------------------------------------------------------------------
  // Kit scopes
  // ---------------------------------------------------------------------------------------------

  /** A parsed entry of a kit's grants. An empty field matches any value. */
  datatype KitScope = KitScope(backend: string, access: string)

  /** strings.Cut at the first colon. */
  function Cut(s: string): (r: (string, string, bool)) {
    if s == "" then ("", "", false)
    else if s[0] == ':' then ("", s[1..], true)
    else var (b, a, found) := Cut(s[1..]); ([s[0]] + b, a, found)
  }

  function ParseKitScope(s: string): Result<KitScope> {
    var (b0, a0, hasAccess) := Cut(TrimSpace(s));
    var b, a := TrimSpace(b0), TrimSpace(a0);
    if b == "" then Err
    else if hasAccess && a == "" then Err
    else if ':' in a then Err
    else Ok(KitScope(if b == "*" then "" else b, if a == "*" then "" else a))
  }

  predicate ScopeMatches(s: KitScope, backend: string, access: string) {
    !(s.backend != "" && s.backend != backend) && !(s.access != "" && s.access != access)
  }

  /** The node of the relation graph that has exactly the scope's tools below it. */
  function ScopeObject(s: KitScope): string {
    if s.backend == "" && s.access == "" then INSTANCE
    else if s.access == "" then BackendOf(s.backend)
    else if s.backend == "" then AccessClassOf(s.access)
    else BackendAccessOf(s.backend, s.access)
  }

  predicate ScopeCovers(scope: string, backend: string, access: string) {
    ParseKitScope(scope).Ok? && ScopeMatches(ParseKitScope(scope).value, backend, access)
  }

  // What a scope text says.

  /** Where the access classification is split off; the length when there is none. */
  function Colon(s: string): (i: nat)
    ensures i <= |s| && ':' !in s[..i] && (i < |s| ==> s[i] == ':')
  {
    IndexOf(s, ':')
  }

  predicate AllSpace(s: string) {
    forall c | c in s :: IsSpace(c)
  }

  /** No backend before the colon, no access behind it, or a second colon. */
  predicate RefusedScope(s: string) {
    var i := Colon(s);
    AllSpace(s[..i]) || (i < |s| && (AllSpace(s[i + 1..]) || ':' in s[i + 1..]))
  }

  /** A name, or a star for every name. */
  predicate NameFits(pattern: string, name: string) {
    pattern == "*" || pattern == name
  }

  lemma {:induction false} CutAtColon(s: string)
    ensures var i := Colon(s); Cut(s) == if i < |s| then (s[..i], s[i + 1..], true) else (s, "", false)
    decreases |s|
  {
    if s != "" && s[0] != ':' {
      CutAtColon(s[1..]);
      var i, j := Colon(s), Colon(s[1..]);
      assert s == [s[0]] + s[1..];
      IndexOfIs(s, ':', j + 1) by { assert s[..j + 1] == [s[0]] + s[1..][..j]; }
      if i < |s| {
        assert s[..i] == [s[0]] + s[1..][..j] && s[i + 1..] == s[1..][j + 1..];
      }
    } else if s != "" {
      IndexOfIs(s, ':', 0);
    }
  }

  /** Trimming the text before it is split changes neither part once they are trimmed. */
  lemma TrimmedParts(s: string)
    ensures var (b, a, found) := Cut(TrimSpace(s));
            var i := Colon(s);
            && found == (i < |s|) && TrimSpace(b) == TrimSpace(s[..i])
            && (found ==> TrimSpace(a) == TrimSpace(s[i + 1..]) && (':' in a <==> ':' in s[i + 1..]))
  {
    hide Cut, TrimSpace, IndexOf, IsSpace;
    var left, core, right := SpaceAround(s);
    CutAtColon(core);
    var j := Colon(core);
    ColonNoSpace();
    if j < |core| {
      assert s[..|left| + j] == left + core[..j];
      assert s[|left| + j + 1..] == core[j + 1..] + right;
      IndexOfIs(s, ':', |left| + j);
      TrimSpaceLeft(left, core[..j]);
      TrimSpaceRight(core[j + 1..], right);
    } else {
      assert s[..|s|] == s && core[..j] == core;
      IndexOfIs(s, ':', |s|);
      TrimSpaceLeft(left, core + right);
      TrimSpaceRight(core, right);
      assert left + (core + right) == s;
    }
  }

  lemma ColonNoSpace()
    ensures !IsSpace(':')
  {
  }

  /** What a scope text says of a backend and an access classification. */
  predicate ScopeSays(s: string, backend: string, access: string) {
    var i := Colon(s);
    !RefusedScope(s) && NameFits(TrimSpace(s[..i]), backend) && (i < |s| ==> NameFits(TrimSpace(s[i + 1..]), access))
  }

  /** For every text: whether it is refused, and what it covers otherwise. */
  lemma ScopeExactly(s: string, backend: string, access: string)
    ensures ParseKitScope(s).Err? <==> RefusedScope(s)
    ensures ScopeCovers(s, backend, access) <==> ScopeSays(s, backend, access)
  {
    hide Cut, TrimSpace, Colon;
    TrimmedParts(s);
    var i := Colon(s);
    TrimmedEmpty(s[..i]);
    if i < |s| {
      TrimmedEmpty(s[i + 1..]);
      assert ':' in s[i + 1..] <==> ':' in Cut(TrimSpace(s)).1;
      TrimmedKeeps(Cut(TrimSpace(s)).1, ':');
    } else {
      NoSecondPart(s);
    }
  }

  lemma NoSecondPart(s: string)
    requires !Cut(TrimSpace(s)).2
    ensures TrimSpace(Cut(TrimSpace(s)).1) == ""
  {
    CutAtColon(TrimSpace(s));
  }

  /** A name as it may stand in a scope. */
  predicate PlainName(n: string) {
    n != "" && n != "*" && ':' !in n && !IsSpace(n[0]) && !IsSpace(n[|n| - 1])
  }

  /** The forms that a scope is documented to have, each with space around it and around its colon. */
  lemma ScopeForms(b: string, a: string, l: string, m: string, n: string, r: string, backend: string, access: string)
    requires PlainName(b) && PlainName(a) && AllSpace(l + m + n + r)
    ensures ScopeCovers(l + "*" + r, backend, access)
    ensures ScopeCovers(l + b + r, backend, access) <==> backend == b
    ensures ScopeCovers(l + b + m + ":" + n + a + r, backend, access) <==> backend == b && access == a
    ensures ScopeCovers(l + "*" + m + ":" + n + a + r, backend, access) <==> access == a
    ensures ScopeCovers(l + b + m + ":" + n + "*" + r, backend, access) <==> backend == b
    ensures ScopeCovers(l + "*" + m + ":" + n + "*" + r, backend, access)
  {
    hide ScopeCovers, IsSpace, PlainName;
    StarIsName();
    NameIsName(b);
    NameIsName(a);
    OnePart(b, l, r, backend, access);
    OnePart("*", l, r, backend, access);
    TwoParts(b, a, l, m, n, r, backend, access);
    TwoParts("*", a, l, m, n, r, backend, access);
    TwoParts(b, "*", l, m, n, r, backend, access);
    TwoParts("*", "*", l, m, n, r, backend, access);
  }

  predicate PlainOrStar(n: string) {
    n != "" && ':' !in n && !IsSpace(n[0]) && !IsSpace(n[|n| - 1])
  }

  lemma StarIsName()
    ensures PlainOrStar("*")
  {
  }

  lemma NameIsName(n: string)
    requires PlainName(n)
    ensures PlainOrStar(n) && n != "*"
  {
  }

  lemma {:induction false} OnePart(b: string, l: string, r: string, backend: string, access: string)
    requires PlainOrStar(b) && (forall c | c in l :: IsSpace(c)) && forall c | c in r :: IsSpace(c)
    ensures ScopeCovers(l + b + r, backend, access) <==> NameFits(b, backend)
  {
    hide ScopeCovers, IsSpace, TrimSpace, ParseKitScope, IndexOf;
    var s := l + b + r;
    ColonNoSpace();
    assert s[..|s|] == s && ':' !in s;
    IndexOfIs(s, ':', |s|);
    ScopeExactly(s, backend, access);
    TrimSpaceOf(l, b, r);
    assert b[0] in s by { assert s[|l|] == b[0]; }
  }

  lemma {:induction false} TwoParts(b: string, a: string, l: string, m: string, n: string, r: string, backend: string, access: string)
    requires PlainOrStar(b) && PlainOrStar(a) && AllSpace(l + m + n + r)
    ensures ScopeCovers(l + b + m + ":" + n + a + r, backend, access) <==> NameFits(b, backend) && NameFits(a, access)
  {
    hide ScopeCovers, IsSpace, TrimSpace, ParseKitScope, IndexOf;
    var first, second := l + b + m, n + a + r;
    var s := l + b + m + ":" + n + a + r;
    ColonNoSpace();
    assert s == first + ":" + second && ':' !in first && ':' !in second;
    assert s[..|first|] == first && s[|first| + 1..] == second;
    IndexOfIs(s, ':', |first|);
    ScopeExactly(s, backend, access);
    TrimSpaceOf(l, b, m);
    TrimSpaceOf(n, a, r);
    assert b[0] in first by { assert first[|l|] == b[0]; }
    assert a[0] in second by { assert second[|n|] == a[0]; }
  }

  // ---------------------------------------------------------------------------------------------
  // Kits
  // ---------------------------------------------------------------------------------------------

  datatype Kit = Kit(name: string, grants: seq<string>, tools: seq<string>)

  predicate Covers(k: Kit, tool: string, backend: string, access: string) {
    tool in k.tools || exists g | g in k.grants :: ScopeCovers(g, backend, access)
  }

  predicate PartCovers(k: Kit, p: KitPart, tool: string, backend: string, access: string) {
    || (exists g | g in p.grants :: g in k.grants && ScopeCovers(g, backend, access))
    || (exists t | t in p.tools :: t == tool && t in k.tools)
  }

  /** Err for a part without entries or with one that is not the kit's. */
  function Part(k: Kit, grants: seq<string>, tools: seq<string>): Result<KitPart> {
    if grants == [] && tools == [] then Err
    else if exists g | g in grants :: g !in k.grants then Err
    else if exists t | t in tools :: t !in k.tools then Err
    else Ok(KitPart(k.name, SortedUnique(grants), SortedUnique(tools)))
  }

  function ScopeObjects(grants: seq<string>): seq<string> {
    if grants == [] then []
    else match ParseKitScope(grants[0])
      case Ok(s) => [ScopeObject(s)] + ScopeObjects(grants[1..])
      case Err => ScopeObjects(grants[1..])
  }

  function ToolObjects(tools: seq<string>): seq<string> {
    seq(|tools|, i requires 0 <= i < |tools| => ToolOf(tools[i]))
  }

  function Listed(xs: seq<string>, list: seq<string>): seq<string> {
    if xs == [] then [] else (if xs[0] in list then [xs[0]] else []) + Listed(xs[1..], list)
  }

  /** One node for every entry that part and kit have in common; entries the kit dropped have none. */
  function PartObjects(k: Kit, p: KitPart): seq<string> {
    ScopeObjects(Listed(p.grants, k.grants)) + ToolObjects(Listed(p.tools, k.tools))
  }

  function TuplesOn(user: string, relation: string, objects: seq<string>): seq<TupleKey> {
    seq(|objects|, i requires 0 <= i < |objects| => TupleKey(user, relation, objects[i]))
  }

  function Holder(k: Kit): string {
    Userset(KitOf(k.name), "holder")
  }

  /** One executor tuple for every node of the kit, for the userset of its holders. */
  function KitRules(k: Kit): seq<TupleKey> {
    TuplesOn(Holder(k), EXECUTOR, ScopeObjects(k.grants) + ToolObjects(k.tools))
  }

  /** A kit covers the tools it names and those of its scopes, as these are written. */
  lemma CoversExactly(k: Kit, tool: string, backend: string, access: string)
    ensures Covers(k, tool, backend, access) <==> tool in k.tools || exists g | g in k.grants :: ScopeSays(g, backend, access)
  {
    hide ScopeCovers, ScopeSays;
    forall g { ScopeExactly(g, backend, access); }
  }

  /** A part covers what its entries say, as far as the kit still lists them. */
  lemma PartCoversExactly(k: Kit, p: KitPart, tool: string, backend: string, access: string)
    ensures PartCovers(k, p, tool, backend, access) <==>
              || (tool in p.tools && tool in k.tools)
              || exists g | g in p.grants :: g in k.grants && ScopeSays(g, backend, access)
  {
    hide ScopeCovers, ScopeSays;
    forall g { ScopeExactly(g, backend, access); }
  }

  // ---------------------------------------------------------------------------------------------
  // Objects
  // ---------------------------------------------------------------------------------------------

  lemma DistinctPrefixes(a: string, b: string)
    ensures ToolOf(a) != INSTANCE && BackendOf(a) != INSTANCE && AccessClassOf(a) != INSTANCE
    ensures ToolOf(a) != BackendOf(b) && ToolOf(a) != AccessClassOf(b) && BackendOf(a) != AccessClassOf(b)
    ensures forall x, y :: BackendAccessOf(x, y) != ToolOf(a) && BackendAccessOf(x, y) != INSTANCE
                           && BackendAccessOf(x, y) != AccessClassOf(a) && BackendAccessOf(x, y) != BackendOf(a)
  {
    hide EscapeID, BackendAccessID;
    assert ToolOf(a)[0] == 't' && INSTANCE[0] == 'i' && BackendOf(a)[0] == 'b' && AccessClassOf(a)[0] == 'a';
    assert BackendOf(b)[0] == 'b' && AccessClassOf(b)[0] == 'a';
    forall x, y ensures BackendAccessOf(x, y) != ToolOf(a) && BackendAccessOf(x, y) != INSTANCE
                        && BackendAccessOf(x, y) != AccessClassOf(a) && BackendAccessOf(x, y) != BackendOf(a) {
      assert BackendAccessOf(x, y)[0] == 'b' && BackendAccessOf(x, y)[7] == '_' && BackendOf(a)[7] == ':';
    }
  }

  lemma PrefixInjective(p: string, a: string, b: string)
    requires p + a == p + b
    ensures a == b
  {
    assert a == (p + a)[|p|..] && b == (p + b)[|p|..];
  }

  lemma ObjectsInjective(a: string, b: string)
    ensures ToolOf(a) == ToolOf(b) ==> a == b
    ensures BackendOf(a) == BackendOf(b) ==> a == b
    ensures AccessClassOf(a) == AccessClassOf(b) ==> a == b
  {
    hide EscapeID;
    if ToolOf(a) == ToolOf(b) {
      PrefixInjective("tool:", EscapeID(a), EscapeID(b));
      EscapeInjective(a, b);
    }
    if BackendOf(a) == BackendOf(b) {
      PrefixInjective("backend:", EscapeID(a), EscapeID(b));
      EscapeInjective(a, b);
    }
    if AccessClassOf(a) == AccessClassOf(b) {
      PrefixInjective("access_class:", EscapeID(a), EscapeID(b));
      EscapeInjective(a, b);
    }
  }

  lemma BackendAccessOfInjective(b: string, a: string, b': string, a': string)
    requires BackendAccessOf(b, a) == BackendAccessOf(b', a')
    ensures b == b' && a == a'
  {
    hide BackendAccessID;
    PrefixInjective("backend_access:", BackendAccessID(b, a), BackendAccessID(b', a'));
    BackendAccessInjective(b, a, b', a');
  }

  /** A tool's own object is attached to no other tool. */
  lemma ToolObjectMeaning(r: Request, t: string)
    ensures IsObject(r, ToolOf(t)) <==> t == r.tool
    ensures IsBlockObject(r, ToolOf(t)) <==> t == r.tool
  {
    hide ToolOf, BackendOf, AccessClassOf, BackendAccessOf, INSTANCE;
    ObjectsInjective(t, r.tool);
    DistinctPrefixes(t, r.backend);
    DistinctPrefixes(t, r.access);
  }

  lemma BackendObjectMeaning(r: Request, b: string)
    ensures IsObject(r, BackendOf(b)) <==> r.backend != "" && b == r.backend
    ensures IsBlockObject(r, BackendOf(b)) <==> r.backend != "" && b == r.backend
  {
    hide ToolOf, BackendOf, AccessClassOf, BackendAccessOf, INSTANCE;
    ObjectsInjective(b, r.backend);
    DistinctPrefixes(r.tool, b);
    DistinctPrefixes(b, r.access);
  }

  lemma AccessObjectMeaning(r: Request, a: string)
    ensures IsObject(r, AccessClassOf(a)) <==> r.access != "" && a == r.access
    ensures IsBlockObject(r, AccessClassOf(a)) <==> r.access != "" && a == r.access
  {
    hide ToolOf, BackendOf, AccessClassOf, BackendAccessOf, INSTANCE;
    ObjectsInjective(a, r.access);
    DistinctPrefixes(r.tool, a);
    DistinctPrefixes(r.backend, a);
    DistinctPrefixes(a, a);
  }

  lemma BackendAccessObjectMeaning(r: Request, b: string, a: string)
    ensures IsObject(r, BackendAccessOf(b, a)) <==> r.backend != "" && r.access != "" && b == r.backend && a == r.access
    ensures !IsBlockObject(r, BackendAccessOf(b, a))
  {
    hide ToolOf, BackendOf, AccessClassOf, BackendAccessOf, INSTANCE;
    DistinctPrefixes(r.tool, r.tool);
    DistinctPrefixes(r.backend, r.backend);
    DistinctPrefixes(r.access, r.access);
    if BackendAccessOf(b, a) == BackendAccessOf(r.backend, r.access) {
      BackendAccessOfInjective(b, a, r.backend, r.access);
    }
  }

  /** A scope covers a tool exactly when its object is attached to the tool. */
  lemma ScopeObjectMeaning(s: KitScope, r: Request)
    ensures IsObject(r, ScopeObject(s)) <==> ScopeMatches(s, r.backend, r.access)
  {
    hide ToolOf, BackendOf, AccessClassOf, BackendAccessOf, INSTANCE, IsObject;
    InstanceObject(r);
    BackendObjectMeaning(r, s.backend);
    AccessObjectMeaning(r, s.access);
    BackendAccessObjectMeaning(r, s.backend, s.access);
  }

  lemma InstanceObject(r: Request)
    ensures IsObject(r, INSTANCE) && IsBlockObject(r, INSTANCE)
  {
  }

  lemma {:induction false} ScopeObjectsMeaning(grants: seq<string>, r: Request)
    ensures (exists o | o in ScopeObjects(grants) :: IsObject(r, o)) <==> exists g | g in grants :: ScopeCovers(g, r.backend, r.access)
    decreases |grants|
  {
    hide IsObject, ParseKitScope, ScopeObject, ScopeMatches;
    if grants != [] {
      ScopeObjectsMeaning(grants[1..], r);
      assert grants == [grants[0]] + grants[1..];
      if ParseKitScope(grants[0]).Ok? {
        var o := ScopeObject(ParseKitScope(grants[0]).value);
        ScopeObjectMeaning(ParseKitScope(grants[0]).value, r);
        assert ScopeObjects(grants) == [o] + ScopeObjects(grants[1..]);
        assert IsObject(r, o) <==> ScopeCovers(grants[0], r.backend, r.access);
        assert o in ScopeObjects(grants) && grants[0] in grants;
      } else {
        assert ScopeObjects(grants) == ScopeObjects(grants[1..]) && !ScopeCovers(grants[0], r.backend, r.access);
      }
    }
  }

  lemma ToolObjectsMeaning(tools: seq<string>, r: Request)
    ensures (exists o | o in ToolObjects(tools) :: IsObject(r, o)) <==> r.tool in tools
  {
    hide IsObject, ToolOf;
    if o :| o in ToolObjects(tools) && IsObject(r, o) {
      var i :| 0 <= i < |tools| && ToolOf(tools[i]) == o;
      ToolObjectMeaning(r, tools[i]);
    }
    if r.tool in tools {
      var i :| 0 <= i < |tools| && tools[i] == r.tool;
      ToolObjectMeaning(r, r.tool);
      assert ToolObjects(tools)[i] == ToolOf(r.tool);
    }
  }

  lemma {:induction false} ListedMeaning(xs: seq<string>, list: seq<string>, x: string)
    ensures x in Listed(xs, list) <==> x in xs && x in list
    decreases |xs|
  {
    if xs != [] {
      ListedMeaning(xs[1..], list, x);
      assert xs == [xs[0]] + xs[1..];
    }
  }

  /** The static answer of a kit agrees with the relation graph. */
  lemma CoversIsTheGraph(k: Kit, r: Request)
    ensures Covers(k, r.tool, r.backend, r.access) <==> exists t | t in KitRules(k) :: IsObject(r, t.obj)
  {
    hide IsObject, ScopeCovers, ScopeObjects, ToolObjects;
    ScopeObjectsMeaning(k.grants, r);
    ToolObjectsMeaning(k.tools, r);
    var objects := ScopeObjects(k.grants) + ToolObjects(k.tools);
    TuplesOnMeaning(Holder(k), EXECUTOR, objects, r);
    assert forall o :: o in objects <==> o in ScopeObjects(k.grants) || o in ToolObjects(k.tools);
  }

  lemma TuplesOnMeaning(user: string, relation: string, objects: seq<string>, r: Request)
    ensures (exists t | t in TuplesOn(user, relation, objects) :: IsObject(r, t.obj)) <==> exists o | o in objects :: IsObject(r, o)
    ensures (exists t | t in TuplesOn(user, relation, objects) :: IsBlockObject(r, t.obj)) <==> exists o | o in objects :: IsBlockObject(r, o)
    ensures forall t | t in TuplesOn(user, relation, objects) :: t.user == user && t.relation == relation
  {
    hide IsObject, IsBlockObject;
    forall o | o in objects ensures TupleKey(user, relation, o) in TuplesOn(user, relation, objects) {
      var i :| 0 <= i < |objects| && objects[i] == o;
      assert TuplesOn(user, relation, objects)[i] == TupleKey(user, relation, o);
    }
    if o :| o in objects && IsObject(r, o) {
      assert IsObject(r, TupleKey(user, relation, o).obj);
    }
    if o :| o in objects && IsBlockObject(r, o) {
      assert IsBlockObject(r, TupleKey(user, relation, o).obj);
    }
  }

  /** The static answer of a kit part agrees with the objects a check passes for it. */
  lemma PartCoversIsTheGraph(k: Kit, p: KitPart, r: Request)
    ensures PartCovers(k, p, r.tool, r.backend, r.access) <==> exists o | o in PartObjects(k, p) :: IsObject(r, o)
  {
    hide IsObject, ScopeCovers, ScopeObjects, ToolObjects, Listed;
    ScopeObjectsMeaning(Listed(p.grants, k.grants), r);
    ToolObjectsMeaning(Listed(p.tools, k.tools), r);
    forall x { ListedMeaning(p.grants, k.grants, x); }
    forall x { ListedMeaning(p.tools, k.tools, x); }
    assert forall o :: o in PartObjects(k, p) <==>
             o in ScopeObjects(Listed(p.grants, k.grants)) || o in ToolObjects(Listed(p.tools, k.tools));
  }

  /** Whatever becomes of the kit later, a part of it covers nothing that the kit did not cover then. */
  lemma PartNeverWidens(k: Kit, grants: seq<string>, tools: seq<string>, later: Kit, tool: string, backend: string, access: string)
    requires Part(k, grants, tools).Ok?
    ensures PartCovers(later, Part(k, grants, tools).value, tool, backend, access) ==> Covers(k, tool, backend, access)
    ensures PartCovers(k, Part(k, grants, tools).value, tool, backend, access) <==>
              tool in tools || exists g | g in grants :: ScopeCovers(g, backend, access)
  {
    hide ScopeCovers;
  }

  // ---------------------------------------------------------------------------------------------
  // Grants and denies
  // ---------------------------------------------------------------------------------------------

  datatype Grant = Grant(user: string, role: string, plan: string, company: string, everyone: bool,
                         allTools: bool, backends: seq<string>, tools: seq<string>, access: seq<string>)

  function Count(b: bool): nat {
    if b then 1 else 0
  }

  predicate NoBlank(names: seq<string>) {
    forall n | n in names :: TrimSpace(n) != ""
  }

  /** Grant.Validate. */
  predicate ValidGrant(g: Grant) {
    && Count(g.user != "") + Count(g.role != "") + Count(g.plan != "") + Count(g.company != "") + Count(g.everyone) == 1
    && (g.allTools || g.backends != [] || g.tools != [] || g.access != [])
    && NoBlank(g.backends) && NoBlank(g.tools) && NoBlank(g.access)
  }

  function GrantSubject(g: Grant): string {
    if g.user != "" then UserOf(g.user)
    else if g.role != "" then Userset(RoleOf(g.role), "assignee")
    else if g.plan != "" then Userset(PlanOf(g.plan), "subscriber")
    else if g.company != "" then Userset(CompanyOf(g.company), "member")
    else "user:*"
  }

  function BackendObjects(names: seq<string>): seq<string> {
    seq(|names|, i requires 0 <= i < |names| => BackendOf(names[i]))
  }

  function AccessObjects(names: seq<string>): seq<string> {
    seq(|names|, i requires 0 <= i < |names| => AccessClassOf(names[i]))
  }

  function GrantObjects(g: Grant): seq<string> {
    (if g.allTools then [INSTANCE] else []) + BackendObjects(g.backends) + ToolObjects(g.tools) + AccessObjects(g.access)
  }

  function GrantRules(g: Grant, relation: string): seq<TupleKey> {
    TuplesOn(GrantSubject(g), relation, GrantObjects(g))
  }

  /** The rule's subject is the caller, in the words of the configuration. */
  predicate SubjectIs(g: Grant, r: Request) {
    || (g.user != "" && g.user == r.userID)
    || (g.role != "" && g.role in r.roles)
    || (g.plan != "" && g.plan == r.plan)
    || (g.company != "" && g.company == r.companyID)
    || g.everyone
  }

  /** The rule names the tool, in the words of the configuration. */
  predicate Targets(g: Grant, r: Request) {
    || g.allTools
    || (r.backend != "" && r.backend in g.backends)
    || r.tool in g.tools
    || (r.access != "" && r.access in g.access)
  }

  lemma StarIsNoUser(name: string)
    ensures UserOf(name) != "user:*"
  {
    hide EscapeID;
    EscapePlain(name);
    assert '*' !in EscapeID(name) && '*' in "*" && "user:*" == "user:" + "*";
    if UserOf(name) == "user:*" {
      PrefixInjective("user:", EscapeID(name), "*");
    }
  }

  lemma SuffixInjective(a: string, b: string, q: string)
    requires a + q == b + q
    ensures a == b
  {
    assert |a| == |b|;
    assert a == (a + q)[..|a|] && b == (b + q)[..|b|];
  }

  lemma SubjectsInjective(a: string, b: string)
    ensures UserOf(a) == UserOf(b) ==> a == b
    ensures Userset(RoleOf(a), "assignee") == Userset(RoleOf(b), "assignee") ==> a == b
    ensures Userset(PlanOf(a), "subscriber") == Userset(PlanOf(b), "subscriber") ==> a == b
    ensures Userset(CompanyOf(a), "member") == Userset(CompanyOf(b), "member") ==> a == b
    ensures Userset(KitOf(a), "holder") == Userset(KitOf(b), "holder") ==> a == b
  {
    hide EscapeID;
    if UserOf(a) == UserOf(b) {
      PrefixInjective("user:", EscapeID(a), EscapeID(b));
      EscapeInjective(a, b);
    }
    UsersetInjective("role:", "assignee", a, b);
    UsersetInjective("plan:", "subscriber", a, b);
    UsersetInjective("company:", "member", a, b);
    UsersetInjective("kit:", "holder", a, b);
  }

  lemma UsersetInjective(prefix: string, rel: string, a: string, b: string)
    ensures Userset(prefix + EscapeID(a), rel) == Userset(prefix + EscapeID(b), rel) ==> a == b
  {
    hide EscapeID;
    if Userset(prefix + EscapeID(a), rel) == Userset(prefix + EscapeID(b), rel) {
      var q := "#" + rel;
      assert Userset(prefix + EscapeID(a), rel) == (prefix + EscapeID(a)) + q;
      assert Userset(prefix + EscapeID(b), rel) == (prefix + EscapeID(b)) + q;
      SuffixInjective(prefix + EscapeID(a), prefix + EscapeID(b), q);
      PrefixInjective(prefix, EscapeID(a), EscapeID(b));
      EscapeInjective(a, b);
    }
  }

  lemma SubjectPrefixes(a: string, rel: string)
    ensures UserOf(a)[0] == 'u' && Userset(RoleOf(a), rel)[0] == 'r' && Userset(PlanOf(a), rel)[0] == 'p'
    ensures Userset(CompanyOf(a), rel)[0] == 'c' && Userset(KitOf(a), rel)[0] == 'k' && "user:*"[0] == 'u'
  {
  }

  /** A valid rule's subject applies to the caller exactly when it names the caller. */
  lemma GrantSubjectMeaning(g: Grant, r: Request)
    requires ValidGrant(g)
    ensures IsSubject(r, GrantSubject(g)) <==> SubjectIs(g, r)
  {
    hide NoBlank, UserOf, RoleOf, PlanOf, CompanyOf, KitOf, Userset;
    if g.user != "" {
      UserSubjectMeaning(r, g.user);
    } else if g.role != "" {
      RoleSubjectMeaning(r, g.role);
    } else if g.plan != "" {
      PlanSubjectMeaning(r, g.plan);
    } else if g.company != "" {
      CompanySubjectMeaning(r, g.company);
    }
  }

  lemma AllPrefixes(r: Request)
    ensures UserOf(r.userID)[0] == 'u' && "user:*"[0] == 'u'
    ensures Userset(CompanyOf(r.companyID), "member")[0] == 'c' && Userset(PlanOf(r.plan), "subscriber")[0] == 'p'
    ensures forall x | x in r.roles :: Userset(RoleOf(x), "assignee")[0] == 'r'
    ensures forall k | k in r.kits :: Userset(KitOf(k), "holder")[0] == 'k'
  {
    hide UserOf, RoleOf, PlanOf, CompanyOf, KitOf, Userset;
    SubjectPrefixes(r.userID, "member");
    SubjectPrefixes(r.companyID, "member");
    SubjectPrefixes(r.plan, "subscriber");
    forall x { SubjectPrefixes(x, "assignee"); }
    forall k { SubjectPrefixes(k, "holder"); }
  }

  lemma UserSubjectMeaning(r: Request, u: string)
    ensures IsSubject(r, UserOf(u)) <==> u == r.userID
  {
    hide UserOf, RoleOf, PlanOf, CompanyOf, KitOf, Userset;
    AllPrefixes(r);
    SubjectPrefixes(u, "member");
    StarIsNoUser(u);
    SubjectsInjective(u, r.userID);
  }

  lemma RoleSubjectMeaning(r: Request, x: string)
    requires x != ""
    ensures IsSubject(r, Userset(RoleOf(x), "assignee")) <==> x in r.roles
  {
    hide UserOf, RoleOf, PlanOf, CompanyOf, KitOf, Userset;
    AllPrefixes(r);
    SubjectPrefixes(x, "assignee");
    forall y { SubjectsInjective(x, y); }
  }

  lemma PlanSubjectMeaning(r: Request, x: string)
    requires x != ""
    ensures IsSubject(r, Userset(PlanOf(x), "subscriber")) <==> x == r.plan
  {
    hide UserOf, RoleOf, PlanOf, CompanyOf, KitOf, Userset;
    AllPrefixes(r);
    SubjectPrefixes(x, "subscriber");
    SubjectsInjective(x, r.plan);
  }

  lemma CompanySubjectMeaning(r: Request, x: string)
    requires x != ""
    ensures IsSubject(r, Userset(CompanyOf(x), "member")) <==> x == r.companyID
  {
    hide UserOf, RoleOf, PlanOf, CompanyOf, KitOf, Userset;
    AllPrefixes(r);
    SubjectPrefixes(x, "member");
    SubjectsInjective(x, r.companyID);
  }

  lemma KitSubjectMeaning(r: Request, x: string)
    requires x != ""
    ensures IsSubject(r, Userset(KitOf(x), "holder")) <==> x in r.kits
  {
    hide UserOf, RoleOf, PlanOf, CompanyOf, KitOf, Userset;
    AllPrefixes(r);
    SubjectPrefixes(x, "holder");
    forall y { SubjectsInjective(x, y); }
  }

  lemma BackendObjectsMeaning(names: seq<string>, r: Request)
    ensures (exists o | o in BackendObjects(names) :: IsObject(r, o)) <==> r.backend != "" && r.backend in names
    ensures (exists o | o in BackendObjects(names) :: IsBlockObject(r, o)) <==> r.backend != "" && r.backend in names
  {
    hide IsObject, IsBlockObject, BackendOf;
    forall n { BackendObjectMeaning(r, n); }
    if r.backend in names {
      var i :| 0 <= i < |names| && names[i] == r.backend;
      assert BackendObjects(names)[i] == BackendOf(r.backend);
    }
  }

  lemma AccessObjectsMeaning(names: seq<string>, r: Request)
    ensures (exists o | o in AccessObjects(names) :: IsObject(r, o)) <==> r.access != "" && r.access in names
    ensures (exists o | o in AccessObjects(names) :: IsBlockObject(r, o)) <==> r.access != "" && r.access in names
  {
    hide IsObject, IsBlockObject, AccessClassOf;
    forall n { AccessObjectMeaning(r, n); }
    if r.access in names {
      var i :| 0 <= i < |names| && names[i] == r.access;
      assert AccessObjects(names)[i] == AccessClassOf(r.access);
    }
  }

  lemma ToolBlocksMeaning(tools: seq<string>, r: Request)
    ensures (exists o | o in ToolObjects(tools) :: IsBlockObject(r, o)) <==> r.tool in tools
  {
    hide IsObject, IsBlockObject, ToolOf;
    forall n { ToolObjectMeaning(r, n); }
    if r.tool in tools {
      var i :| 0 <= i < |tools| && tools[i] == r.tool;
      assert ToolObjects(tools)[i] == ToolOf(r.tool);
    }
  }

  /** A rule's objects are attached to the tool exactly when the rule names it. */
  lemma GrantObjectsMeaning(g: Grant, r: Request)
    ensures (exists o | o in GrantObjects(g) :: IsObject(r, o)) <==> Targets(g, r)
    ensures (exists o | o in GrantObjects(g) :: IsBlockObject(r, o)) <==> Targets(g, r)
  {
    hide IsObject, IsBlockObject, INSTANCE, BackendObjects, ToolObjects, AccessObjects;
    InstanceObject(r);
    BackendObjectsMeaning(g.backends, r);
    ToolObjectsMeaning(g.tools, r);
    ToolBlocksMeaning(g.tools, r);
    AccessObjectsMeaning(g.access, r);
    var a, b, c, d := if g.allTools then [INSTANCE] else [], BackendObjects(g.backends), ToolObjects(g.tools), AccessObjects(g.access);
    assert GrantObjects(g) == a + b + c + d;
    assert forall o :: o in GrantObjects(g) <==> o in a || o in b || o in c || o in d;
    assert g.allTools ==> INSTANCE in a;
  }

  /** A rule's tuples concern the request exactly when the rule's words do. */
  lemma GrantRulesMeaning(g: Grant, relation: string, r: Request)
    requires ValidGrant(g)
    ensures (exists t | t in GrantRules(g, relation) :: IsSubject(r, t.user) && IsObject(r, t.obj)) <==> SubjectIs(g, r) && Targets(g, r)
    ensures (exists t | t in GrantRules(g, relation) :: IsSubject(r, t.user) && IsBlockObject(r, t.obj)) <==> SubjectIs(g, r) && Targets(g, r)
    ensures forall t | t in GrantRules(g, relation) :: t.relation == relation
  {
    hide IsObject, IsBlockObject, IsSubject, GrantObjects, GrantSubject, TuplesOn, ValidGrant, SubjectIs, Targets;
    GrantSubjectMeaning(g, r);
    GrantObjectsMeaning(g, r);
    TuplesOnMeaning(GrantSubject(g), relation, GrantObjects(g), r);
  }

  /** A kit's tuples concern the request exactly when the caller holds a kit that covers the tool. */
  lemma KitRulesMeaning(k: Kit, r: Request)
    requires k.name != ""
    ensures (exists t | t in KitRules(k) :: IsSubject(r, t.user) && IsObject(r, t.obj)) <==>
              k.name in r.kits && Covers(k, r.tool, r.backend, r.access)
    ensures forall t | t in KitRules(k) :: t.relation == EXECUTOR
  {
    hide IsObject, IsBlockObject, IsSubject, TuplesOn, Covers, ScopeObjects, ToolObjects, KitOf, Userset;
    KitSubjectMeaning(r, k.name);
    CoversIsTheGraph(k, r);
    TuplesOnMeaning(Holder(k), EXECUTOR, ScopeObjects(k.grants) + ToolObjects(k.tools), r);
  }

  // ---------------------------------------------------------------------------------------------
  // A whole policy
  // ---------------------------------------------------------------------------------------------

  datatype Policy = Policy(grants: seq<Grant>, denies: seq<Grant>, kits: seq<Kit>)

  /** kitNamePattern and the other checks of Kit.Validate that concern coverage. */
  predicate ValidKit(k: Kit) {
    && k.name != "" && k.name[0] != '.' && k.name[0] != '_' && k.name[0] != '-' && |k.name| <= 64
    && (forall c | c in k.name :: 'a' <= c <= 'z' || 'A' <= c <= 'Z' || '0' <= c <= '9' || c == '.' || c == '_' || c == '-')
    && (k.grants != [] || k.tools != [])
    && (forall g | g in k.grants :: ParseKitScope(g).Ok?)
    && NoBlank(k.tools)
  }

  predicate DistinctKits(kits: seq<Kit>) {
    forall i, j | 0 <= i < j < |kits| :: kits[i].name != kits[j].name
  }

  predicate ValidPolicy(p: Policy) {
    && (forall g | g in p.grants :: ValidGrant(g))
    && (forall g | g in p.denies :: ValidGrant(g))
    && (forall k | k in p.kits :: ValidKit(k))
    && DistinctKits(p.kits)
  }

  /** The tuples the policy asks for. */
  ghost predicate Desires(p: Policy, t: TupleKey) {
    || (exists g | g in p.grants :: t in GrantRules(g, EXECUTOR))
    || (exists g | g in p.denies :: t in GrantRules(g, BLOCKED))
    || (exists k | k in p.kits :: t in KitRules(k))
  }

  function FindKit(kits: seq<Kit>, name: string): Option<Kit> {
    if kits == [] then None else if kits[0].name == name then Some(kits[0]) else FindKit(kits[1..], name)
  }

  /** A kit of the list is found under its name, and nothing under any other. */
  lemma {:induction false} FindKitExactly(kits: seq<Kit>, name: string)
    requires DistinctKits(kits)
    ensures FindKit(kits, name) == None <==> forall k | k in kits :: k.name != name
    ensures forall k :: FindKit(kits, name) == Some(k) <==> k in kits && k.name == name
    decreases |kits|
  {
    if kits != [] {
      assert kits == [kits[0]] + kits[1..];
      assert DistinctKits(kits[1..]) by {
        assert forall i | 0 <= i < |kits| - 1 :: kits[1..][i] == kits[i + 1];
      }
      FindKitExactly(kits[1..], name);
      assert forall k | k in kits[1..] :: exists i :: 0 < i < |kits| && kits[i] == k;
    }
  }

  /** The objects of all kit parts the caller holds, as Check collects them. */
  function HeldPartObjects(kits: seq<Kit>, parts: seq<KitPart>): seq<string> {
    if parts == [] then []
    else
      (match FindKit(kits, parts[0].kit)
       case None => []
       case Some(k) => PartObjects(k, parts[0])) + HeldPartObjects(kits, parts[1..])
  }

  /** A part the caller holds covers the tool, statically. */
  predicate HeldPartCovers(kits: seq<Kit>, r: Request) {
    exists p | p in r.kitParts ::
      FindKit(kits, p.kit).Some? && PartCovers(FindKit(kits, p.kit).value, p, r.tool, r.backend, r.access)
  }

  /** A part counts with the kit of its name, if the list still has one. */
  lemma HeldPartsExactly(kits: seq<Kit>, r: Request)
    requires DistinctKits(kits)
    ensures HeldPartCovers(kits, r) <==>
              exists p, k | p in r.kitParts && k in kits :: k.name == p.kit && PartCovers(k, p, r.tool, r.backend, r.access)
  {
    hide PartCovers, FindKit;
    forall name { FindKitExactly(kits, name); }
  }

  lemma {:induction false} HeldPartsMeaning(kits: seq<Kit>, parts: seq<KitPart>, r: Request)
    ensures (exists o | o in HeldPartObjects(kits, parts) :: IsObject(r, o)) <==>
              exists p | p in parts :: FindKit(kits, p.kit).Some? && PartCovers(FindKit(kits, p.kit).value, p, r.tool, r.backend, r.access)
    decreases |parts|
  {
    hide IsObject, PartObjects, PartCovers, FindKit;
    if parts != [] {
      HeldPartsMeaning(kits, parts[1..], r);
      assert parts == [parts[0]] + parts[1..];
      var found := FindKit(kits, parts[0].kit);
      var first := if found.Some? then PartObjects(found.value, parts[0]) else [];
      assert HeldPartObjects(kits, parts) == first + HeldPartObjects(kits, parts[1..]);
      assert forall o :: o in HeldPartObjects(kits, parts) <==> o in first || o in HeldPartObjects(kits, parts[1..]);
      if found.Some? {
        PartCoversIsTheGraph(found.value, parts[0], r);
      }
      assert parts[0] in parts;
    }
  }

  /** The verdict in the words of the configuration. */
  predicate Permits(p: Policy, r: Request) {
    && (|| (exists g | g in p.grants :: SubjectIs(g, r) && Targets(g, r))
        || (exists k | k in p.kits :: k.name in r.kits && Covers(k, r.tool, r.backend, r.access))
        || HeldPartCovers(p.kits, r))
    && !exists g | g in p.denies :: SubjectIs(g, r) && Targets(g, r)
  }

  lemma DesiredGrants(p: Policy, r: Request)
    requires ValidPolicy(p)
    ensures (exists t :: Desires(p, t) && GrantedBy(r, t)) <==>
              || (exists g | g in p.grants :: SubjectIs(g, r) && Targets(g, r))
              || (exists k | k in p.kits :: k.name in r.kits && Covers(k, r.tool, r.backend, r.access))
  {
    hide IsObject, IsBlockObject, IsSubject, GrantRules, KitRules, SubjectIs, Targets, Covers, ValidGrant;
    if t :| Desires(p, t) && GrantedBy(r, t) {
      if g :| g in p.grants && t in GrantRules(g, EXECUTOR) {
        GrantRulesMeaning(g, EXECUTOR, r);
      } else if g :| g in p.denies && t in GrantRules(g, BLOCKED) {
        GrantRulesMeaning(g, BLOCKED, r);
      } else {
        var k :| k in p.kits && t in KitRules(k);
        KitRulesMeaning(k, r);
      }
    }
    if g :| g in p.grants && SubjectIs(g, r) && Targets(g, r) {
      GrantRulesMeaning(g, EXECUTOR, r);
      var t :| t in GrantRules(g, EXECUTOR) && IsSubject(r, t.user) && IsObject(r, t.obj);
      assert Desires(p, t) && GrantedBy(r, t);
    }
    if k :| k in p.kits && k.name in r.kits && Covers(k, r.tool, r.backend, r.access) {
      KitRulesMeaning(k, r);
      var t :| t in KitRules(k) && IsSubject(r, t.user) && IsObject(r, t.obj);
      assert Desires(p, t) && GrantedBy(r, t);
    }
  }

  lemma DesiredDenies(p: Policy, r: Request)
    requires ValidPolicy(p)
    ensures (exists t :: Desires(p, t) && BlockedBy(r, t)) <==> exists g | g in p.denies :: SubjectIs(g, r) && Targets(g, r)
  {
    hide IsObject, IsBlockObject, IsSubject, GrantRules, KitRules, SubjectIs, Targets, Covers, ValidGrant;
    if t :| Desires(p, t) && BlockedBy(r, t) {
      if g :| g in p.denies && t in GrantRules(g, BLOCKED) {
        GrantRulesMeaning(g, BLOCKED, r);
      } else if g :| g in p.grants && t in GrantRules(g, EXECUTOR) {
        GrantRulesMeaning(g, EXECUTOR, r);
      } else {
        var k :| k in p.kits && t in KitRules(k);
        KitRulesMeaning(k, r);
      }
    }
    if g :| g in p.denies && SubjectIs(g, r) && Targets(g, r) {
      GrantRulesMeaning(g, BLOCKED, r);
      var t :| t in GrantRules(g, BLOCKED) && IsSubject(r, t.user) && IsBlockObject(r, t.obj);
      assert Desires(p, t) && BlockedBy(r, t);
    }
  }

  /** With the policy's tuples in effect, the relation graph decides what the configuration says. */
  lemma GraphPermits(p: Policy, stored: set<TupleKey>, r: Request)
    requires ValidPolicy(p) && forall t :: t in stored <==> Desires(p, t)
    ensures CanExecute(Graph(stored, r, HeldPartObjects(p.kits, r.kitParts)), UserOf(r.userID), ToolOf(r.tool)) <==> Permits(p, r)
  {
    hide CanExecute, Graph, UserOf, ToolOf, GrantedBy, BlockedBy, Desires, SubjectIs, Targets, Covers, IsObject, ValidPolicy, HeldPartObjects;
    DesiredAreRules(p, stored);
    GraphMeaning(stored, r, HeldPartObjects(p.kits, r.kitParts));
    DesiredGrants(p, r);
    DesiredDenies(p, r);
    HeldPartsMeaning(p.kits, r.kitParts, r);
  }

  lemma DesiredAreRules(p: Policy, stored: set<TupleKey>)
    requires forall t | t in stored :: Desires(p, t)
    ensures OnlyRules(stored)
  {
    forall t | t in stored ensures t.relation == EXECUTOR || t.relation == BLOCKED {
      assert Desires(p, t);
    }
  }
}
