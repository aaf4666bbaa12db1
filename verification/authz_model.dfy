// The embedded authorization model: tuples, requests and what a check asks of the relation graph.
// Sources: internal/authz/model.fga, Check in internal/authz/embedded.go, internal/authz/authz.go.
module AuthzModel {
  import opened Text
  import opened AuthzIds

  /** A stored or contextual relationship: user has relation on object. */
  datatype TupleKey = TupleKey(user: string, relation: string, obj: string)

  const EXECUTOR := "executor"
  const BLOCKED := "blocked"
  const INSTANCE := "instance:toolmesh"

  datatype KitPart = KitPart(kit: string, grants: seq<string>, tools: seq<string>)

  datatype Request = Request(
    userID: string, companyID: string, plan: string, roles: seq<string>,
    kits: seq<string>, kitParts: seq<KitPart>,
    tool: string, backend: string, access: string)

  // ---------------------------------------------------------------------------------------------
  // Subjects and objects as strings
  // ---------------------------------------------------------------------------------------------

  function UserOf(name: string): string { "user:" + EscapeID(name) }
  function CompanyOf(name: string): string { "company:" + EscapeID(name) }
  function PlanOf(name: string): string { "plan:" + EscapeID(name) }
  function RoleOf(name: string): string { "role:" + EscapeID(name) }
  function KitOf(name: string): string { "kit:" + EscapeID(name) }
  function ToolOf(name: string): string { "tool:" + EscapeID(name) }
  function BackendOf(name: string): string { "backend:" + EscapeID(name) }
  function AccessClassOf(name: string): string { "access_class:" + EscapeID(name) }
  function BackendAccessOf(backend: string, access: string): string { "backend_access:" + BackendAccessID(backend, access) }

  /** The userset of those that have rel on obj. */
  function Userset(obj: string, rel: string): string { obj + "#" + rel }

  /** The users whose tuples apply to the caller: its own, everybody's and those of its groups. */
  ghost predicate IsSubject(r: Request, u: string) {
    || u == UserOf(r.userID)
    || u == "user:*"
    || (r.companyID != "" && u == Userset(CompanyOf(r.companyID), "member"))
    || (r.plan != "" && u == Userset(PlanOf(r.plan), "subscriber"))
    || (exists x | x in r.roles :: x != "" && u == Userset(RoleOf(x), "assignee"))
    || (exists k | k in r.kits :: k != "" && u == Userset(KitOf(k), "holder"))
  }

  /** The objects on which a deny concerns the tool. */
  predicate IsBlockObject(r: Request, o: string) {
    || o == ToolOf(r.tool)
    || o == INSTANCE
    || (r.backend != "" && o == BackendOf(r.backend))
    || (r.access != "" && o == AccessClassOf(r.access))
  }

  /** The objects on which a grant concerns the tool. */
  predicate IsObject(r: Request, o: string) {
    IsBlockObject(r, o) || (r.backend != "" && r.access != "" && o == BackendAccessOf(r.backend, r.access))
  }

  // ---------------------------------------------------------------------------------------------
  // The relation graph (model.fga)
  // ---------------------------------------------------------------------------------------------

  predicate UsersetRelation(rel: string) {
    rel == "member" || rel == "assignee" || rel == "subscriber" || rel == "holder"
  }

  /** user is u itself, one of all users, or in the userset u. */
  predicate Matches(s: set<TupleKey>, user: string, u: string) {
    || u == user
    || u == "user:*"
    || exists t | t in s :: UsersetRelation(t.relation) && u == Userset(t.obj, t.relation) && Belongs(s, user, t)
  }

  /** Directly, or as the member of a company that subscribes to a plan. */
  predicate Belongs(s: set<TupleKey>, user: string, t: TupleKey) {
    || t.user == user
    || (t.relation == "subscriber" && exists m | m in s :: m.user == user && m.relation == "member" && t.user == Userset(m.obj, "member"))
  }

  predicate Direct(s: set<TupleKey>, user: string, rel: string, obj: string) {
    exists t | t in s :: t.relation == rel && t.obj == obj && Matches(s, user, t.user)
  }

  predicate Through(s: set<TupleKey>, user: string, rel: string, tool: string, via: string) {
    exists t | t in s :: t.relation == via && t.obj == tool && Direct(s, user, rel, t.user)
  }

  predicate CanExecute(s: set<TupleKey>, user: string, tool: string) {
    && (|| Direct(s, user, EXECUTOR, tool)
        || Through(s, user, EXECUTOR, tool, "instance")
        || Through(s, user, EXECUTOR, tool, "backend")
        || Through(s, user, EXECUTOR, tool, "access_class")
        || Through(s, user, EXECUTOR, tool, "backend_access"))
    && !(|| Direct(s, user, BLOCKED, tool)
         || Through(s, user, BLOCKED, tool, "instance")
         || Through(s, user, BLOCKED, tool, "backend")
         || Through(s, user, BLOCKED, tool, "access_class"))
  }

  // ---------------------------------------------------------------------------------------------
  // The contextual tuples of a check
  // ---------------------------------------------------------------------------------------------

  /** Where the tool belongs. */
  function Structure(r: Request): seq<TupleKey> {
    var tool := ToolOf(r.tool);
    [TupleKey(INSTANCE, "instance", tool)]
    + (if r.backend != "" then [TupleKey(BackendOf(r.backend), "backend", tool)] else [])
    + (if r.access != "" then [TupleKey(AccessClassOf(r.access), "access_class", tool)] else [])
    + (if r.backend != "" && r.access != "" then [TupleKey(BackendAccessOf(r.backend, r.access), "backend_access", tool)] else [])
  }

  function Identity(r: Request): seq<TupleKey> {
    var user := UserOf(r.userID);
    (if r.companyID != "" then [TupleKey(user, "member", CompanyOf(r.companyID))] else [])
    + (if r.plan != "" then [TupleKey(user, "subscriber", PlanOf(r.plan))] else [])
  }

  /** The members of xs that are not in seen, each at its first occurrence. */
  function FirstOccurrences(xs: seq<string>, seen: set<string>): seq<string> {
    if xs == [] then []
    else if xs[0] in seen then FirstOccurrences(xs[1..], seen)
    else [xs[0]] + FirstOccurrences(xs[1..], seen + {xs[0]})
  }

  function RoleTuples(user: string, roles: seq<string>): seq<TupleKey> {
    seq(|roles|, i requires 0 <= i < |roles| => TupleKey(user, "assignee", RoleOf(roles[i])))
  }

  function KitTuples(user: string, kits: seq<string>): seq<TupleKey> {
    seq(|kits|, i requires 0 <= i < |kits| => TupleKey(user, "holder", KitOf(kits[i])))
  }

  function PartTuples(user: string, objects: seq<string>): seq<TupleKey> {
    seq(|objects|, i requires 0 <= i < |objects| => TupleKey(user, EXECUTOR, objects[i]))
  }

  /** partObjects are the objects of the kit parts the caller holds, in order, with repetitions. */
  function ContextTuples(r: Request, partObjects: seq<string>): seq<TupleKey> {
    var user := UserOf(r.userID);
    Structure(r) + Identity(r)
    + RoleTuples(user, FirstOccurrences(r.roles, {""}))
    + KitTuples(user, FirstOccurrences(r.kits, {""}))
    + PartTuples(user, FirstOccurrences(partObjects, {}))
  }

  function AsSet<T>(xs: seq<T>): set<T> {
    set x | x in xs
  }

  lemma {:induction false} FirstOccurrencesSet(xs: seq<string>, seen: set<string>)
    ensures AsSet(FirstOccurrences(xs, seen)) == AsSet(xs) - seen
    ensures |FirstOccurrences(xs, seen)| == |AsSet(xs) - seen|
    decreases |xs|
  {
    if xs != [] {
      assert xs == [xs[0]] + xs[1..];
      if xs[0] in seen {
        FirstOccurrencesSet(xs[1..], seen);
        assert AsSet(xs) - seen == AsSet(xs[1..]) - seen;
      } else {
        var rest := AsSet(xs[1..]) - (seen + {xs[0]});
        FirstOccurrencesSet(xs[1..], seen + {xs[0]});
        assert AsSet(xs) - seen == {xs[0]} + rest;
      }
    }
  }

  // ---------------------------------------------------------------------------------------------
  // What the graph says about a request
  // ---------------------------------------------------------------------------------------------

  /** Every stored tuple is a rule, as the tuples ToolMesh writes are. */
  predicate OnlyRules(stored: set<TupleKey>) {
    forall t | t in stored :: t.relation == EXECUTOR || t.relation == BLOCKED
  }

  ghost predicate GrantedBy(r: Request, t: TupleKey) {
    t.relation == EXECUTOR && IsSubject(r, t.user) && IsObject(r, t.obj)
  }

  ghost predicate BlockedBy(r: Request, t: TupleKey) {
    t.relation == BLOCKED && IsSubject(r, t.user) && IsBlockObject(r, t.obj)
  }

  /** A check's verdict in terms of single tuples: some grant, or part object, and no deny. */
  ghost predicate Joined(stored: set<TupleKey>, r: Request, partObjects: seq<string>) {
    && ((exists t | t in stored :: GrantedBy(r, t)) || exists o | o in partObjects :: IsObject(r, o))
    && !exists t | t in stored :: BlockedBy(r, t)
  }

  /** The tuples of one request's context by relation. */
  lemma {:induction false} ContextContents(r: Request, partObjects: seq<string>, t: TupleKey)
    ensures t in ContextTuples(r, partObjects) <==>
      || t in Structure(r) || t in Identity(r)
      || (t.user == UserOf(r.userID) && t.relation == "assignee" && exists x | x in r.roles :: x != "" && t.obj == RoleOf(x))
      || (t.user == UserOf(r.userID) && t.relation == "holder" && exists k | k in r.kits :: k != "" && t.obj == KitOf(k))
      || (t.user == UserOf(r.userID) && t.relation == EXECUTOR && t.obj in partObjects)
  {
    hide Structure, Identity, FirstOccurrences, UserOf, RoleOf, KitOf;
    FirstOccurrencesSet(r.roles, {""});
    FirstOccurrencesSet(r.kits, {""});
    FirstOccurrencesSet(partObjects, {});
    var user := UserOf(r.userID);
    MappedTuples(user, "assignee", FirstOccurrences(r.roles, {""}), RoleTuples(user, FirstOccurrences(r.roles, {""})), t, RoleOf);
    MappedTuples(user, "holder", FirstOccurrences(r.kits, {""}), KitTuples(user, FirstOccurrences(r.kits, {""})), t, KitOf);
    MappedTuples(user, EXECUTOR, FirstOccurrences(partObjects, {}), PartTuples(user, FirstOccurrences(partObjects, {})), t, x => x);
    InSet(FirstOccurrences(r.roles, {""}), r.roles, {""});
    InSet(FirstOccurrences(r.kits, {""}), r.kits, {""});
    InSet(FirstOccurrences(partObjects, {}), partObjects, {});
  }

  lemma InSet(xs: seq<string>, ys: seq<string>, seen: set<string>)
    requires AsSet(xs) == AsSet(ys) - seen
    ensures forall x :: x in xs <==> x in ys && x !in seen
  {
    forall x ensures x in xs <==> x in ys && x !in seen {
      assert x in xs <==> x in AsSet(xs);
      assert x in ys <==> x in AsSet(ys);
    }
  }

  lemma MappedTuples(user: string, rel: string, xs: seq<string>, ts: seq<TupleKey>, t: TupleKey, f: string -> string)
    requires |ts| == |xs| && forall i | 0 <= i < |xs| :: ts[i] == TupleKey(user, rel, f(xs[i]))
    ensures t in ts <==> t.user == user && t.relation == rel && exists x | x in xs :: t.obj == f(x)
  {
    if t.user == user && t.relation == rel {
      if x :| x in xs && t.obj == f(x) {
        var i :| 0 <= i < |xs| && xs[i] == x;
        assert ts[i] == t;
      }
    }
  }

  // ---------------------------------------------------------------------------------------------
  // The graph's verdict in terms of single tuples
  // ---------------------------------------------------------------------------------------------

  /** All tuples a check sees. */
  function Graph(stored: set<TupleKey>, r: Request, partObjects: seq<string>): set<TupleKey> {
    stored + AsSet(ContextTuples(r, partObjects))
  }

  predicate StructureRelation(rel: string) {
    rel == "instance" || rel == "backend" || rel == "access_class" || rel == "backend_access"
  }

  lemma {:induction false} GraphContents(stored: set<TupleKey>, r: Request, partObjects: seq<string>, t: TupleKey)
    requires OnlyRules(stored)
    ensures StructureRelation(t.relation) ==> (t in Graph(stored, r, partObjects) <==> t in Structure(r))
    ensures UsersetRelation(t.relation) ==> (t in Graph(stored, r, partObjects) <==>
              || t in Identity(r)
              || (t.user == UserOf(r.userID) && t.relation == "assignee" && exists x | x in r.roles :: x != "" && t.obj == RoleOf(x))
              || (t.user == UserOf(r.userID) && t.relation == "holder" && exists k | k in r.kits :: k != "" && t.obj == KitOf(k)))
    ensures t.relation == BLOCKED ==> (t in Graph(stored, r, partObjects) <==> t in stored)
    ensures t.relation == EXECUTOR ==> (t in Graph(stored, r, partObjects) <==>
              t in stored || (t.user == UserOf(r.userID) && t.obj in partObjects))
  {
    hide ContextTuples, UserOf, RoleOf, KitOf, CompanyOf, PlanOf, ToolOf, BackendOf, AccessClassOf, BackendAccessOf, INSTANCE;
    ContextContents(r, partObjects, t);
    assert t in AsSet(ContextTuples(r, partObjects)) <==> t in ContextTuples(r, partObjects);
  }

  lemma MatchesIsSubject(stored: set<TupleKey>, r: Request, partObjects: seq<string>, u: string)
    requires OnlyRules(stored)
    ensures Matches(Graph(stored, r, partObjects), UserOf(r.userID), u) <==> IsSubject(r, u)
  {
    hide Graph, Userset, UserOf, RoleOf, KitOf, CompanyOf, PlanOf;
    var s, user := Graph(stored, r, partObjects), UserOf(r.userID);
    if Matches(s, user, u) && u != user && u != "user:*" {
      var t :| t in s && UsersetRelation(t.relation) && u == Userset(t.obj, t.relation) && Belongs(s, user, t);
      GraphContents(stored, r, partObjects, t);
    }
    if IsSubject(r, u) && u != user && u != "user:*" {
      SubjectMatches(stored, r, partObjects, u);
    }
  }

  lemma SubjectMatches(stored: set<TupleKey>, r: Request, partObjects: seq<string>, u: string)
    requires OnlyRules(stored) && IsSubject(r, u) && u != UserOf(r.userID) && u != "user:*"
    ensures exists t | t in Graph(stored, r, partObjects) ::
              UsersetRelation(t.relation) && u == Userset(t.obj, t.relation) && Belongs(Graph(stored, r, partObjects), UserOf(r.userID), t)
  {
    hide Graph, Userset, UserOf, RoleOf, KitOf, CompanyOf, PlanOf;
    var user := UserOf(r.userID);
    var t :=
      if r.companyID != "" && u == Userset(CompanyOf(r.companyID), "member") then TupleKey(user, "member", CompanyOf(r.companyID))
      else if r.plan != "" && u == Userset(PlanOf(r.plan), "subscriber") then TupleKey(user, "subscriber", PlanOf(r.plan))
      else if exists x | x in r.roles :: x != "" && u == Userset(RoleOf(x), "assignee") then
        var x :| x in r.roles && x != "" && u == Userset(RoleOf(x), "assignee"); TupleKey(user, "assignee", RoleOf(x))
      else
        var k :| k in r.kits && k != "" && u == Userset(KitOf(k), "holder"); TupleKey(user, "holder", KitOf(k));
    GraphContents(stored, r, partObjects, t);
    assert Belongs(Graph(stored, r, partObjects), user, t);
  }

  lemma DirectExecutor(stored: set<TupleKey>, r: Request, partObjects: seq<string>, o: string)
    requires OnlyRules(stored)
    ensures Direct(Graph(stored, r, partObjects), UserOf(r.userID), EXECUTOR, o) <==>
              (exists t | t in stored :: t.relation == EXECUTOR && t.obj == o && IsSubject(r, t.user)) || o in partObjects
  {
    hide Graph, UserOf, IsSubject, Matches;
    var s, user := Graph(stored, r, partObjects), UserOf(r.userID);
    if Direct(s, user, EXECUTOR, o) {
      var t :| t in s && t.relation == EXECUTOR && t.obj == o && Matches(s, user, t.user);
      GraphContents(stored, r, partObjects, t);
      MatchesIsSubject(stored, r, partObjects, t.user);
    }
    if t :| t in stored && t.relation == EXECUTOR && t.obj == o && IsSubject(r, t.user) {
      GraphContents(stored, r, partObjects, t);
      MatchesIsSubject(stored, r, partObjects, t.user);
    }
    if o in partObjects {
      var t := TupleKey(user, EXECUTOR, o);
      GraphContents(stored, r, partObjects, t);
      SelfIsSubject(r);
      MatchesIsSubject(stored, r, partObjects, user);
    }
  }

  lemma SelfIsSubject(r: Request)
    ensures IsSubject(r, UserOf(r.userID))
  {
  }

  lemma DirectBlocked(stored: set<TupleKey>, r: Request, partObjects: seq<string>, o: string)
    requires OnlyRules(stored)
    ensures Direct(Graph(stored, r, partObjects), UserOf(r.userID), BLOCKED, o) <==>
              exists t | t in stored :: t.relation == BLOCKED && t.obj == o && IsSubject(r, t.user)
  {
    hide Graph, UserOf, IsSubject, Matches;
    var s, user := Graph(stored, r, partObjects), UserOf(r.userID);
    if Direct(s, user, BLOCKED, o) {
      var t :| t in s && t.relation == BLOCKED && t.obj == o && Matches(s, user, t.user);
      GraphContents(stored, r, partObjects, t);
      MatchesIsSubject(stored, r, partObjects, t.user);
    }
    if t :| t in stored && t.relation == BLOCKED && t.obj == o && IsSubject(r, t.user) {
      GraphContents(stored, r, partObjects, t);
      MatchesIsSubject(stored, r, partObjects, t.user);
    }
  }

  /** The object that a structure relation of the tool leads to, if the request names it. */
  function Place(r: Request, via: string): Option<string>
    requires StructureRelation(via)
  {
    if via == "instance" then Some(INSTANCE)
    else if via == "backend" then if r.backend != "" then Some(BackendOf(r.backend)) else None
    else if via == "access_class" then if r.access != "" then Some(AccessClassOf(r.access)) else None
    else if r.backend != "" && r.access != "" then Some(BackendAccessOf(r.backend, r.access)) else None
  }

  lemma StructurePlaces(r: Request, via: string, t: TupleKey)
    requires StructureRelation(via) && t.relation == via
    ensures t in Structure(r) <==> t.obj == ToolOf(r.tool) && Place(r, via) == Some(t.user)
  {
    hide ToolOf, BackendOf, AccessClassOf, BackendAccessOf, INSTANCE;
    var tool := ToolOf(r.tool);
    var a := [TupleKey(INSTANCE, "instance", tool)];
    var b := if r.backend != "" then [TupleKey(BackendOf(r.backend), "backend", tool)] else [];
    var c := if r.access != "" then [TupleKey(AccessClassOf(r.access), "access_class", tool)] else [];
    var d := if r.backend != "" && r.access != "" then [TupleKey(BackendAccessOf(r.backend, r.access), "backend_access", tool)] else [];
    assert Structure(r) == a + b + c + d;
    assert t in Structure(r) <==> t in a || t in b || t in c || t in d;
  }

  lemma ThroughPlace(stored: set<TupleKey>, r: Request, partObjects: seq<string>, rel: string, via: string)
    requires OnlyRules(stored) && StructureRelation(via)
    ensures Through(Graph(stored, r, partObjects), UserOf(r.userID), rel, ToolOf(r.tool), via) <==>
              Place(r, via).Some? && Direct(Graph(stored, r, partObjects), UserOf(r.userID), rel, Place(r, via).value)
  {
    hide Graph, UserOf, ToolOf, Direct, Structure, Place;
    var s, user, tool := Graph(stored, r, partObjects), UserOf(r.userID), ToolOf(r.tool);
    if Through(s, user, rel, tool, via) {
      var t :| t in s && t.relation == via && t.obj == tool && Direct(s, user, rel, t.user);
      GraphContents(stored, r, partObjects, t);
      StructurePlaces(r, via, t);
    }
    if Place(r, via).Some? {
      var t := TupleKey(Place(r, via).value, via, tool);
      GraphContents(stored, r, partObjects, t);
      StructurePlaces(r, via, t);
    }
  }

  /** What the graph decides, read off single tuples. */
  lemma GraphMeaning(stored: set<TupleKey>, r: Request, partObjects: seq<string>)
    requires OnlyRules(stored)
    ensures CanExecute(Graph(stored, r, partObjects), UserOf(r.userID), ToolOf(r.tool)) <==> Joined(stored, r, partObjects)
  {
    hide Graph, UserOf, ToolOf, BackendOf, AccessClassOf, BackendAccessOf, INSTANCE, Direct, Through, IsSubject;
    ThroughPlace(stored, r, partObjects, EXECUTOR, "instance");
    ThroughPlace(stored, r, partObjects, EXECUTOR, "backend");
    ThroughPlace(stored, r, partObjects, EXECUTOR, "access_class");
    ThroughPlace(stored, r, partObjects, EXECUTOR, "backend_access");
    ThroughPlace(stored, r, partObjects, BLOCKED, "instance");
    ThroughPlace(stored, r, partObjects, BLOCKED, "backend");
    ThroughPlace(stored, r, partObjects, BLOCKED, "access_class");
    forall o { DirectExecutor(stored, r, partObjects, o); }
    forall o { DirectBlocked(stored, r, partObjects, o); }
  }
}