// What the embedded engine guarantees while and after it changes the rules.
module AuthzSafety {
  import opened AuthzModel
  import opened AuthzPolicy
  import opened AuthzEmbedded

  // ---------------------------------------------------------------------------------------------
  // Allowed, in terms of single tuples
  // ---------------------------------------------------------------------------------------------

  ghost predicate Grants(s: set<TupleKey>, effective: TupleKey -> bool, r: Request) {
    exists t | t in s :: effective(t) && GrantedBy(r, t)
  }

  ghost predicate Denies(s: set<TupleKey>, effective: TupleKey -> bool, r: Request) {
    exists t | t in s :: effective(t) && BlockedBy(r, t)
  }

  /** A kit part the caller holds stands for the tool. */
  ghost predicate PartGrants(kits: seq<Kit>, r: Request) {
    exists o | o in HeldPartObjects(kits, r.kitParts) :: IsObject(r, o)
  }

  predicate Askable(kits: seq<Kit>, r: Request) {
    r.userID != "" && r.tool != "" && Fits(kits, r)
  }

  lemma AllowedMeaning(s: set<TupleKey>, effective: TupleKey -> bool, kits: seq<Kit>, r: Request)
    requires EffectiveRules(s, effective)
    ensures Allowed(s, effective, kits, r) <==>
              Askable(kits, r) && (Grants(s, effective, r) || PartGrants(kits, r)) && !Denies(s, effective, r)
  {
    hide UserOf, ToolOf, CanExecute, Graph, Fits, HeldPartObjects, GrantedBy, BlockedBy, IsObject;
    GraphMeaning(Effective(s, effective), r, HeldPartObjects(kits, r.kitParts));
    assert forall t :: t in Effective(s, effective) <==> t in s && effective(t);
  }

  // ---------------------------------------------------------------------------------------------
  // Order safety
  // ---------------------------------------------------------------------------------------------

  /** The grants the engine would not delete are inert. */
  predicate InertGrants(left: set<TupleKey>, effective: TupleKey -> bool) {
    forall t | t in left && !IsDeny(t) :: !effective(t)
  }

  /** A state of a change never holds an effective tuple that is not a rule. */
  lemma StatesAreRules(old': set<TupleKey>, desired: set<TupleKey>, left: set<TupleKey>, s: set<TupleKey>, effective: TupleKey -> bool)
    requires EffectiveRules(old', effective) && EffectiveRules(desired, effective)
    requires left <= old' && InOrder(old', desired, left, s)
    ensures EffectiveRules(s, effective)
  {
    forall t | t in Effective(s, effective) ensures t.relation == EXECUTOR || t.relation == BLOCKED {
      assert IsDeny(t) || t in Effective(old', effective) || t in Effective(desired, effective);
    }
  }

  lemma PolicyIsRules(p: Policy, effective: TupleKey -> bool)
    ensures EffectiveRules(Desired(p), effective)
  {
    DesiredAreRules(p, Effective(Desired(p), effective));
  }

  /** Whatever state a change is in, it allows no more than the old rules or no more than the new ones. */
  lemma OrderSafety(old': set<TupleKey>, desired: set<TupleKey>, left: set<TupleKey>, s: set<TupleKey>,
                    effective: TupleKey -> bool, kits: seq<Kit>)
    requires EffectiveRules(old', effective) && EffectiveRules(desired, effective)
    requires left <= old' && InOrder(old', desired, left, s) && InertGrants(left, effective)
    ensures AllowsNoMore(s, old', effective, kits) || AllowsNoMore(s, desired, effective, kits)
  {
    hide Allowed, GrantedBy, BlockedBy, EffectiveRules, Askable, PartGrants;
    StatesAreRules(old', desired, left, s, effective);
    var bound := if BeforeGrants(old', s) then old' else desired;
    forall r: Request | Allowed(s, effective, kits, r) ensures Allowed(bound, effective, kits, r) {
      AllowedMeaning(s, effective, kits, r);
      AllowedMeaning(bound, effective, kits, r);
      GrantsAreNotDenies(s, effective, r);
      GrantsAreNotDenies(bound, effective, r);
    }
    assert AllowsNoMore(s, bound, effective, kits);
  }

  lemma GrantsAreNotDenies(s: set<TupleKey>, effective: TupleKey -> bool, r: Request)
    ensures forall t :: GrantedBy(r, t) ==> !IsDeny(t)
    ensures forall t :: BlockedBy(r, t) ==> IsDeny(t)
  {
    hide IsSubject, IsObject, IsBlockObject;
  }

  /** The same for every state that apply records on its way to the policy. */
  lemma ApplyIsSafe(h: seq<Snapshot>, from: nat, old': set<TupleKey>, p: Policy, left: set<TupleKey>,
                    effective: TupleKey -> bool, kits: seq<Kit>)
    requires EffectiveRules(old', effective) && InertGrants(left, effective) && left <= old' - Desired(p)
    requires Ordered(h, from, old', Desired(p), left)
    ensures forall i | from <= i < |h| :: EffectiveRules(h[i].stored, effective)
    ensures forall i | from <= i < |h| ::
              AllowsNoMore(h[i].stored, old', effective, kits) || AllowsNoMore(h[i].stored, Desired(p), effective, kits)
  {
    hide AllowsNoMore, EffectiveRules, InOrder, Desired, InertGrants;
    PolicyIsRules(p, effective);
    forall i | from <= i < |h|
      ensures EffectiveRules(h[i].stored, effective)
      ensures AllowsNoMore(h[i].stored, old', effective, kits) || AllowsNoMore(h[i].stored, Desired(p), effective, kits)
    {
      StatesAreRules(old', Desired(p), left, h[i].stored, effective);
      OrderSafety(old', Desired(p), left, h[i].stored, effective, kits);
    }
  }

  // ---------------------------------------------------------------------------------------------
  // Grants that stay behind
  // ---------------------------------------------------------------------------------------------

  /** s is a state of a change to the policy, from stored rules that hold those of the kits in effect. */
  ghost predicate ChangeState(old': set<TupleKey>, oldKits: seq<Kit>, p: Policy, left: set<TupleKey>, s: set<TupleKey>,
                              effective: TupleKey -> bool) {
    && EffectiveRules(old', effective) && KitsStored(oldKits, old') && ValidPolicy(p)
    && left <= old' - Desired(p) && InOrder(old', Desired(p), left, s)
  }

  /** In every state of every change that leaves g behind, a request is allowed only if the old or the new rules allow it. */
  ghost predicate LeavingIsSafe(g: TupleKey, effective: TupleKey -> bool) {
    forall old': set<TupleKey>, kits: seq<Kit>, p: Policy, s: set<TupleKey> |
      ChangeState(old', kits, p, {g}, s, effective) && p.kits == kits ::
      EitherAllows(old', s, Desired(p), effective, kits)
  }

  /** What s allows, the old or the new rules allow. */
  ghost predicate EitherAllows(old': set<TupleKey>, s: set<TupleKey>, desired: set<TupleKey>, effective: TupleKey -> bool, kits: seq<Kit>) {
    forall r: Request :: Allowed(s, effective, kits, r) ==> Allowed(old', effective, kits, r) || Allowed(desired, effective, kits, r)
  }

  /** u is one of the users that tuples name: everybody, a user or a group with a name. */
  ghost predicate SubjectForm(u: string) {
    || u == "user:*"
    || (exists x: string :: x != "" && u == UserOf(x))
    || (exists x: string :: x != "" && u == Userset(CompanyOf(x), "member"))
    || (exists x: string :: x != "" && u == Userset(PlanOf(x), "subscriber"))
    || (exists x: string :: x != "" && u == Userset(RoleOf(x), "assignee"))
    || (exists x: string :: x != "" && u == Userset(KitOf(x), "holder"))
  }

  /** o is one of the objects that tuples name: everything, a tool, a backend, an access class or both of the latter. */
  ghost predicate ObjectForm(o: string) {
    || o == INSTANCE
    || (exists x: string :: x != "" && o == ToolOf(x))
    || (exists x: string :: x != "" && o == BackendOf(x))
    || (exists x: string :: x != "" && o == AccessClassOf(x))
    || (exists x: string, y: string :: x != "" && y != "" && o == BackendAccessOf(x, y))
  }

  /** The deny of everything for the caller. */
  function DenyFor(r: Request): TupleKey {
    TupleKey(UserOf(r.userID), BLOCKED, INSTANCE)
  }

  /** A grant may stay behind exactly when it is inert or names nothing. */
  lemma LeftBehindExactly(g: TupleKey, effective: TupleKey -> bool)
    requires g.relation == EXECUTOR
    requires forall r: Request :: effective(DenyFor(r))
    ensures LeavingIsSafe(g, effective) <==> !(effective(g) && SubjectForm(g.user) && ObjectForm(g.obj))
  {
    hide Allowed, SubjectForm, ObjectForm, ChangeState, DenyFor;
    if effective(g) && SubjectForm(g.user) && ObjectForm(g.obj) {
      LeavingAllows(g, effective);
    } else {
      forall old': set<TupleKey>, kits: seq<Kit>, p: Policy, s: set<TupleKey> |
        ChangeState(old', kits, p, {g}, s, effective) && p.kits == kits
        ensures EitherAllows(old', s, Desired(p), effective, kits)
      {
        forall r: Request | Allowed(s, effective, kits, r) ensures Allowed(old', effective, kits, r) || Allowed(Desired(p), effective, kits, r) {
          LeavingHarmless(g, effective, old', p, s, r);
        }
      }
    }
  }

  lemma LeavingHarmless(g: TupleKey, effective: TupleKey -> bool, old': set<TupleKey>, p: Policy, s: set<TupleKey>, r: Request)
    requires g.relation == EXECUTOR && !(effective(g) && SubjectForm(g.user) && ObjectForm(g.obj))
    requires ChangeState(old', p.kits, p, {g}, s, effective) && Allowed(s, effective, p.kits, r)
    ensures Allowed(old', effective, p.kits, r) || Allowed(Desired(p), effective, p.kits, r)
  {
    hide Allowed, GrantedBy, BlockedBy, EffectiveRules, Fits, PartGrants, SubjectForm, ObjectForm, Desired, ValidPolicy, KitsStored;
    PolicyIsRules(p, effective);
    StatesAreRules(old', Desired(p), {g}, s, effective);
    AllowedMeaning(s, effective, p.kits, r);
    AllowedMeaning(old', effective, p.kits, r);
    AllowedMeaning(Desired(p), effective, p.kits, r);
    GrantsAreNotDenies(s, effective, r);
    if GrantedBy(r, g) {
      GrantedForm(r, g);
    }
  }

  lemma GrantedForm(r: Request, g: TupleKey)
    requires GrantedBy(r, g) && r.userID != "" && r.tool != ""
    ensures SubjectForm(g.user) && ObjectForm(g.obj)
  {
    hide UserOf, CompanyOf, PlanOf, RoleOf, KitOf, ToolOf, BackendOf, AccessClassOf, BackendAccessOf, Userset, INSTANCE;
  }

  /** A request for which g grants: the caller and the tool that its user and object name, and nothing else. */
  ghost function RequestOf(g: TupleKey): (r: Request)
    requires SubjectForm(g.user) && ObjectForm(g.obj)
  {
    WithTool(CallerOf(g.user), g.obj)
  }

  ghost function CallerOf(u: string): Request
    requires SubjectForm(u)
  {
    var nobody := Request("u", "", "", [], [], [], "t", "", "");
    if u == "user:*" then nobody
    else if exists x: string :: x != "" && u == UserOf(x) then var x: string :| x != "" && u == UserOf(x); nobody.(userID := x)
    else if exists x: string :: x != "" && u == Userset(CompanyOf(x), "member") then
      var x: string :| x != "" && u == Userset(CompanyOf(x), "member"); nobody.(companyID := x)
    else if exists x: string :: x != "" && u == Userset(PlanOf(x), "subscriber") then
      var x: string :| x != "" && u == Userset(PlanOf(x), "subscriber"); nobody.(plan := x)
    else if exists x: string :: x != "" && u == Userset(RoleOf(x), "assignee") then
      var x: string :| x != "" && u == Userset(RoleOf(x), "assignee"); nobody.(roles := [x])
    else
      var x: string :| x != "" && u == Userset(KitOf(x), "holder"); nobody.(kits := [x])
  }

  ghost function WithTool(r: Request, o: string): Request
    requires ObjectForm(o)
  {
    if o == INSTANCE then r
    else if exists x: string :: x != "" && o == ToolOf(x) then var x: string :| x != "" && o == ToolOf(x); r.(tool := x)
    else if exists x: string :: x != "" && o == BackendOf(x) then var x: string :| x != "" && o == BackendOf(x); r.(backend := x)
    else if exists x: string :: x != "" && o == AccessClassOf(x) then var x: string :| x != "" && o == AccessClassOf(x); r.(access := x)
    else var x: string, y: string :| x != "" && y != "" && o == BackendAccessOf(x, y); r.(backend := x, access := y)
  }

  lemma CallerMatches(u: string)
    requires SubjectForm(u)
    ensures var r := CallerOf(u);
            IsSubject(r, u) && r.userID != "" && r.tool != "" && |r.roles| <= 1 && |r.kits| <= 1 && r.kitParts == []
  {
    hide UserOf, CompanyOf, PlanOf, RoleOf, KitOf, ToolOf, BackendOf, AccessClassOf, BackendAccessOf, Userset, INSTANCE;
  }

  lemma ToolMatches(r: Request, o: string)
    requires ObjectForm(o) && r.tool != ""
    ensures var r' := WithTool(r, o);
            && IsObject(r', o) && r'.tool != ""
            && r'.userID == r.userID && r'.companyID == r.companyID && r'.plan == r.plan
            && r'.roles == r.roles && r'.kits == r.kits && r'.kitParts == r.kitParts
  {
    hide UserOf, CompanyOf, PlanOf, RoleOf, KitOf, ToolOf, BackendOf, AccessClassOf, BackendAccessOf, Userset, INSTANCE;
  }

  lemma RequestMatches(g: TupleKey)
    requires g.relation == EXECUTOR && SubjectForm(g.user) && ObjectForm(g.obj)
    ensures GrantedBy(RequestOf(g), g) && Askable([], RequestOf(g)) && !PartGrants([], RequestOf(g))
  {
    hide UserOf, CompanyOf, PlanOf, RoleOf, KitOf, Userset, IsObject, CallerOf, WithTool, Fits, SubjectForm, ObjectForm;
    CallerMatches(g.user);
    ToolMatches(CallerOf(g.user), g.obj);
    SmallContext(RequestOf(g));
  }

  lemma SmallContext(r: Request)
    requires |r.roles| <= 1 && |r.kits| <= 1 && r.kitParts == []
    ensures Fits([], r) && HeldPartObjects([], r.kitParts) == []
  {
    hide UserOf, CompanyOf, PlanOf, RoleOf, KitOf, ToolOf, BackendOf, AccessClassOf, BackendAccessOf, INSTANCE, FirstOccurrences;
    FewOccurrences(r.roles);
    FewOccurrences(r.kits);
    NoOccurrences();
  }

  lemma {:induction false} FewOccurrences(xs: seq<string>)
    requires |xs| <= 1
    ensures |FirstOccurrences(xs, {""})| <= 1
  {
  }

  lemma {:induction false} NoOccurrences()
    ensures |FirstOccurrences([], {})| == 0
  {
  }

  /** Old rules that grant and deny, a policy that says nothing: what is left behind allows its request. */
  lemma LeavingAllows(g: TupleKey, effective: TupleKey -> bool)
    requires g.relation == EXECUTOR && effective(g) && SubjectForm(g.user) && ObjectForm(g.obj)
    requires effective(DenyFor(RequestOf(g)))
    ensures var r, old', p := RequestOf(g), {g, DenyFor(RequestOf(g))}, Policy([], [], []);
            && ChangeState(old', p.kits, p, {g}, Desired(p) + {g}, effective)
            && Allowed(Desired(p) + {g}, effective, p.kits, r)
            && !Allowed(old', effective, p.kits, r) && !Allowed(Desired(p), effective, p.kits, r)
    ensures !LeavingIsSafe(g, effective)
  {
    hide Allowed, GrantedBy, BlockedBy, Askable, PartGrants, DenyFor, RequestOf, SubjectForm, ObjectForm, EffectiveRules;
    var r, p := RequestOf(g), Policy([], [], []);
    var deny := DenyFor(r);
    assert Desired(p) == {};
    assert {} + {g} == {g};
    RequestMatches(g);
    DenyBlocks(r);
    GrantNotBlocks(r, g);
    RulesOf({g, deny}, effective);
    RulesOf({g}, effective);
    RulesOf({}, effective);
    AllowedMeaning({g}, effective, [], r);
    AllowedMeaning({g, deny}, effective, [], r);
    AllowedMeaning({}, effective, [], r);
    assert deny in {g, deny};
    assert AfterGrants({}, {g}, {g});
    assert ChangeState({g, deny}, p.kits, p, {g}, {g}, effective);
    assert !EitherAllows({g, deny}, {g}, {}, effective, p.kits);
  }

  lemma RulesOf(s: set<TupleKey>, effective: TupleKey -> bool)
    requires OnlyRules(s)
    ensures EffectiveRules(s, effective)
  {
  }

  lemma DenyBlocks(r: Request)
    ensures DenyFor(r).relation == BLOCKED && BlockedBy(r, DenyFor(r))
  {
    hide UserOf, ToolOf, INSTANCE;
  }

  lemma GrantNotBlocks(r: Request, g: TupleKey)
    requires g.relation == EXECUTOR
    ensures !BlockedBy(r, g) && g != DenyFor(r)
  {
    hide UserOf, ToolOf;
  }

  // ---------------------------------------------------------------------------------------------
  // The kits in effect during a change
  // ---------------------------------------------------------------------------------------------

  // The kits are exchanged only after the last step. A request that a kit part would allow is
  // decided in between with the old kits, but under denies that are already being removed.

  /** In every state of every change to a policy with the new kits, checks with the old kits allow r only if before or after does. */
  ghost predicate KitChangeIsSafe(oldKits: seq<Kit>, newKits: seq<Kit>, effective: TupleKey -> bool, r: Request) {
    forall old': set<TupleKey>, p: Policy, left: set<TupleKey>, s: set<TupleKey> |
      ChangeState(old', oldKits, p, left, s, effective) && p.kits == newKits && InertGrants(left, effective) ::
      Allowed(s, effective, oldKits, r) ==> Allowed(old', effective, oldKits, r) || Allowed(Desired(p), effective, newKits, r)
  }

  /** Every tuple that a valid policy asks for has a meaning under the current model. */
  ghost predicate PoliciesAreEffective(effective: TupleKey -> bool) {
    forall p: Policy, t: TupleKey | ValidPolicy(p) && Desires(p, t) :: effective(t)
  }

  predicate ValidKits(kits: seq<Kit>) {
    (forall k | k in kits :: ValidKit(k)) && DistinctKits(kits)
  }

  /** A kit the caller holds as a whole covers the tool. */
  predicate HeldKitCovers(kits: seq<Kit>, r: Request) {
    exists k | k in kits :: k.name in r.kits && Covers(k, r.tool, r.backend, r.access)
  }

  /** What the caller holds in parts of the old kits it holds in the new ones too, in parts or as a whole. */
  predicate PartsSurvive(oldKits: seq<Kit>, newKits: seq<Kit>, r: Request) {
    HeldPartCovers(oldKits, r) ==> HeldPartCovers(newKits, r) || HeldKitCovers(newKits, r)
  }

  /** A change of kits is safe for a request exactly when it stays within the engine's limit and its parts survive. */
  lemma KitChangeExactly(oldKits: seq<Kit>, newKits: seq<Kit>, effective: TupleKey -> bool, r: Request)
    requires ValidKits(oldKits) && ValidKits(newKits) && PoliciesAreEffective(effective)
    ensures KitChangeIsSafe(oldKits, newKits, effective, r) <==>
              (Askable(oldKits, r) ==> Fits(newKits, r) && PartsSurvive(oldKits, newKits, r))
  {
    hide Allowed, ChangeState, Fits, PartsSurvive, ValidKits, Askable, PoliciesAreEffective, InertGrants;
    if !Askable(oldKits, r) || (Fits(newKits, r) && PartsSurvive(oldKits, newKits, r)) {
      forall old': set<TupleKey>, p: Policy, left: set<TupleKey>, s: set<TupleKey> |
        ChangeState(old', oldKits, p, left, s, effective) && p.kits == newKits && InertGrants(left, effective)
        ensures Allowed(s, effective, oldKits, r) ==> Allowed(old', effective, oldKits, r) || Allowed(Desired(p), effective, newKits, r)
      {
        KitChangeHarmless(oldKits, p, left, effective, r, old', s);
      }
    } else {
      DenyRemovedEarly(oldKits, newKits, effective, r);
    }
  }

  lemma KitChangeHarmless(oldKits: seq<Kit>, p: Policy, left: set<TupleKey>, effective: TupleKey -> bool, r: Request,
                          old': set<TupleKey>, s: set<TupleKey>)
    requires ChangeState(old', oldKits, p, left, s, effective) && InertGrants(left, effective) && PoliciesAreEffective(effective)
    requires Askable(oldKits, r) ==> Fits(p.kits, r) && PartsSurvive(oldKits, p.kits, r)
    ensures Allowed(s, effective, oldKits, r) ==> Allowed(old', effective, oldKits, r) || Allowed(Desired(p), effective, p.kits, r)
  {
    hide Allowed, GrantedBy, BlockedBy, EffectiveRules, Fits, PartGrants, Desired, ValidPolicy, KitsStored, HeldPartCovers, HeldKitCovers,
      PoliciesAreEffective;
    PolicyIsRules(p, effective);
    StatesAreRules(old', Desired(p), left, s, effective);
    AllowedMeaning(s, effective, oldKits, r);
    AllowedMeaning(old', effective, oldKits, r);
    AllowedMeaning(Desired(p), effective, p.kits, r);
    GrantsAreNotDenies(s, effective, r);
    PartsAreCovers(oldKits, r);
    PartsAreCovers(p.kits, r);
    KitsGrant(p, effective, r);
  }

  lemma PartsAreCovers(kits: seq<Kit>, r: Request)
    ensures PartGrants(kits, r) <==> HeldPartCovers(kits, r)
  {
    hide IsObject, PartCovers, FindKit, HeldPartObjects;
    HeldPartsMeaning(kits, r.kitParts, r);
  }

  /** What the policy grants outside kit parts. */
  lemma PolicyGrants(p: Policy, effective: TupleKey -> bool, r: Request)
    requires ValidPolicy(p) && PoliciesAreEffective(effective)
    ensures Grants(Desired(p), effective, r) <==> (exists g | g in p.grants :: SubjectIs(g, r) && Targets(g, r)) || HeldKitCovers(p.kits, r)
    ensures Denies(Desired(p), effective, r) <==> exists g | g in p.denies :: SubjectIs(g, r) && Targets(g, r)
  {
    hide GrantedBy, BlockedBy, Desires, SubjectIs, Targets, Covers, ValidPolicy;
    DesiredGrants(p, r);
    DesiredDenies(p, r);
    assert forall t :: t in Desired(p) <==> Desires(p, t);
    assert forall t | t in Desired(p) :: effective(t);
  }

  lemma KitsGrant(p: Policy, effective: TupleKey -> bool, r: Request)
    requires ValidPolicy(p) && PoliciesAreEffective(effective)
    ensures HeldKitCovers(p.kits, r) ==> Grants(Desired(p), effective, r)
  {
    hide Grants, SubjectIs, Targets, HeldKitCovers;
    PolicyGrants(p, effective, r);
  }

  /** The rule for everything and the caller alone. */
  function RuleFor(r: Request): Grant {
    Grant(r.userID, "", "", "", false, true, [], [], [])
  }

  lemma RuleForApplies(r: Request)
    requires r.userID != ""
    ensures ValidGrant(RuleFor(r)) && SubjectIs(RuleFor(r), r) && Targets(RuleFor(r), r)
  {
  }

  /** The policies of the change: the old one denies r, the new one does not and grants it if its kits are too many to ask for. */
  function DenyingPolicy(oldKits: seq<Kit>, r: Request): Policy {
    Policy([], [RuleFor(r)], oldKits)
  }

  function FollowingPolicy(newKits: seq<Kit>, r: Request): Policy {
    Policy(if Fits(newKits, r) then [] else [RuleFor(r)], [], newKits)
  }

  /** Between the removal of the deny and the exchange of the kits, a request passes that neither policy permits. */
  lemma DenyRemovedEarly(oldKits: seq<Kit>, newKits: seq<Kit>, effective: TupleKey -> bool, r: Request)
    requires ValidKits(oldKits) && ValidKits(newKits) && PoliciesAreEffective(effective)
    requires Askable(oldKits, r) && !(Fits(newKits, r) && PartsSurvive(oldKits, newKits, r))
    ensures var o, p := DenyingPolicy(oldKits, r), FollowingPolicy(newKits, r);
            && ChangeState(Desired(o), oldKits, p, {}, Desired(p), effective)
            && Allowed(Desired(p), effective, oldKits, r)
            && !Allowed(Desired(o), effective, oldKits, r) && !Allowed(Desired(p), effective, newKits, r)
    ensures !KitChangeIsSafe(oldKits, newKits, effective, r)
  {
    hide Allowed, EffectiveRules, Fits, PartGrants, HeldPartCovers, HeldKitCovers, Desired, ValidGrant, SubjectIs, Targets, InOrder,
      KitsStored, PoliciesAreEffective, RuleFor, Grants, Denies, ValidKit, DistinctKits;
    var o, p := DenyingPolicy(oldKits, r), FollowingPolicy(newKits, r);
    RuleForApplies(r);
    PolicyIsRules(o, effective);
    PolicyIsRules(p, effective);
    PolicyGrants(o, effective, r);
    PolicyGrants(p, effective, r);
    PartsAreCovers(oldKits, r);
    PartsAreCovers(newKits, r);
    AllowedMeaning(Desired(p), effective, oldKits, r);
    AllowedMeaning(Desired(o), effective, oldKits, r);
    AllowedMeaning(Desired(p), effective, newKits, r);
    PolicyKitsStored(o, Desired(o));
    DoneIsInOrder(Desired(o), Desired(p));
  }

  lemma DoneIsInOrder(old': set<TupleKey>, desired: set<TupleKey>)
    ensures InOrder(old', desired, {}, desired)
  {
    assert AfterGrants(desired, {}, desired);
  }

  // ---------------------------------------------------------------------------------------------
  // After a change
  // ---------------------------------------------------------------------------------------------

  /** What a successful apply leaves decides every request as the configuration says. */
  lemma AppliedPolicyDecides(p: Policy, stored: set<TupleKey>, left: set<TupleKey>, effective: TupleKey -> bool, r: Request)
    requires ValidPolicy(p) && Desired(p) <= stored <= Desired(p) + left
    requires forall t | t in Desired(p) :: effective(t)
    requires forall t | t in left :: !effective(t)
    ensures Allowed(stored, effective, p.kits, r) <==> Askable(p.kits, r) && Permits(p, r)
  {
    hide UserOf, ToolOf, CanExecute, Graph, Fits, HeldPartObjects, Desired, Permits, ValidPolicy, Desires;
    assert Effective(stored, effective) == Desired(p);
    GraphPermits(p, Desired(p), r);
  }
}
