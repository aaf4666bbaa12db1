// The embedded engine: apply, writeTuples, deleteAll, deleteTuples, setToolGrants, Check and CheckBatch
// in internal/authz/embedded.go.
module AuthzEmbedded {
  import opened Text
  import opened AuthzIds
  import opened AuthzModel
  import opened AuthzPolicy
  import opened AuthzKey
  import opened SortedStrings

  const WRITE_CHUNK := 100
  const MAX_CONTEXTUAL_TUPLES := 100

  /** Every tool object that a tuple names. */
  function Tools(s: set<TupleKey>): set<string> {
    set t | t in s && "tool:" <= t.obj :: t.obj
  }

  predicate IsDeny(t: TupleKey) {
    t.relation == BLOCKED
  }

  /** The tuples that have a meaning under the current model; others are inert. */
  function Effective(s: set<TupleKey>, effective: TupleKey -> bool): set<TupleKey> {
    set t | t in s && effective(t)
  }

  /** The tuples the policy asks for, as apply collects them. */
  function Desired(p: Policy): (d: set<TupleKey>)
    ensures forall t :: t in d <==> Desires(p, t)
  {
    (set g, t | g in p.grants && t in GrantRules(g, EXECUTOR) :: t)
    + (set g, t | g in p.denies && t in GrantRules(g, BLOCKED) :: t)
    + (set k, t | k in p.kits && t in KitRules(k) :: t)
  }

  // ---------------------------------------------------------------------------------------------
  // What a check decides
  // ---------------------------------------------------------------------------------------------

  /** The number of contextual tuples is within the engine's limit of 100. */
  predicate Fits(kits: seq<Kit>, r: Request) {
    |ContextTuples(r, HeldPartObjects(kits, r.kitParts))| <= 100
  }

  /** A check on these stored tuples with these kits allows the request. */
  predicate Allowed(stored: set<TupleKey>, effective: TupleKey -> bool, kits: seq<Kit>, r: Request) {
    && r.userID != "" && r.tool != "" && Fits(kits, r)
    && CanExecute(Graph(Effective(stored, effective), r, HeldPartObjects(kits, r.kitParts)), UserOf(r.userID), ToolOf(r.tool))
  }

  ghost predicate AllowsNoMore(s: set<TupleKey>, t: set<TupleKey>, effective: TupleKey -> bool, kits: seq<Kit>) {
    forall r: Request :: Allowed(s, effective, kits, r) ==> Allowed(t, effective, kits, r)
  }

  /** Every effective stored tuple is a rule, as all tuples ToolMesh writes are. */
  ghost predicate EffectiveRules(s: set<TupleKey>, effective: TupleKey -> bool) {
    OnlyRules(Effective(s, effective))
  }

  // ---------------------------------------------------------------------------------------------
  // The states apply goes through
  // ---------------------------------------------------------------------------------------------

  /** Before new grants are written: all old denies are there, and no grant that is not old. */
  ghost predicate BeforeGrants(old': set<TupleKey>, s: set<TupleKey>) {
    && (forall t | t in old' && IsDeny(t) :: t in s)
    && (forall t | t in s && !IsDeny(t) :: t in old')
  }

  /** Afterwards: all new denies are there, and no grant that is not new or left behind. */
  ghost predicate AfterGrants(desired: set<TupleKey>, left: set<TupleKey>, s: set<TupleKey>) {
    && (forall t | t in desired && IsDeny(t) :: t in s)
    && (forall t | t in s && !IsDeny(t) :: t in desired || t in left)
  }

  ghost predicate InOrder(old': set<TupleKey>, desired: set<TupleKey>, left: set<TupleKey>, s: set<TupleKey>) {
    BeforeGrants(old', s) || AfterGrants(desired, left, s)
  }

  datatype Snapshot = Snapshot(stored: set<TupleKey>, toolGrants: set<string>)

  /** The states from `from` on lie between lo and hi, and toolGrants covers them. */
  ghost predicate Between(h: seq<Snapshot>, from: nat, lo: set<TupleKey>, hi: set<TupleKey>) {
    && from <= |h|
    && forall i | from <= i < |h| :: lo <= h[i].stored <= hi && Tools(h[i].stored) <= h[i].toolGrants
  }

  /** The states from `from` on are states of an ordered change, and toolGrants covers them. */
  ghost predicate Ordered(h: seq<Snapshot>, from: nat, old': set<TupleKey>, desired: set<TupleKey>, left: set<TupleKey>) {
    && from <= |h|
    && forall i | from <= i < |h| :: InOrder(old', desired, left, h[i].stored) && Tools(h[i].stored) <= h[i].toolGrants
  }

  /** At every step toolGrants contained every tool that a stored tuple named. */
  ghost predicate HistoryNamed(h: seq<Snapshot>) {
    forall i | 0 <= i < |h| :: Tools(h[i].stored) <= h[i].toolGrants
  }

  predicate KitToolsNamed(kits: seq<Kit>, toolGrants: set<string>) {
    forall k, t | k in kits && t in k.tools :: ToolOf(t) in toolGrants
  }

  predicate KitsStored(kits: seq<Kit>, stored: set<TupleKey>) {
    forall k, t | k in kits && t in KitRules(k) :: t in stored
  }

  lemma HistoryStaysNamed(h: seq<Snapshot>, h': seq<Snapshot>, old': set<TupleKey>, desired: set<TupleKey>, left: set<TupleKey>)
    requires HistoryNamed(h) && |h| <= |h'| && h'[..|h|] == h && Ordered(h', |h|, old', desired, left)
    ensures HistoryNamed(h')
  {
    forall i | 0 <= i < |h'| ensures Tools(h'[i].stored) <= h'[i].toolGrants {
      if i < |h| {
        assert h'[i] == h[i];
      }
    }
  }

  lemma OrderedGrows(h: seq<Snapshot>, h': seq<Snapshot>, from: nat, old': set<TupleKey>, desired: set<TupleKey>,
                     left: set<TupleKey>, left': set<TupleKey>, lo: set<TupleKey>, hi: set<TupleKey>)
    requires Ordered(h, from, old', desired, left) && left <= left'
    requires |h| <= |h'| && h'[..|h|] == h && Between(h', |h|, lo, hi)
    requires forall s: set<TupleKey> | lo <= s <= hi :: InOrder(old', desired, left', s)
    ensures Ordered(h', from, old', desired, left')
  {
    forall i | from <= i < |h'| ensures InOrder(old', desired, left', h'[i].stored) && Tools(h'[i].stored) <= h'[i].toolGrants {
      if i < |h| {
        assert h'[i] == h[i];
      }
    }
  }

  class Embedded {
    var stored: set<TupleKey>
    var toolGrants: set<string>
    var kits: seq<Kit>
    /** Which stored tuples the current model gives a meaning. */
    const effective: TupleKey -> bool
    /** The states after each call to the engine. */
    ghost var history: seq<Snapshot>

    /** bootstrap on a store that holds the given tuples. */
    constructor (found: set<TupleKey>, effective: TupleKey -> bool)
      ensures stored == found && kits == [] && history == [] && this.effective == effective
      ensures Valid() && Settled()
    {
      this.effective := effective;
      stored := found;
      toolGrants := Tools(found);
      kits := [];
      history := [];
    }

    /** toolGrants covers the tools with stored rules and those that a kit in effect lists. */
    ghost predicate Valid()
      reads this
    {
      Tools(stored) <= toolGrants && KitToolsNamed(kits, toolGrants) && HistoryNamed(history)
    }

    /** The rules of the kits in effect are stored, as after bootstrap and a successful apply. */
    ghost predicate Settled()
      reads this
    {
      KitsStored(kits, stored)
    }

    /** A write request: all or nothing. A failed one may have been carried out all the same. */
    method EngineWrite(writes: set<TupleKey>, deletes: set<TupleKey>) returns (ok: bool)
      requires Tools(stored) <= toolGrants && Tools(writes) <= toolGrants
      modifies this`stored, this`history
      ensures stored == old(stored) + writes - deletes || (!ok && stored == old(stored))
      ensures history == old(history) + [Snapshot(stored, toolGrants)]
      ensures Tools(stored) <= toolGrants
    {
      ok := *;
      var ran: bool := *;
      if ok || ran {
        stored := stored + writes - deletes;
      }
      history := history + [Snapshot(stored, toolGrants)];
    }

    method SetToolGrants(tuples: set<TupleKey>)
      modifies this`toolGrants
      ensures toolGrants == Tools(tuples)
    {
      toolGrants := Tools(tuples);
    }

    method WriteTuples(ts: seq<TupleKey>) returns (written: nat, ok: bool)
      requires Tools(stored) <= toolGrants && Tools(AsSet(ts)) <= toolGrants
      modifies this`stored, this`history
      ensures old(stored) <= stored <= old(stored) + AsSet(ts) && Tools(stored) <= toolGrants
      ensures ok ==> stored == old(stored) + AsSet(ts) && written == |ts|
      ensures |old(history)| <= |history| && history[..|old(history)|] == old(history)
      ensures Between(history, |old(history)|, old(stored), old(stored) + AsSet(ts))
    {
      written := 0;
      while written < |ts|
        invariant 0 <= written <= |ts|
        invariant stored == old(stored) + AsSet(ts[..written]) && Tools(stored) <= toolGrants
        invariant |old(history)| <= |history| && history[..|old(history)|] == old(history)
        invariant Between(history, |old(history)|, old(stored), old(stored) + AsSet(ts))
      {
        hide Tools;
        var end := if written + WRITE_CHUNK < |ts| then written + WRITE_CHUNK else |ts|;
        var chunk := ts[written..end];
        ChunkFacts(ts, written, end, toolGrants);
        ok := EngineWrite(AsSet(chunk), {});
        if !ok {
          return written, false;
        }
        written := end;
      }
      assert ts[..|ts|] == ts;
      return written, true;
    }

    /** Deletes a chunk in one request, or tuple by tuple when that fails. */
    method DeleteTuples(chunk: seq<TupleKey>) returns (deleted: nat, ok: bool, ghost left: set<TupleKey>)
      requires Tools(stored) <= toolGrants
      modifies this`stored, this`history
      ensures old(stored) - AsSet(chunk) <= stored <= old(stored) && Tools(stored) <= toolGrants
      ensures left <= AsSet(chunk) && (ok ==> stored <= old(stored) - AsSet(chunk) + left)
      ensures deleted <= |chunk|
      ensures |old(history)| <= |history| && history[..|old(history)|] == old(history)
      ensures Between(history, |old(history)|, old(stored) - AsSet(chunk), old(stored))
    {
      ghost var before := stored;
      left := {};
      NoTools(toolGrants);
      ok := EngineWrite({}, AsSet(chunk));
      if ok {
        return |chunk|, true, {};
      }
      deleted := 0;
      for i := 0 to |chunk|
        invariant before - AsSet(chunk) <= stored <= before && Tools(stored) <= toolGrants
        invariant left <= AsSet(chunk[..i]) && stored <= before - AsSet(chunk[..i]) + left
        invariant deleted <= i
        invariant |old(history)| <= |history| && history[..|old(history)|] == old(history)
        invariant Between(history, |old(history)|, before - AsSet(chunk), before)
      {
        hide Tools;
        AsSetAppend(chunk, i);
        var cancelled: bool := *;
        if cancelled {
          AsSetPrefix(chunk, i);
          return deleted, false, left;
        }
        var gone := EngineWrite({}, {chunk[i]});
        if gone {
          deleted := deleted + 1;
        } else {
          left := left + {chunk[i]};
        }
      }
      assert chunk[..|chunk|] == chunk;
      return deleted, true, left;
    }

    method DeleteAll(ts: seq<TupleKey>) returns (deleted: nat, ok: bool, ghost left: set<TupleKey>)
      requires Tools(stored) <= toolGrants
      modifies this`stored, this`history
      ensures old(stored) - AsSet(ts) <= stored <= old(stored) && Tools(stored) <= toolGrants
      ensures left <= AsSet(ts) && (ok ==> stored <= old(stored) - AsSet(ts) + left)
      ensures |old(history)| <= |history| && history[..|old(history)|] == old(history)
      ensures Between(history, |old(history)|, old(stored) - AsSet(ts), old(stored))
    {
      ghost var before := stored;
      deleted, left := 0, {};
      var done := 0;
      while done < |ts|
        invariant 0 <= done <= |ts|
        invariant before - AsSet(ts) <= stored <= before - AsSet(ts[..done]) + left && stored <= before && Tools(stored) <= toolGrants
        invariant left <= AsSet(ts[..done])
        invariant |old(history)| <= |history| && history[..|old(history)|] == old(history)
        invariant Between(history, |old(history)|, before - AsSet(ts), before)
      {
        hide Tools;
        var end := if done + WRITE_CHUNK < |ts| then done + WRITE_CHUNK else |ts|;
        AsSetSlice(ts, done, end);
        AsSetPrefix(ts, end);
        var n, fine, remained := DeleteTuples(ts[done..end]);
        deleted := deleted + n;
        left := left + remained;
        if !fine {
          return deleted, false, left;
        }
        done := end;
      }
      assert ts[..|ts|] == ts;
      return deleted, true, left;
    }

    /** apply, from a settled state. left holds what the engine would not delete. */
    method Apply(p: Policy) returns (ok: bool, ghost left: set<TupleKey>)
      requires Valid() && Settled()
      modifies this
      ensures Valid()
      ensures |old(history)| <= |history| && history[..|old(history)|] == old(history)
      ensures Ordered(history, |old(history)|, old(stored), Desired(p), left) && InOrder(old(stored), Desired(p), left, stored)
      ensures left <= old(stored) - Desired(p)
      ensures ok ==> ValidPolicy(p) && kits == p.kits && Settled() && Desired(p) <= stored <= Desired(p) + left
      ensures !ok ==> kits == old(kits)
      ensures !ValidPolicy(p) ==> stored == old(stored) && toolGrants == old(toolGrants)
    {
      hide Tools, InOrder, Ordered, Desired, KitsStored, KitToolsNamed, HistoryNamed, ValidPolicy, AsSet;
      left := {};
      NothingChanged(history, stored, Desired(p));
      if !ValidPolicy(p) {
        return false, {};
      }
      var desired := Desired(p);
      var readable: bool := *;
      if !readable {
        return false, {};
      }
      ghost var before := history;
      var current := stored;
      var writes := ListOf(desired - current);
      var deletes := ListOf(current - desired);
      SetToolGrants(current + desired);
      StoredKitsNamed(kits, current, current + desired);
      ok, left := ChangeStore(current, desired, writes, deletes);
      HistoryStaysNamed(before, history, current, desired, left);
      if !ok {
        return;
      }
      PolicyKitsStored(p, stored);
      StoredKitsNamed(p.kits, stored, stored);
      readable := *;
      if readable {
        SetToolGrants(stored);
      } else {
        StoredKitsNamed(p.kits, desired, current + desired);
      }
      kits := p.kits;
    }

    /** The four steps of apply. */
    method ChangeStore(current: set<TupleKey>, desired: set<TupleKey>, writes: seq<TupleKey>, deletes: seq<TupleKey>)
      returns (ok: bool, ghost left: set<TupleKey>)
      requires stored == current && toolGrants == Tools(current + desired)
      requires AsSet(writes) == desired - current && AsSet(deletes) == current - desired
      modifies this`stored, this`history
      ensures Tools(stored) <= toolGrants
      ensures |old(history)| <= |history| && history[..|old(history)|] == old(history)
      ensures Ordered(history, |old(history)|, current, desired, left) && InOrder(current, desired, left, stored)
      ensures left <= current - desired
      ensures ok ==> desired <= stored <= desired + left
    {
      hide Tools, InOrder, Ordered, Between, BeforeGrants, AfterGrants, Pick, AsSet;
      StepTools(current, desired, writes);
      ok, left := RemoveGrants(current, desired, writes, deletes);
      if ok {
        ok, left := AddGrants(current, desired, writes, deletes, left, |old(history)|);
      }
    }

    /** The first two steps: new denies, then removed grants. */
    method RemoveGrants(current: set<TupleKey>, desired: set<TupleKey>, writes: seq<TupleKey>, deletes: seq<TupleKey>)
      returns (ok: bool, ghost left: set<TupleKey>)
      requires stored == current && Tools(stored) <= toolGrants && Tools(AsSet(Pick(writes, true))) <= toolGrants
      requires AsSet(deletes) == current - desired
      modifies this`stored, this`history
      ensures Tools(stored) <= toolGrants
      ensures |old(history)| <= |history| && history[..|old(history)|] == old(history)
      ensures Ordered(history, |old(history)|, current, desired, left) && InOrder(current, desired, left, stored)
      ensures left <= current - desired
      ensures ok ==> var mid := current + AsSet(Pick(writes, true)) - AsSet(Pick(deletes, false)); mid <= stored <= mid + left
    {
      hide Tools, InOrder, Between, BeforeGrants, AfterGrants, Pick;
      ghost var h0 := history;
      left := {};
      ghost var denies, grants := AsSet(Pick(writes, true)), AsSet(Pick(deletes, false));
      PickedKinds(writes, deletes);
      var n: nat;
      n, ok := WriteTuples(Pick(writes, true));
      forall s: set<TupleKey> | current <= s <= current + denies ensures InOrder(current, desired, {}, s) {
        FirstStep(current, desired, denies, s);
      }
      OrderedGrows(h0, history, |h0|, current, desired, {}, {}, current, current + denies);
      if !ok {
        return false, {};
      }
      ghost var h1, s1 := history, stored;
      n, ok, left := DeleteAll(Pick(deletes, false));
      forall s: set<TupleKey> | s1 - grants <= s <= s1 ensures InOrder(current, desired, left, s) {
        SecondStep(current, desired, denies, grants, s);
        MoreLeft(current, desired, {}, left, s);
      }
      OrderedGrows(h1, history, |h0|, current, desired, {}, left, s1 - grants, s1);
      DeletesBounded(current, desired, deletes, false);
    }

    /** The last two steps: new grants, then removed denies. */
    method AddGrants(current: set<TupleKey>, desired: set<TupleKey>, writes: seq<TupleKey>, deletes: seq<TupleKey>,
                     ghost refused: set<TupleKey>, ghost from: nat) returns (ok: bool, ghost left: set<TupleKey>)
      requires Tools(stored) <= toolGrants && Tools(AsSet(Pick(writes, false))) <= toolGrants
      requires AsSet(writes) == desired - current && AsSet(deletes) == current - desired && refused <= current - desired
      requires var mid := current + AsSet(Pick(writes, true)) - AsSet(Pick(deletes, false)); mid <= stored <= mid + refused
      requires Ordered(history, from, current, desired, refused)
      modifies this`stored, this`history
      ensures Tools(stored) <= toolGrants
      ensures |old(history)| <= |history| && history[..|old(history)|] == old(history)
      ensures Ordered(history, from, current, desired, left) && InOrder(current, desired, left, stored)
      ensures left <= current - desired
      ensures ok ==> desired <= stored <= desired + left
    {
      hide Tools, InOrder, Between, Ordered, BeforeGrants, AfterGrants, Pick, AsSet;
      left := refused;
      ghost var h2, s2 := history, stored;
      var n: nat;
      n, ok := WriteTuples(Pick(writes, false));
      ghost var h3, s3 := history, stored;
      forall s: set<TupleKey> | s2 <= s <= s2 + AsSet(Pick(writes, false))
        ensures AfterGrants(desired, left, s) && InOrder(current, desired, left, s)
      {
        ThirdStep(current, desired, writes, deletes, left, s2, s);
      }
      OrderedGrows(h2, h3, from, current, desired, left, left, s2, s2 + AsSet(Pick(writes, false)));
      if !ok {
        return false, left;
      }
      ghost var more: set<TupleKey>;
      n, ok, more := DeleteAll(Pick(deletes, true));
      left := left + more;
      forall s: set<TupleKey> | s3 - AsSet(Pick(deletes, true)) <= s <= s3 ensures InOrder(current, desired, left, s) {
        FourthStep(current, desired, writes, deletes, refused, left, s3, s);
      }
      OrderedGrows(h3, history, from, current, desired, refused, left, s3 - AsSet(Pick(deletes, true)), s3);
      DeletesBounded(current, desired, deletes, true);
      if ok {
        AllSteps(current, desired, writes, deletes, refused, more, s2, s3, stored);
      }
    }

    /** The contextual tuples, built as Check builds them. */
    method BuildContext(r: Request) returns (ctx: seq<TupleKey>)
      ensures ctx == ContextTuples(r, HeldPartObjects(kits, r.kitParts))
    {
      hide Structure, HeldPartObjects, FirstOccurrences;
      var user := UserOf(r.userID);
      ctx := Structure(r);
      if r.companyID != "" {
        ctx := ctx + [TupleKey(user, "member", CompanyOf(r.companyID))];
      }
      if r.plan != "" {
        ctx := ctx + [TupleKey(user, "subscriber", PlanOf(r.plan))];
      }
      assert ctx == Structure(r) + Identity(r);
      var roles := Unseen(r.roles, {""});
      ctx := ctx + RoleTuples(user, roles);
      var held := Unseen(r.kits, {""});
      ctx := ctx + KitTuples(user, held);
      var objects := HeldObjects(r.kitParts);
      var distinct := Unseen(objects, {});
      ctx := ctx + PartTuples(user, distinct);
    }

    /** The loop over the kit parts the caller holds. */
    method HeldObjects(parts: seq<KitPart>) returns (objects: seq<string>)
      ensures objects == HeldPartObjects(kits, parts)
    {
      hide PartObjects, FindKit, HeldPartObjects;
      objects := [];
      assert parts[0..] == parts;
      for i := 0 to |parts|
        invariant objects + HeldPartObjects(kits, parts[i..]) == HeldPartObjects(kits, parts)
      {
        HeldStep(parts, i);
        var found := FindKit(kits, parts[i].kit);
        if found.Some? {
          objects := objects + PartObjects(found.value, parts[i]);
        }
      }
      HeldNone();
      assert parts[|parts|..] == [] && objects + [] == objects;
    }

    lemma HeldStep(parts: seq<KitPart>, i: nat)
      requires i < |parts|
      ensures HeldPartObjects(kits, parts[i..])
           == match FindKit(kits, parts[i].kit)
              case None => HeldPartObjects(kits, parts[i + 1..])
              case Some(k) => PartObjects(k, parts[i]) + HeldPartObjects(kits, parts[i + 1..])
    {
      hide PartObjects, FindKit;
      assert parts[i..][1..] == parts[i + 1..];
    }

    lemma HeldNone()
      ensures HeldPartObjects(kits, []) == []
    {
    }

    /** Check. An error, the engine's or that of a caller with too many kit entries, decides nothing. */
    method Check(r: Request) returns (allowed: bool, ok: bool)
      ensures ok ==> allowed == Allowed(stored, effective, kits, r)
      ensures !ok ==> !allowed
      ensures !ok ==> r.userID != "" && r.tool != ""
      ensures !Fits(kits, r) && r.userID != "" && r.tool != "" ==> !ok
    {
      if r.userID == "" || r.tool == "" {
        return false, true;
      }
      var ctx := BuildContext(r);
      if |ctx| > MAX_CONTEXTUAL_TUPLES {
        return false, false;
      }
      var answered: bool := *;
      if !answered {
        return false, false;
      }
      return CanExecute(Effective(stored, effective) + AsSet(ctx), UserOf(r.userID), ToolOf(r.tool)), true;
    }

    /** CheckBatch: failed are the requests for which an error is reported. */
    method CheckBatch(reqs: seq<Request>) returns (out: seq<bool>, failed: set<int>)
      requires Valid() && EffectiveRules(stored, effective)
      ensures |out| == |reqs|
      ensures forall i | 0 <= i < |reqs| :: out[i] == Allowed(stored, effective, kits, reqs[i]) || (i in failed && !out[i])
    {
      hide Allowed, EquivalenceKey, Tools, KitToolsNamed, HistoryNamed, EffectiveRules;
      out, failed := [], {};
      var decided: map<string, bool> := map[];
      for i := 0 to |reqs|
        invariant |out| == i
        invariant forall j | 0 <= j < i :: out[j] == Allowed(stored, effective, kits, reqs[j]) || (j in failed && !out[j])
        invariant forall j | j in failed :: 0 <= j < i
        invariant forall r: Request | EquivalenceKey(r) in decided && ToolOf(r.tool) !in toolGrants ::
                    decided[EquivalenceKey(r)] == Allowed(stored, effective, kits, r)
      {
        var r := reqs[i];
        var key := "";
        var known := false;
        if ToolOf(r.tool) !in toolGrants {
          key := BuildKey(r);
          KeyNotEmpty(r);
          if key in decided {
            out := out + [decided[key]];
            known := true;
          }
        }
        if !known {
          var allowed, ok := Check(r);
          out := out + [allowed];
          if !ok {
            failed := failed + {i};
          } else if key != "" {
            forall x: Request | EquivalenceKey(x) == key && ToolOf(x.tool) !in toolGrants
              ensures Allowed(stored, effective, kits, x) == allowed
            {
              SharedVerdict(stored, effective, kits, toolGrants, r, x);
            }
            decided := decided[key := allowed];
          }
        }
      }
    }
  }

  // ---------------------------------------------------------------------------------------------
  // Sets and chunks
  // ---------------------------------------------------------------------------------------------

  lemma NoTools(toolGrants: set<string>)
    ensures Tools({}) <= toolGrants
  {
  }

  lemma AsSetAppend<T>(xs: seq<T>, i: nat)
    requires i < |xs|
    ensures AsSet(xs[..i + 1]) == AsSet(xs[..i]) + {xs[i]}
    ensures xs[i] in AsSet(xs)
  {
    assert xs[..i + 1] == xs[..i] + [xs[i]];
  }

  lemma AsSetPrefix<T>(xs: seq<T>, i: nat)
    requires i <= |xs|
    ensures AsSet(xs[..i]) <= AsSet(xs)
  {
    assert forall x | x in xs[..i] :: x in xs;
  }

  lemma AsSetSlice<T>(xs: seq<T>, i: nat, j: nat)
    requires i <= j <= |xs|
    ensures AsSet(xs[..j]) == AsSet(xs[..i]) + AsSet(xs[i..j])
    ensures AsSet(xs[i..j]) <= AsSet(xs)
  {
    assert xs[..j] == xs[..i] + xs[i..j];
    assert forall x | x in xs[i..j] :: x in xs;
  }

  lemma ChunkFacts(ts: seq<TupleKey>, i: nat, j: nat, toolGrants: set<string>)
    requires i <= j <= |ts| && Tools(AsSet(ts)) <= toolGrants
    ensures AsSet(ts[..j]) == AsSet(ts[..i]) + AsSet(ts[i..j])
    ensures AsSet(ts[i..j]) <= AsSet(ts) && AsSet(ts[..j]) <= AsSet(ts)
    ensures Tools(AsSet(ts[i..j])) <= toolGrants
  {
    AsSetSlice(ts, i, j);
    AsSetPrefix(ts, j);
    assert Tools(AsSet(ts[i..j])) <= Tools(AsSet(ts));
  }

  /** The elements of a set, in some order. */
  method ListOf(s: set<TupleKey>) returns (ts: seq<TupleKey>)
    ensures AsSet(ts) == s
  {
    ts := [];
    var rest := s;
    while rest != {}
      invariant rest <= s && AsSet(ts) == s - rest
      decreases |rest|
    {
      var t :| t in rest;
      rest := rest - {t};
      ghost var before := ts;
      ts := ts + [t];
      assert AsSet(ts) == AsSet(before) + {t};
    }
  }

  /** filterTuples with isDeny or isGrant. */
  function Pick(ts: seq<TupleKey>, deny: bool): seq<TupleKey> {
    if ts == [] then [] else (if IsDeny(ts[0]) == deny then [ts[0]] else []) + Pick(ts[1..], deny)
  }

  lemma {:induction false} PickMeaning(ts: seq<TupleKey>, deny: bool, t: TupleKey)
    ensures t in Pick(ts, deny) <==> t in ts && IsDeny(t) == deny
    decreases |ts|
  {
    if ts != [] {
      PickMeaning(ts[1..], deny, t);
      assert ts == [ts[0]] + ts[1..];
    }
  }

  lemma PickSplits(ts: seq<TupleKey>)
    ensures AsSet(Pick(ts, true)) == set t | t in ts && IsDeny(t)
    ensures AsSet(Pick(ts, false)) == set t | t in ts && !IsDeny(t)
  {
    forall t { PickMeaning(ts, true, t); }
    forall t { PickMeaning(ts, false, t); }
  }

  lemma ToolsMonotone(a: set<TupleKey>, b: set<TupleKey>)
    ensures a <= b ==> Tools(a) <= Tools(b)
  {
  }

  lemma StepTools(current: set<TupleKey>, desired: set<TupleKey>, writes: seq<TupleKey>)
    requires AsSet(writes) == desired - current
    ensures Tools(current) <= Tools(current + desired)
    ensures Tools(AsSet(Pick(writes, true))) <= Tools(current + desired)
    ensures Tools(AsSet(Pick(writes, false))) <= Tools(current + desired)
  {
    PickSplits(writes);
    assert forall t | t in writes :: t in AsSet(writes);
    ToolsMonotone(current, current + desired);
    ToolsMonotone(AsSet(Pick(writes, true)), current + desired);
    ToolsMonotone(AsSet(Pick(writes, false)), current + desired);
  }

  lemma NothingChanged(h: seq<Snapshot>, stored: set<TupleKey>, desired: set<TupleKey>)
    ensures Ordered(h, |h|, stored, desired, {}) && InOrder(stored, desired, {}, stored)
  {
    assert BeforeGrants(stored, stored);
  }

  /** The tools of kits whose rules are stored are named by stored tuples. */
  lemma StoredKitsNamed(kits: seq<Kit>, stored: set<TupleKey>, more: set<TupleKey>)
    requires KitsStored(kits, stored) && stored <= more
    ensures KitToolsNamed(kits, Tools(more))
  {
    hide KitRules;
    forall k, t | k in kits && t in k.tools ensures ToolOf(t) in Tools(more) {
      KitListsTool(k, t);
      var x := TupleKey(Holder(k), EXECUTOR, ToolOf(t));
      assert x in KitRules(k);
      assert x in more && "tool:" <= x.obj;
    }
  }

  lemma KitListsTool(k: Kit, t: string)
    requires t in k.tools
    ensures TupleKey(Holder(k), EXECUTOR, ToolOf(t)) in KitRules(k)
  {
    hide ScopeObjects, ToolOf, Holder;
    var i :| 0 <= i < |k.tools| && k.tools[i] == t;
    var objects := ScopeObjects(k.grants) + ToolObjects(k.tools);
    assert objects[|ScopeObjects(k.grants)| + i] == ToolOf(t);
    assert KitRules(k)[|ScopeObjects(k.grants)| + i] == TupleKey(Holder(k), EXECUTOR, ToolOf(t));
  }

  lemma PolicyKitsStored(p: Policy, stored: set<TupleKey>)
    ensures KitsStored(p.kits, Desired(p))
    ensures Desired(p) <= stored ==> KitsStored(p.kits, stored)
  {
    hide KitRules, Desired, GrantRules;
    forall k, t | k in p.kits && t in KitRules(k) ensures t in Desired(p) {
      assert Desires(p, t);
    }
  }

  lemma MoreLeft(old': set<TupleKey>, desired: set<TupleKey>, left: set<TupleKey>, more: set<TupleKey>, s: set<TupleKey>)
    requires InOrder(old', desired, left, s) && left <= more
    ensures InOrder(old', desired, more, s)
  {
  }

  lemma PickedKinds(writes: seq<TupleKey>, deletes: seq<TupleKey>)
    ensures forall t | t in AsSet(Pick(writes, true)) :: IsDeny(t)
    ensures forall t | t in AsSet(Pick(deletes, false)) :: !IsDeny(t)
  {
    PickSplits(writes);
    PickSplits(deletes);
  }

  lemma DeletesBounded(current: set<TupleKey>, desired: set<TupleKey>, deletes: seq<TupleKey>, deny: bool)
    requires AsSet(deletes) == current - desired
    ensures AsSet(Pick(deletes, deny)) <= current - desired
  {
    PickSplits(deletes);
    assert forall t :: t in deletes <==> t in AsSet(deletes);
  }

  /** Where the four steps lead when all of them are carried out. */
  lemma AllSteps(current: set<TupleKey>, desired: set<TupleKey>, writes: seq<TupleKey>, deletes: seq<TupleKey>,
                 refused: set<TupleKey>, more: set<TupleKey>, s2: set<TupleKey>, s3: set<TupleKey>, s: set<TupleKey>)
    requires AsSet(writes) == desired - current && AsSet(deletes) == current - desired
    requires var mid := current + AsSet(Pick(writes, true)) - AsSet(Pick(deletes, false)); mid <= s2 <= mid + refused
    requires s3 == s2 + AsSet(Pick(writes, false))
    requires s3 - AsSet(Pick(deletes, true)) <= s <= s3 - AsSet(Pick(deletes, true)) + more
    ensures desired <= s <= desired + refused + more
  {
    PickSplits(writes);
    PickSplits(deletes);
    assert forall t :: t in writes <==> t in AsSet(writes);
    assert forall t :: t in deletes <==> t in AsSet(deletes);
  }

  /** New denies are written. */
  lemma FirstStep(old': set<TupleKey>, desired: set<TupleKey>, denies: set<TupleKey>, s: set<TupleKey>)
    requires old' <= s <= old' + denies && forall t | t in denies :: IsDeny(t)
    ensures InOrder(old', desired, {}, s)
  {
    assert BeforeGrants(old', s);
  }

  /** Old grants are deleted. */
  lemma SecondStep(old': set<TupleKey>, desired: set<TupleKey>, denies: set<TupleKey>, grants: set<TupleKey>, s: set<TupleKey>)
    requires old' + denies - grants <= s <= old' + denies
    requires (forall t | t in denies :: IsDeny(t)) && forall t | t in grants :: !IsDeny(t)
    ensures InOrder(old', desired, {}, s)
  {
    assert BeforeGrants(old', s);
  }

  /** New grants are written. */
  lemma ThirdStep(old': set<TupleKey>, desired: set<TupleKey>, writes: seq<TupleKey>, deletes: seq<TupleKey>,
                  left: set<TupleKey>, s2: set<TupleKey>, s: set<TupleKey>)
    requires AsSet(writes) == desired - old' && AsSet(deletes) == old' - desired
    requires var mid := old' + AsSet(Pick(writes, true));
             mid - AsSet(Pick(deletes, false)) <= s2 <= mid - AsSet(Pick(deletes, false)) + left
    requires s2 <= s <= s2 + AsSet(Pick(writes, false))
    ensures AfterGrants(desired, left, s) && InOrder(old', desired, left, s)
  {
    PickSplits(writes);
    PickSplits(deletes);
    assert forall t :: t in writes <==> t in AsSet(writes);
    assert forall t :: t in deletes <==> t in AsSet(deletes);
    assert AfterGrants(desired, left, s);
  }

  /** Old denies are deleted. */
  lemma FourthStep(old': set<TupleKey>, desired: set<TupleKey>, writes: seq<TupleKey>, deletes: seq<TupleKey>,
                   leftGrants: set<TupleKey>, left: set<TupleKey>, s3: set<TupleKey>, s: set<TupleKey>)
    requires AsSet(writes) == desired - old' && AsSet(deletes) == old' - desired && leftGrants <= left
    requires AfterGrants(desired, leftGrants, s3)
    requires s3 - AsSet(Pick(deletes, true)) <= s <= s3
    ensures InOrder(old', desired, left, s)
  {
    PickSplits(writes);
    PickSplits(deletes);
    assert forall t :: t in deletes <==> t in AsSet(deletes);
    assert AfterGrants(desired, left, s);
  }

  // ---------------------------------------------------------------------------------------------
  // Sharing a verdict
  // ---------------------------------------------------------------------------------------------

  /** A loop over names with a map of those already seen. */
  method Unseen(xs: seq<string>, skip: set<string>) returns (out: seq<string>)
    ensures out == FirstOccurrences(xs, skip)
  {
    var seen := skip;
    out := [];
    for i := 0 to |xs|
      invariant out + FirstOccurrences(xs[i..], seen) == FirstOccurrences(xs, skip)
    {
      assert xs[i..][1..] == xs[i + 1..];
      if xs[i] !in seen {
        seen := seen + {xs[i]};
        out := out + [xs[i]];
      }
    }
  }

  /** No object of a held kit part is the tool's own, unless toolGrants names it. */
  lemma {:induction false} PartObjectsNamed(kits: seq<Kit>, parts: seq<KitPart>, toolGrants: set<string>, tool: string)
    requires KitToolsNamed(kits, toolGrants) && ToolOf(tool) !in toolGrants
    ensures ToolOf(tool) !in HeldPartObjects(kits, parts)
    decreases |parts|
  {
    hide PartObjects, FindKit, KitToolsNamed, ToolOf;
    if parts != [] {
      PartObjectsNamed(kits, parts[1..], toolGrants, tool);
      var found := FindKit(kits, parts[0].kit);
      if found.Some? {
        FoundKit(kits, parts[0].kit);
        OnePartNamed(kits, found.value, parts[0], toolGrants, tool);
      }
    }
  }

  lemma {:induction false} FoundKit(kits: seq<Kit>, name: string)
    ensures FindKit(kits, name).Some? ==> FindKit(kits, name).value in kits && FindKit(kits, name).value.name == name
    decreases |kits|
  {
    if kits != [] {
      FoundKit(kits[1..], name);
    }
  }

  lemma OnePartNamed(kits: seq<Kit>, k: Kit, p: KitPart, toolGrants: set<string>, tool: string)
    requires k in kits && KitToolsNamed(kits, toolGrants) && ToolOf(tool) !in toolGrants
    ensures ToolOf(tool) !in PartObjects(k, p)
  {
    hide ToolOf, Listed;
    ScopesAreNoTools(Listed(p.grants, k.grants), tool);
    var tools := Listed(p.tools, k.tools);
    forall i | 0 <= i < |tools| ensures ToolOf(tools[i]) != ToolOf(tool) {
      ListedMeaning(p.tools, k.tools, tools[i]);
      assert tools[i] in tools;
    }
  }

  lemma {:induction false} ScopesAreNoTools(grants: seq<string>, tool: string)
    ensures ToolOf(tool) !in ScopeObjects(grants)
    decreases |grants|
  {
    hide ParseKitScope, ToolOf, BackendOf, AccessClassOf, BackendAccessOf, INSTANCE;
    if grants != [] {
      ScopesAreNoTools(grants[1..], tool);
      if ParseKitScope(grants[0]).Ok? {
        var s := ParseKitScope(grants[0]).value;
        DistinctPrefixes(tool, s.backend);
        DistinctPrefixes(tool, s.access);
      }
    }
  }

  lemma SameCount(xs: seq<string>, ys: seq<string>, seen: set<string>)
    requires SameMembers(xs, ys)
    ensures |FirstOccurrences(xs, seen)| == |FirstOccurrences(ys, seen)|
  {
    FirstOccurrencesSet(xs, seen);
    FirstOccurrencesSet(ys, seen);
    assert AsSet(xs) == AsSet(ys);
  }

  lemma SameFit(kits: seq<Kit>, a: Request, b: Request)
    requires Equivalent(a, b)
    ensures Fits(kits, a) <==> Fits(kits, b)
  {
    hide UserOf, ToolOf, BackendOf, AccessClassOf, BackendAccessOf, INSTANCE, PlanOf, CompanyOf, HeldPartObjects, FirstOccurrences, SameMembers;
    SameCount(a.roles, b.roles, {""});
    SameCount(a.kits, b.kits, {""});
  }

  lemma SameSubjects(a: Request, b: Request, u: string)
    requires Equivalent(a, b)
    ensures IsSubject(a, u) <==> IsSubject(b, u)
  {
    hide UserOf, CompanyOf, PlanOf, RoleOf, KitOf, Userset;
  }

  /** Off the tools' own objects, equivalent requests concern the same objects. */
  lemma SameObjects(a: Request, b: Request, o: string)
    requires Equivalent(a, b) && o != ToolOf(a.tool) && o != ToolOf(b.tool)
    ensures IsObject(a, o) <==> IsObject(b, o)
    ensures IsBlockObject(a, o) <==> IsBlockObject(b, o)
  {
    hide ToolOf, BackendOf, AccessClassOf, BackendAccessOf, INSTANCE, SameMembers;
  }

  lemma StoredObjectsNamed(stored: set<TupleKey>, effective: TupleKey -> bool, toolGrants: set<string>, tool: string)
    requires Tools(stored) <= toolGrants && ToolOf(tool) !in toolGrants
    ensures forall t | t in Effective(stored, effective) :: t.obj != ToolOf(tool)
  {
    hide EscapeID;
    assert "tool:" <= ToolOf(tool);
  }

  lemma SameJoin(s: set<TupleKey>, objects: seq<string>, a: Request, b: Request)
    requires Equivalent(a, b)
    requires forall t | t in s :: t.obj != ToolOf(a.tool) && t.obj != ToolOf(b.tool)
    requires ToolOf(a.tool) !in objects && ToolOf(b.tool) !in objects
    ensures Joined(s, a, objects) ==> Joined(s, b, objects)
  {
    hide ToolOf, IsSubject, IsObject, IsBlockObject, Equivalent;
    forall u { SameSubjects(a, b, u); }
    forall o | o != ToolOf(a.tool) && o != ToolOf(b.tool)
      ensures (IsObject(a, o) <==> IsObject(b, o)) && (IsBlockObject(a, o) <==> IsBlockObject(b, o))
    {
      SameObjects(a, b, o);
    }
  }

  lemma EquivalentSymmetric(a: Request, b: Request)
    requires Equivalent(a, b)
    ensures Equivalent(b, a)
  {
  }

  /** Two tools without rules of their own get the same verdict under the same key. */
  lemma SharedVerdict(stored: set<TupleKey>, effective: TupleKey -> bool, kits: seq<Kit>, toolGrants: set<string>, a: Request, b: Request)
    requires Tools(stored) <= toolGrants && KitToolsNamed(kits, toolGrants) && EffectiveRules(stored, effective)
    requires ToolOf(a.tool) !in toolGrants && ToolOf(b.tool) !in toolGrants
    requires EquivalenceKey(a) == EquivalenceKey(b)
    ensures Allowed(stored, effective, kits, a) <==> Allowed(stored, effective, kits, b)
  {
    hide ToolOf, UserOf, Joined, CanExecute, Graph, Fits, EquivalenceKey, Tools, KitToolsNamed, Effective, HeldPartObjects, SameMembers;
    KeyIsExact(a, b);
    EquivalentSymmetric(a, b);
    SameFit(kits, a, b);
    var s, objects := Effective(stored, effective), HeldPartObjects(kits, a.kitParts);
    GraphMeaning(s, a, objects);
    GraphMeaning(s, b, objects);
    StoredObjectsNamed(stored, effective, toolGrants, a.tool);
    StoredObjectsNamed(stored, effective, toolGrants, b.tool);
    PartObjectsNamed(kits, a.kitParts, toolGrants, a.tool);
    PartObjectsNamed(kits, a.kitParts, toolGrants, b.tool);
    SameJoin(s, objects, a, b);
    SameJoin(s, objects, b, a);
  }
}
