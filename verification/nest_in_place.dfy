// Nesting dotted keys by updating maps in place: insertNested and nestDottedKeys in
// internal/backend/restadapter.go, against the functions of module NestKeys.
module NestInPlace {
  import opened Text
  import opened JsonPath
  import opened JsonPathSyntax
  import opened JsonHeap
  import opened NestKeys

  // ---------------------------------------------------------------------------------------------
  // A map inside the tree
  // ---------------------------------------------------------------------------------------------

  /** path leads from the root of t through maps to a map. */
  ghost predicate Leads(t: Tree, path: seq<string>)
    decreases |path|
  {
    t.ObjectTree? && (path == [] || (path[0] in t.members && Leads(t.members[path[0]], path[1..])))
  }

  ghost function End(t: Tree, path: seq<string>): (e: Tree)
    requires Leads(t, path)
    ensures e.ObjectTree?
    decreases |path|
  {
    if path == [] then t else End(t.members[path[0]], path[1..])
  }

  lemma {:induction false} EndInside(t: Tree, path: seq<string>)
    requires Owned(t) && Leads(t, path)
    ensures Owned(End(t, path)) && End(t, path).obj in Foot(t) && Foot(End(t, path)) <= Foot(t)
    decreases |path|
  {
    if path != [] {
      EndInside(t.members[path[0]], path[1..]);
    }
  }

  /** In the present state node is the root of t, the contents of the map that path leads to aside. */
  ghost predicate Around(node: Node, t: Tree, path: seq<string>)
    requires Owned(t) && Leads(t, path)
    reads Foot(t) - {End(t, path).obj}
    decreases |path|
  {
    EndInside(t, path);
    node == ObjectRef(t.obj) &&
    (path != [] ==>
       var p := path[0];
       EndInside(t.members[p], path[1..]);
       && t.obj.members.Keys == t.members.Keys
       && Around(t.obj.members[p], t.members[p], path[1..])
       && forall k | k in t.members && k != p :: Matches(t.obj.members[k], t.members[k]))
  }

  lemma {:induction false} Surrounds(node: Node, t: Tree, path: seq<string>)
    requires Owned(t) && Leads(t, path) && Matches(node, t)
    ensures Around(node, t, path) && Owned(End(t, path)) && Matches(ObjectRef(End(t, path).obj), End(t, path))
    decreases |path|
  {
    if path != [] {
      Surrounds(t.obj.members[path[0]], t.members[path[0]], path[1..]);
    }
  }

  /** t with grown in place of the map that path leads to. */
  ghost function Put(t: Tree, path: seq<string>, grown: Tree): Tree
    requires Leads(t, path)
    decreases |path|
  {
    if path == [] then grown
    else ObjectTree(t.obj, t.members[path[0] := Put(t.members[path[0]], path[1..], grown)], t.foot + Foot(grown))
  }

  /** grown can stand where path leads: it is that map, and what it adds stands nowhere else in t. */
  ghost predicate CanGrow(t: Tree, path: seq<string>, grown: Tree)
    requires Leads(t, path)
  {
    && Owned(grown) && grown.ObjectTree? && grown.obj == End(t, path).obj
    && Foot(End(t, path)) <= Foot(grown) && Foot(grown) * Foot(t) <= Foot(End(t, path))
  }

  lemma {:induction false} PutOwned(t: Tree, path: seq<string>, grown: Tree)
    requires Owned(t) && Leads(t, path) && CanGrow(t, path, grown)
    ensures Owned(Put(t, path, grown)) && Foot(Put(t, path, grown)) == Foot(t) + Foot(grown)
    ensures Leads(Put(t, path, grown), path) && End(Put(t, path, grown), path) == grown
    decreases |path|
  {
    if path != [] {
      var p, rest := path[0], path[1..];
      var kid := t.members[p];
      EndInside(kid, rest);
      PutOwned(kid, rest, grown);
      ObjectKids(t);
      var us := t.members[p := Put(kid, rest, grown)];
      forall k | k in us && k != p ensures Foot(us[k]) !! Foot(us[p]) {
        assert Foot(t.members[k]) !! Foot(kid);
      }
      forall k, l | k in us && l in us && k != l ensures Foot(us[k]) !! Foot(us[l]) {
        if k != p && l != p {
          assert Foot(t.members[k]) !! Foot(t.members[l]);
        }
      }
    }
  }

  lemma {:induction false} PutMatches(node: Node, t: Tree, path: seq<string>, grown: Tree)
    requires Owned(t) && Leads(t, path) && CanGrow(t, path, grown) && Around(node, t, path)
    requires Matches(ObjectRef(grown.obj), grown)
    ensures Owned(Put(t, path, grown)) && Matches(node, Put(t, path, grown))
    decreases |path|
  {
    PutOwned(t, path, grown);
    if path != [] {
      EndInside(t.members[path[0]], path[1..]);
      PutMatches(t.obj.members[path[0]], t.members[path[0]], path[1..], grown);
    }
  }

  lemma {:induction false} LeadsOn(t: Tree, path: seq<string>, p: string)
    requires Leads(t, path) && p in End(t, path).members && End(t, path).members[p].ObjectTree?
    ensures Leads(t, path + [p]) && End(t, path + [p]) == End(t, path).members[p]
    decreases |path|
  {
    if path == [] {
      assert path + [p] == [p];
    } else {
      assert (path + [p])[1..] == path[1..] + [p];
      LeadsOn(t.members[path[0]], path[1..], p);
    }
  }

  // ---------------------------------------------------------------------------------------------
  // The same on values
  // ---------------------------------------------------------------------------------------------

  predicate LeadsValue(root: Members, path: seq<string>)
    decreases |path|
  {
    path == [] || (path[0] in root && root[path[0]].Object? && LeadsValue(root[path[0]].members, path[1..]))
  }

  function MembersAt(root: Members, path: seq<string>): Members
    requires LeadsValue(root, path)
    decreases |path|
  {
    if path == [] then root else MembersAt(root[path[0]].members, path[1..])
  }

  function PutMembers(root: Members, path: seq<string>, m: Members): Members
    requires LeadsValue(root, path)
    decreases |path|
  {
    if path == [] then m else root[path[0] := Object(PutMembers(root[path[0]].members, path[1..], m))]
  }

  lemma {:induction false} ValueAtEnd(t: Tree, path: seq<string>)
    requires Leads(t, path)
    ensures LeadsValue(ValueOf(t).members, path) && MembersAt(ValueOf(t).members, path) == ValueOf(End(t, path)).members
    decreases |path|
  {
    if path != [] {
      ValueAtEnd(t.members[path[0]], path[1..]);
    }
  }

  lemma {:induction false} ValueOfPut(t: Tree, path: seq<string>, grown: Tree)
    requires Leads(t, path) && grown.ObjectTree?
    ensures LeadsValue(ValueOf(t).members, path)
    ensures ValueOf(Put(t, path, grown)) == Object(PutMembers(ValueOf(t).members, path, ValueOf(grown).members))
    decreases |path|
  {
    ValueAtEnd(t, path);
    if path != [] {
      var p := path[0];
      ValueOfPut(t.members[p], path[1..], grown);
      var us := t.members[p := Put(t.members[p], path[1..], grown)];
      assert ValueOf(Put(t, path, grown)).members == ValueOf(t).members[p := ValueOf(us[p])];
    }
  }

  lemma {:induction false} PutPut(root: Members, path: seq<string>, a: Members, b: Members)
    requires LeadsValue(root, path)
    ensures LeadsValue(PutMembers(root, path, a), path) && MembersAt(PutMembers(root, path, a), path) == a
    ensures PutMembers(PutMembers(root, path, a), path, b) == PutMembers(root, path, b)
    decreases |path|
  {
    if path != [] {
      PutPut(root[path[0]].members, path[1..], a, b);
    }
  }

  /** An insertion along a path of objects happens where the path leads. */
  lemma {:induction false} InsertVia(root: Members, path: seq<string>, rest: seq<string>, x: Json)
    requires LeadsValue(root, path) && rest != []
    ensures NestKeys.InsertNested(root, path + rest, x)
         == match NestKeys.InsertNested(MembersAt(root, path), rest, x)
            { case None => None case Some(m) => Some(PutMembers(root, path, m)) }
    decreases |path|
  {
    if path == [] {
      assert path + rest == rest;
    } else {
      assert (path + rest)[1..] == path[1..] + rest;
      InsertVia(root[path[0]].members, path[1..], rest, x);
    }
  }

  /** An empty object where nothing stands makes no difference to an insertion through it. */
  lemma {:induction false} EmptyChild(root: Members, path: seq<string>, rest: seq<string>, x: Json)
    requires LeadsValue(root, path) && |rest| > 1 && rest[0] !in MembersAt(root, path)
    ensures var child := PutMembers(root, path, MembersAt(root, path)[rest[0] := Object(map[])]);
            NestKeys.InsertNested(child, path + rest, x) == NestKeys.InsertNested(root, path + rest, x)
  {
    var at := MembersAt(root, path);
    var grown := at[rest[0] := Object(map[])];
    var child := PutMembers(root, path, grown);
    InsertVia(root, path, rest, x);
    PutPut(root, path, grown, map[]);
    InsertVia(child, path, rest, x);
    match NestKeys.InsertNested(at, rest, x) {
      case None =>
      case Some(m) =>
        assert grown[rest[0] := m[rest[0]]] == m;
        PutPut(root, path, grown, m);
    }
  }

  // ---------------------------------------------------------------------------------------------
  // insertNested
  // ---------------------------------------------------------------------------------------------

  /** cur[p] = v for a name that is not there yet. */
  method AddMember(cur: ObjectNode, p: string, v: Node, ghost root: Node, ghost u: Tree, ghost path: seq<string>, ghost kid: Tree)
    returns (ghost w: Tree)
    requires Owned(u) && Leads(u, path) && Matches(root, u) && End(u, path).obj == cur && p !in cur.members
    requires Owned(kid) && Matches(v, kid) && Foot(kid) !! Foot(u)
    modifies cur
    ensures p !in End(u, path).members
    ensures w == Put(u, path, Grown(u, path, p, kid)) && w.ObjectTree?
    ensures Owned(w) && Foot(w) == Foot(u) + Foot(kid) && Matches(root, w)
    ensures Leads(w, path) && End(w, path) == Grown(u, path, p, kid)
  {
    hide Owned, Matches, Around, Put, End;
    EndInside(u, path);
    Surrounds(root, u, path);
    var e := End(u, path);
    ObjectMatches(cur, e);
    var grown := ObjectTree(cur, e.members[p := kid], e.foot + Foot(kid));
    GrownOwned(e, p, kid);
    cur.members := cur.members[p := v];
    ObjectMatched(cur, grown.members, grown.foot);
    PutOwned(u, path, grown);
    PutMatches(root, u, path, grown);
    w := Put(u, path, grown);
  }

  lemma GrownOwned(e: Tree, p: string, kid: Tree)
    requires Owned(e) && e.ObjectTree? && p !in e.members && Owned(kid) && Foot(kid) !! Foot(e)
    ensures Owned(ObjectTree(e.obj, e.members[p := kid], e.foot + Foot(kid)))
    ensures forall k | k in e.members :: e.obj !in Foot(e.members[k]) && e.obj !in Foot(kid)
  {
    var us := e.members[p := kid];
    forall k, l | k in us && l in us && k != l ensures Foot(us[k]) !! Foot(us[l]) {
      if k != p && l != p {
        assert Foot(e.members[k]) !! Foot(e.members[l]);
      }
    }
  }

  /** What an insertion makes of the document. */
  ghost function Insertion(t: Tree, parts: seq<string>, x: Json): Option<Members>
    requires t.ObjectTree? && parts != []
  {
    NestKeys.InsertNested(ValueOf(t).members, parts, x)
  }

  /** The tree with a member added to the map that path leads to. */
  ghost function Grown(u: Tree, path: seq<string>, p: string, kid: Tree): Tree
    requires Leads(u, path)
  {
    ObjectTree(End(u, path).obj, End(u, path).members[p := kid], End(u, path).foot + Foot(kid))
  }

  lemma {:induction false} ValueOfGrown(u: Tree, path: seq<string>, p: string, kid: Tree)
    requires Leads(u, path)
    ensures LeadsValue(ValueOf(u).members, path)
    ensures MembersAt(ValueOf(u).members, path) == ValueOf(End(u, path)).members
    ensures ValueOf(Put(u, path, Grown(u, path, p, kid)))
         == Object(PutMembers(ValueOf(u).members, path, ValueOf(End(u, path)).members[p := ValueOf(kid)]))
  {
    var grown := Grown(u, path, p, kid);
    ValueAtEnd(u, path);
    ValueOfPut(u, path, grown);
    assert ValueOf(grown).members == ValueOf(End(u, path)).members[p := ValueOf(kid)];
  }

  lemma FailsHere(u: Tree, path: seq<string>, rest: seq<string>, x: Json)
    requires Leads(u, path) && rest != [] && rest[0] in End(u, path).members
    requires |rest| == 1 || (Owned(End(u, path).members[rest[0]]) && !End(u, path).members[rest[0]].ObjectTree?)
    ensures Insertion(u, path + rest, x) == None
  {
    hide PutMembers;
    ValueAtEnd(u, path);
    InsertVia(ValueOf(u).members, path, rest, x);
  }

  lemma CreatesHere(u: Tree, path: seq<string>, rest: seq<string>, kid: Tree, x: Json)
    requires Leads(u, path) && |rest| > 1 && rest[0] !in End(u, path).members && kid.ObjectTree? && kid.members == map[]
    ensures var w := Put(u, path, Grown(u, path, rest[0], kid));
            w.ObjectTree? && Insertion(w, path + rest, x) == Insertion(u, path + rest, x)
  {
    hide PutMembers, MembersAt, NestKeys.InsertNested;
    ValueOfGrown(u, path, rest[0], kid);
    assert ValueOf(kid) == Object(map[]);
    EmptyChild(ValueOf(u).members, path, rest, x);
  }

  lemma LeafHere(u: Tree, path: seq<string>, leaf: string, kid: Tree)
    requires Leads(u, path) && leaf !in End(u, path).members
    ensures var w := Put(u, path, Grown(u, path, leaf, kid));
            w.ObjectTree? && Insertion(u, path + [leaf], ValueOf(kid)) == Some(ValueOf(w).members)
  {
    hide PutMembers, MembersAt;
    ValueOfGrown(u, path, leaf, kid);
    InsertVia(ValueOf(u).members, path, [leaf], ValueOf(kid));
  }

  /** path leads from root through the document u to the map cur. */
  ghost predicate Reaches(root: ObjectNode, u: Tree, path: seq<string>, cur: ObjectNode)
    reads Foot(u)
  {
    Owned(u) && Matches(ObjectRef(root), u) && Leads(u, path) && End(u, path).obj == cur
  }

  lemma ReachesInside(root: ObjectNode, u: Tree, path: seq<string>, cur: ObjectNode)
    requires Reaches(root, u, path, cur)
    ensures cur in Foot(u) && u.ObjectTree? && cur.members.Keys == End(u, path).members.Keys
    ensures forall k | k in cur.members :: var m := End(u, path).members[k];
              Owned(m) && (cur.members[k].ObjectRef? <==> m.ObjectTree?) && (m.ObjectTree? ==> m.obj == cur.members[k].obj)
  {
    hide Around;
    Surrounds(ObjectRef(root), u, path);
    EndInside(u, path);
  }

  /** One round of the loop of insertNested: the next map on the way, which is made when there is none. */
  method Descend(root: ObjectNode, cur: ObjectNode, p: string, ghost u: Tree, ghost path: seq<string>, ghost rest: seq<string>, ghost x: Json)
    returns (ok: bool, next: ObjectNode, ghost w: Tree, ghost made: bool)
    requires Reaches(root, u, path, cur) && |rest| > 1 && rest[0] == p
    modifies cur
    ensures w.ObjectTree? && Foot(u) <= Foot(w) && fresh(Foot(w) - Foot(u))
    ensures ok ==> Reaches(root, w, path + [p], next) && Insertion(w, path + rest, x) == Insertion(u, path + rest, x)
    ensures made ==> ok && Leads(w, path + [p]) && End(w, path + [p]).members == map[]
    ensures !made ==> w == u && unchanged(cur) && Leads(u, path) && End(u, path).members != map[]
    ensures !ok ==> Insertion(u, path + rest, x) == None
  {
    hide Owned, Matches, End, Put, Insertion, ValueOf;
    ReachesInside(root, u, path, cur);
    if p !in cur.members {
      var child := new ObjectNode(map[]);
      ghost var kid := ObjectTree(child, map[], {child});
      EmptyTree(child);
      CreatesHere(u, path, rest, kid, x);
      w := AddMember(cur, p, ObjectRef(child), ObjectRef(root), u, path, kid);
      LeadsOn(w, path, p);
      ok, next, made := true, child, true;
    } else {
      w, made, next := u, false, cur;
      var child := cur.members[p];
      ok := child.ObjectRef?;
      if ok {
        LeadsOn(u, path, p);
        next := child.obj;
      } else {
        FailsHere(u, path, rest, x);
      }
    }
  }

  /**
   * insertNested: either the value is in the tree at its path, or there was a collision and nothing has changed at all.
   */
  method InsertNested(root: ObjectNode, parts: seq<string>, val: Node, ghost t: Tree, ghost vt: Tree)
    returns (ok: bool, ghost u: Tree)
    requires parts != [] && Owned(t) && Matches(ObjectRef(root), t)
    requires Owned(vt) && Matches(val, vt) && Foot(vt) !! Foot(t)
    modifies Foot(t)
    ensures t.ObjectTree? && Owned(u) && Matches(ObjectRef(root), u) && u.ObjectTree?
    ensures Foot(t) <= Foot(u) && fresh(Foot(u) - Foot(t) - Foot(vt))
    ensures ok <==> Insertion(t, parts, ValueOf(vt)).Some?
    ensures ok ==> Insertion(t, parts, ValueOf(vt)) == Some(ValueOf(u).members)
    ensures !ok ==> u == t && unchanged(Foot(t))
  {
    hide Owned, Matches, End, Put, Insertion, ValueOf, Reaches;
    ghost var x := ValueOf(vt);
    StartsAtRoot(root, t);
    var cur := root;
    u := t;
    ghost var created := false;
    assert parts[..0] == [];
    for i := 0 to |parts| - 1
      invariant u.ObjectTree? && Reaches(root, u, parts[..i], cur)
      invariant Foot(t) <= Foot(u) && fresh(Foot(u) - Foot(t))
      invariant Insertion(u, parts, x) == Insertion(t, parts, x)
      invariant created ==> Leads(u, parts[..i]) && End(u, parts[..i]).members == map[]
      invariant !created ==> u == t && unchanged(Foot(t))
    {
      ghost var path, rest := parts[..i], parts[i..];
      assert parts == path + rest && parts[..i + 1] == path + [rest[0]];
      ReachesInside(root, u, path, cur);
      var found, next;
      ghost var made;
      found, next, u, made := Descend(root, cur, parts[i], u, path, rest, x);
      if !found {
        ReachesTree(root, u, path, cur);
        return false, u;
      }
      cur := next;
      created := created || made;
    }
    ReachesInside(root, u, parts[..|parts| - 1], cur);
    ok, u := AddLeaf(root, cur, parts[|parts| - 1], val, u, parts[..|parts| - 1], parts, vt);
  }

  method AddLeaf(root: ObjectNode, cur: ObjectNode, leaf: string, val: Node, ghost u: Tree, ghost path: seq<string>,
                 ghost parts: seq<string>, ghost vt: Tree)
    returns (ok: bool, ghost w: Tree)
    requires Reaches(root, u, path, cur) && u.ObjectTree? && parts == path + [leaf]
    requires Owned(vt) && Matches(val, vt) && Foot(vt) !! Foot(u)
    modifies cur
    ensures Owned(w) && Matches(ObjectRef(root), w) && w.ObjectTree? && Foot(u) <= Foot(w) <= Foot(u) + Foot(vt)
    ensures Insertion(u, parts, ValueOf(vt)) == if ok then Some(ValueOf(w).members) else None
    ensures !ok ==> w == u && unchanged(cur) && Leads(u, path) && End(u, path).members != map[]
  {
    hide Owned, Matches, End, Put, Insertion, ValueOf;
    ReachesInside(root, u, path, cur);
    if leaf in cur.members {
      FailsHere(u, path, [leaf], ValueOf(vt));
      return false, u;
    }
    LeafHere(u, path, leaf, vt);
    w := AddMember(cur, leaf, val, ObjectRef(root), u, path, vt);
    return true, w;
  }

  lemma ReachesTree(root: ObjectNode, u: Tree, path: seq<string>, cur: ObjectNode)
    requires Reaches(root, u, path, cur)
    ensures Owned(u) && Matches(ObjectRef(root), u)
  {
  }

  lemma StartsAtRoot(root: ObjectNode, t: Tree)
    requires Owned(t) && Matches(ObjectRef(root), t)
    ensures t.ObjectTree? && Reaches(root, t, [], root)
  {
  }

  lemma EmptyTree(obj: ObjectNode)
    requires obj.members == map[]
    ensures Owned(ObjectTree(obj, map[], {obj})) && Matches(ObjectRef(obj), ObjectTree(obj, map[], {obj}))
  {
  }

  // ---------------------------------------------------------------------------------------------
  // nestDottedKeys
  // ---------------------------------------------------------------------------------------------

  /** The trees of the keys still to come stand apart from u, and so does the map they come from. */
  ghost predicate Apart(t: Tree, u: Tree, todo: set<string>)
    requires t.ObjectTree?
  {
    todo <= t.members.Keys && t.obj !in Foot(u) && forall k | k in todo :: Foot(t.members[k]) !! Foot(u)
  }

  /** All but the keys in todo have been met by the first loop. */
  ghost predicate Copied(t: Tree, u: Tree, out: ObjectNode, todo: set<string>)
    requires t.ObjectTree?
  {
    && u.ObjectTree? && u.obj == out && Foot(u) <= {out} + Foot(t) && todo <= t.members.Keys
    && u.members == (map k | k in t.members && k !in todo && !Dotted(k) :: t.members[k])
    && Apart(t, u, set k | k in t.members && (k in todo || Dotted(k)))
  }

  lemma CopiedFirst(t: Tree, out: ObjectNode)
    requires t.ObjectTree? && Owned(t) && out !in Foot(t)
    ensures Copied(t, ObjectTree(out, map[], {out}), out, t.members.Keys)
  {
  }

  lemma CopiedDotted(t: Tree, u: Tree, out: ObjectNode, todo: set<string>, k: string)
    requires t.ObjectTree? && Copied(t, u, out, todo) && k in todo && Dotted(k)
    ensures Copied(t, u, out, todo - {k})
  {
    assert u.members == map l | l in t.members && l !in todo - {k} && !Dotted(l) :: t.members[l];
  }

  lemma CopiedPlain(t: Tree, u: Tree, out: ObjectNode, todo: set<string>, k: string)
    requires t.ObjectTree? && Owned(t) && Copied(t, u, out, todo) && k in todo && !Dotted(k)
    ensures u.ObjectTree? && Foot(t.members[k]) !! Foot(u) && k !in u.members
    ensures Copied(t, ObjectTree(out, u.members[k := t.members[k]], u.foot + Foot(t.members[k])), out, todo - {k})
  {
    ObjectKids(t);
    var us := u.members[k := t.members[k]];
    assert us == map l | l in t.members && l !in todo - {k} && !Dotted(l) :: t.members[l];
  }

  /** The first loop: the plain keys, in any order. */
  method CopyPlain(flat: ObjectNode, out: ObjectNode, ghost t: Tree) returns (ghost u: Tree)
    requires Owned(t) && Matches(ObjectRef(flat), t) && t.ObjectTree? && out !in Foot(t) && out.members == map[]
    modifies out
    ensures Owned(u) && Matches(ObjectRef(out), u) && Copied(t, u, out, {})
  {
    hide Owned, Matches, Put, Copied;
    ObjectMatches(flat, t);
    EmptyTree(out);
    CopiedFirst(t, out);
    u := ObjectTree(out, map[], {out});
    var todo := flat.members.Keys;
    while todo != {}
      invariant todo <= t.members.Keys && Owned(u) && Matches(ObjectRef(out), u) && Copied(t, u, out, todo)
      decreases |todo|
    {
      var k :| k in todo;
      ObjectMatches(flat, t);
      if !Dotted(k) {
        CopiedPlain(t, u, out, todo, k);
        u := AddToRoot(out, k, flat.members[k], u, t.members[k]);
      } else {
        CopiedDotted(t, u, out, todo, k);
      }
      todo := todo - {k};
    }
  }

  /** out[k] = v for a name that is not there yet. */
  method AddToRoot(out: ObjectNode, k: string, v: Node, ghost u: Tree, ghost kid: Tree) returns (ghost w: Tree)
    requires Owned(u) && Matches(ObjectRef(out), u) && u.ObjectTree? && k !in u.members
    requires Owned(kid) && Matches(v, kid) && Foot(kid) !! Foot(u)
    modifies out
    ensures w == ObjectTree(out, u.members[k := kid], u.foot + Foot(kid)) && Owned(w) && Matches(ObjectRef(out), w)
    ensures MembersOf(w) == MembersOf(u)[k := ValueOf(kid)]
  {
    hide Owned, Matches, ValueOf;
    ObjectMatches(out, u);
    LiteralValue(u, k, kid);
    w := AddMember(out, k, v, ObjectRef(out), u, [], kid);
  }

  ghost function MembersOf(t: Tree): Members
    requires t.ObjectTree?
  {
    ValueOf(t).members
  }

  /** One round of the second loop. */
  method NestOne(out: ObjectNode, k: string, v: Node, ghost u: Tree, ghost kid: Tree, ghost met: set<string>)
    returns (ghost w: Tree)
    requires Owned(u) && Matches(ObjectRef(out), u) && u.ObjectTree?
    requires Owned(kid) && Matches(v, kid) && Foot(kid) !! Foot(u)
    requires Dotted(k) && k !in met && LiteralsMet(MembersOf(u), met)
    modifies Foot(u)
    ensures Owned(w) && Matches(ObjectRef(out), w) && w.ObjectTree? && fresh(Foot(w) - Foot(u) - Foot(kid))
    ensures MembersOf(w) == Round(MembersOf(u), k, ValueOf(kid))
    ensures LiteralsMet(MembersOf(w), met + {k})
  {
    hide Owned, Matches, Put, Leads, ValueOf, NestKeys.InsertNested, SplitDots;
    ghost var before := MembersOf(u);
    StepKeeps(before, k, ValueOf(kid), met);
    var ok;
    ok, w := InsertNested(out, SplitDots(k), v, u, kid);
    if !ok {
      NoLiteral(out, u, k);
      w := AddToRoot(out, k, v, u, kid);
    }
  }

  lemma NoLiteral(out: ObjectNode, u: Tree, k: string)
    requires Owned(u) && Matches(ObjectRef(out), u) && u.ObjectTree? && k !in MembersOf(u)
    ensures k !in u.members && out in Foot(u)
  {
  }

  lemma LiteralValue(u: Tree, k: string, kid: Tree)
    requires u.ObjectTree?
    ensures Leads(u, []) && Put(u, [], Grown(u, [], k, kid)).ObjectTree?
    ensures MembersOf(Put(u, [], Grown(u, [], k, kid))) == MembersOf(u)[k := ValueOf(kid)]
  {
    ValueOfGrown(u, [], k, kid);
  }

  lemma {:induction false} NestSnoc(root: Members, flat: Members, order: seq<string>, k: string)
    requires (forall l | l in order :: l in flat) && k in flat
    ensures forall l | l in order + [k] :: l in flat
    ensures NestFrom(root, flat, order + [k]) == Round(NestFrom(root, flat, order), k, flat[k])
    decreases |order|
  {
    if order == [] {
      assert order + [k] == [k];
    } else {
      assert (order + [k])[1..] == order[1..] + [k];
      NestSnoc(Round(root, order[0], flat[order[0]]), flat, order[1..], k);
    }
  }

  /** All but the keys in todo have been met by the second loop, the dotted ones in this order. */
  ghost predicate Met(t: Tree, u: Tree, todo: set<string>, order: seq<string>)
    requires t.ObjectTree?
  {
    && u.ObjectTree? && todo <= t.members.Keys && Distinct(order)
    && (forall k :: k in order <==> k in t.members && k !in todo && Dotted(k))
    && (forall k | k in order :: k in MembersOf(t))
    && MembersOf(u) == NestFrom(Plain(MembersOf(t)), MembersOf(t), order)
    && LiteralsMet(MembersOf(u), set k | k in order)
    && Apart(t, u, set k | k in todo && Dotted(k))
  }

  lemma MetFirst(t: Tree, u: Tree, out: ObjectNode)
    requires t.ObjectTree? && Copied(t, u, out, {})
    ensures Met(t, u, t.members.Keys, [])
  {
    var values := MembersOf(t);
    assert MembersOf(u) == Plain(values);
  }

  lemma MetPlain(t: Tree, u: Tree, todo: set<string>, order: seq<string>, k: string)
    requires t.ObjectTree? && Met(t, u, todo, order) && k in todo && !Dotted(k)
    ensures Met(t, u, todo - {k}, order)
  {
    hide MembersOf, NestFrom;
  }

  lemma MetDotted(t: Tree, u: Tree, todo: set<string>, order: seq<string>, k: string, w: Tree)
    requires t.ObjectTree? && Owned(t) && Met(t, u, todo, order) && k in todo && Dotted(k)
    requires w.ObjectTree? && MembersOf(w) == Round(MembersOf(u), k, ValueOf(t.members[k]))
    requires LiteralsMet(MembersOf(w), (set l | l in order) + {k}) && t.obj !in Foot(w)
    requires forall l | l in todo && l != k && Dotted(l) :: Foot(t.members[l]) !! Foot(w)
    ensures Met(t, w, todo - {k}, order + [k])
  {
    hide MembersOf, NestFrom, Round, Owned, LiteralsMet, Plain;
    KidValue(t, k);
    OrderGrows(t, todo, order, k);
    NestSnoc(Plain(MembersOf(t)), MembersOf(t), order, k);
    assert (set l | l in order + [k]) == (set l | l in order) + {k};
    assert Apart(t, w, set l | l in todo - {k} && Dotted(l));
  }

  lemma OrderGrows(t: Tree, todo: set<string>, order: seq<string>, k: string)
    requires t.ObjectTree? && Distinct(order) && k in todo && todo <= t.members.Keys && Dotted(k)
    requires forall l :: l in order <==> l in t.members && l !in todo && Dotted(l)
    ensures Distinct(order + [k])
    ensures forall l :: l in order + [k] <==> l in t.members && l !in todo - {k} && Dotted(l)
  {
    assert k !in order;
    forall l ensures l in order + [k] <==> l in order || l == k {}
  }

  lemma MetAll(t: Tree, u: Tree, order: seq<string>)
    requires t.ObjectTree? && Met(t, u, {}, order)
    ensures IsOrder(MembersOf(t), order) && MembersOf(u) == Nested(MembersOf(t), order)
  {
    assert MembersOf(t).Keys == t.members.Keys;
  }

  /** nestDottedKeys; order is the order in which the second loop met the dotted keys. */
  method NestDottedKeys(flat: ObjectNode, ghost t: Tree) returns (out: ObjectNode, ghost u: Tree, ghost order: seq<string>)
    requires Owned(t) && Matches(ObjectRef(flat), t)
    modifies Foot(t) - {flat}
    ensures t.ObjectTree? && u.ObjectTree? && Owned(u) && Matches(ObjectRef(out), u) && fresh(out)
    ensures IsOrder(MembersOf(t), order) && MembersOf(u) == Nested(MembersOf(t), order)
  {
    hide Owned, Matches, MembersOf, ValueOf, Round, NestFrom, Met, Copied, IsOrder;
    ObjectMatches(flat, t);
    out := new ObjectNode(map[]);
    u := CopyPlain(flat, out, t);
    MetFirst(t, u, out);
    CopiedApart(t, u, out);
    ObjectMatches(flat, t);
    order := [];
    var todo := flat.members.Keys;
    while todo != {}
      invariant todo <= flat.members.Keys == t.members.Keys
      invariant Owned(u) && Matches(ObjectRef(out), u) && fresh(Foot(u) - Foot(t)) && flat !in Foot(u) && Met(t, u, todo, order)
      invariant forall k | k in todo && Dotted(k) :: Owned(t.members[k]) && Matches(flat.members[k], t.members[k])
      decreases |todo|
    {
      var k :| k in todo;
      if Dotted(k) {
        MetBefore(t, u, todo, order, k);
        var v := flat.members[k];
        ghost var before := u;
        u := NestOne(out, k, v, u, t.members[k], set l | l in order);
        MetDotted(t, before, todo, order, k, u);
        order := order + [k];
      } else {
        MetPlain(t, u, todo, order, k);
      }
      todo := todo - {k};
    }
    MetAll(t, u, order);
    MetTree(t, u, order);
  }

  lemma CopiedApart(t: Tree, u: Tree, out: ObjectNode)
    requires t.ObjectTree? && Copied(t, u, out, {})
    ensures Foot(u) <= {out} + Foot(t) && t.obj !in Foot(u)
  {
  }

  lemma MetTree(t: Tree, u: Tree, order: seq<string>)
    requires t.ObjectTree? && Met(t, u, {}, order)
    ensures u.ObjectTree?
  {
  }

  /** What a round needs to know about the key it meets. */
  lemma MetBefore(t: Tree, u: Tree, todo: set<string>, order: seq<string>, k: string)
    requires t.ObjectTree? && Owned(t) && Met(t, u, todo, order) && k in todo && Dotted(k)
    ensures u.ObjectTree? && k !in order && LiteralsMet(MembersOf(u), set l | l in order)
    ensures Foot(t.members[k]) <= Foot(t) - {t.obj} && t.obj !in Foot(u)
    ensures forall l | l in todo && Dotted(l) :: Foot(t.members[l]) !! Foot(u)
    ensures forall l | l in todo && l != k :: Foot(t.members[l]) !! Foot(t.members[k]) && Foot(t.members[l]) <= Foot(t)
  {
    ObjectKids(t);
  }

  lemma KidValue(t: Tree, k: string)
    requires t.ObjectTree? && k in t.members
    ensures k in MembersOf(t) && MembersOf(t)[k] == ValueOf(t.members[k])
  {
  }
}
